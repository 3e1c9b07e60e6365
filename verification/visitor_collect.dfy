/**
 * Candidate collection of packages/abi-to-sol/src/declarations/visitor.ts:
 * a walk over the ABI that records, for every struct-shaped parameter, one
 * candidate declaration (identifier still optional) under the parameter's
 * tuple signature, and registers that signature under the candidate's
 * container (`""` for none). Sibling results are combined with `Merge`.
 *
 * The source file is in the middle of a refactoring; this module models its
 * evident intent, and marks with DEVIATION the place where the text as
 * written does something else.
 */
module VisitorCollect {
  import opened Common
  import opened AssocList
  import opened Classifier
  import opened TupleSignature
  import opened VisitorMerge

  // ---------------------------------------------------------------------
  // The visitor
  // ---------------------------------------------------------------------

  /** `components.map(c => ({name: c.name, type: generateType(c)}))` */
  function ClassifyComponents(raw: seq<Parameter>): (cs: seq<Component>)
    ensures |cs| == |raw|
    ensures forall i :: 0 <= i < |raw| ==> cs[i] == Component(raw[i].name, GenerateType(raw[i]))
  {
    seq(|raw|, i requires 0 <= i < |raw| => Component(raw[i].name, GenerateType(raw[i])))
  }

  /** The declarations one struct-shaped parameter contributes by itself. */
  function OwnDeclarations(p: Parameter): (r: Collected)
    requires IsTupleType(p.typ)
    ensures WellFormed(r)
    ensures Keys(r.signatureDeclarations) == [Signature(p.ComponentsOrEmpty())]
    ensures GetOr(r.signatureDeclarations, Signature(p.ComponentsOrEmpty()), []) ==
      [Candidate(GenerateType(p).identifier, ClassifyComponents(p.ComponentsOrEmpty()))]
    ensures Keys(r.containerSignatures) == [ContainerKey(GenerateType(p).identifier)]
    ensures GetOr(r.containerSignatures, ContainerKey(GenerateType(p).identifier), []) ==
      [Signature(p.ComponentsOrEmpty())]
  {
    var t := GenerateType(p);
    var signature := Signature(p.ComponentsOrEmpty());
    var candidate := Candidate(t.identifier, ClassifyComponents(p.ComponentsOrEmpty()));
    SingletonWellFormed(signature, candidate);
    Collected([(signature, [candidate])], [(ContainerKey(t.identifier), [signature])])
  }

  /** A parameter's own candidate only refers to structs that its components' visits record. */
  lemma OwnDeclarationsResolve(p: Parameter, target: AList<seq<Candidate>>)
    requires IsTupleType(p.typ)
    requires forall i :: 0 <= i < |p.ComponentsOrEmpty()| && IsTupleType(p.ComponentsOrEmpty()[i].typ) ==>
      Has(target, Signature(p.ComponentsOrEmpty()[i].ComponentsOrEmpty()), GenerateType(p.ComponentsOrEmpty()[i]).identifier)
    ensures ResolvesIn(OwnDeclarations(p).signatureDeclarations, target)
  {
    var raw := p.ComponentsOrEmpty();
    var own := OwnDeclarations(p).signatureDeclarations;
    forall s, x, c | x in GetOr(own, s, []) && c in x.components ensures Resolves(target, c) {
      assert s == Signature(raw);
      var i :| 0 <= i < |raw| && c == ClassifyComponents(raw)[i];
    }
  }

  /**
   * `visitParameter`: nothing for an elementary parameter; otherwise the
   * parameter's own candidate merged with everything its components yield.
   * The result is well formed and closed: every struct component of every
   * candidate finds a candidate with its identifier under its signature.
   * DEVIATION: as written, the recursion visits the already classified
   * `{name, type}` objects rather than the raw `parameter.components`, which
   * would fail on `type.startsWith`; the raw components are visited here.
   */
  function VisitParameter(p: Parameter): (r: Collected)
    ensures WellFormed(r) && Closed(r)
    ensures !IsTupleType(p.typ) ==> r == Empty()
    ensures IsTupleType(p.typ) ==>
      Has(r.signatureDeclarations, Signature(p.ComponentsOrEmpty()), GenerateType(p).identifier)
    decreases p, 1
  {
    EmptyWellFormed();
    if !IsTupleType(p.typ) then Empty()
    else
      var children := if p.components.Present? then CollectParameters(Empty(), p.components.items) else Empty();
      var own := OwnDeclarations(p);
      var r := Merge(own, children);
      MergeWellFormed(own, children);
      MergeKeepsEverything(own, children);
      assert GetOr(own.signatureDeclarations, Signature(p.ComponentsOrEmpty()), [])[0].identifier == GenerateType(p).identifier;
      OwnDeclarationsResolve(p, r.signatureDeclarations);
      ExtendsResolves(r.signatureDeclarations, children.signatureDeclarations, children.signatureDeclarations);
      MergeClosed(own, children);
      r
  }

  /**
   * `ps.map(visitParameter).reduce(mergeDeclarations, acc)`: whatever `acc`
   * records is kept, every struct-shaped parameter's own candidate is
   * recorded, and well-formed, closed accumulators stay so.
   */
  function CollectParameters(acc: Collected, ps: seq<Parameter>): (r: Collected)
    ensures Extends(r.signatureDeclarations, acc.signatureDeclarations)
    ensures forall i :: 0 <= i < |ps| && IsTupleType(ps[i].typ) ==>
      Has(r.signatureDeclarations, Signature(ps[i].ComponentsOrEmpty()), GenerateType(ps[i]).identifier)
    ensures WellFormed(acc) && Closed(acc) ==> WellFormed(r) && Closed(r)
    decreases ps, 0
  {
    if ps == [] then acc
    else
      var v := VisitParameter(ps[0]);
      var m := Merge(acc, v);
      var r := CollectParameters(m, ps[1..]);
      MergeKeepsEverything(acc, v);
      ExtendsTransitive(r.signatureDeclarations, m.signatureDeclarations, acc.signatureDeclarations);
      ExtendsTransitive(r.signatureDeclarations, m.signatureDeclarations, v.signatureDeclarations);
      MergeInvariant(acc, v);
      assert forall i :: 0 <= i < |ps| && IsTupleType(ps[i].typ) ==>
        Has(r.signatureDeclarations, Signature(ps[i].ComponentsOrEmpty()), GenerateType(ps[i]).identifier) by {
        forall i | 0 <= i < |ps| && IsTupleType(ps[i].typ)
          ensures Has(r.signatureDeclarations, Signature(ps[i].ComponentsOrEmpty()), GenerateType(ps[i]).identifier)
        {
          if i > 0 { assert ps[i] == ps[1..][i - 1]; }
        }
      }
      r
  }

  /** `visit*Entry`: functions visit inputs, then outputs; fallback and receive give nothing. */
  function VisitEntry(e: Entry): (r: Collected)
    ensures WellFormed(r) && Closed(r)
    ensures e.FallbackEntry? || e.ReceiveEntry? ==> r == Empty()
  {
    EmptyWellFormed();
    if e.FallbackEntry? || e.ReceiveEntry? then Empty()
    else CollectParameters(Empty(), EntryParameters(e))
  }

  /** Every struct-shaped input or output of an entry is recorded with its identifier. */
  lemma VisitEntryRecordsTuples(e: Entry, p: Parameter)
    requires p in EntryParameters(e) && IsTupleType(p.typ)
    ensures Has(VisitEntry(e).signatureDeclarations, Signature(p.ComponentsOrEmpty()), GenerateType(p).identifier)
  {
    var ps := EntryParameters(e);
    var i :| 0 <= i < |ps| && ps[i] == p;
    assert !e.FallbackEntry? && !e.ReceiveEntry?;
    assert VisitEntry(e) == CollectParameters(Empty(), ps);
  }

  /** The parameters an entry's visit walks, in order. */
  function EntryParameters(e: Entry): seq<Parameter> {
    match e
    case FunctionEntry(inputs, outputs) => inputs + outputs.GetOr([])
    case ConstructorEntry(inputs) => inputs
    case EventEntry(inputs) => inputs
    case ErrorEntry(inputs) => inputs
    case FallbackEntry => []
    case ReceiveEntry => []
  }

  /** `visitAbi`: `entries.map(dispatch).reduce(mergeDeclarations, acc)` */
  function CollectEntries(acc: Collected, entries: seq<Entry>): (r: Collected)
    ensures Extends(r.signatureDeclarations, acc.signatureDeclarations)
    ensures WellFormed(acc) && Closed(acc) ==> WellFormed(r) && Closed(r)
    decreases |entries|
  {
    if entries == [] then acc
    else
      var v := VisitEntry(entries[0]);
      var m := Merge(acc, v);
      var r := CollectEntries(m, entries[1..]);
      MergeKeepsEverything(acc, v);
      ExtendsTransitive(r.signatureDeclarations, m.signatureDeclarations, acc.signatureDeclarations);
      MergeInvariant(acc, v);
      r
  }

  /** Folding the entries records every struct-shaped input or output of every entry. */
  lemma {:induction false} CollectEntriesRecordsTuples(acc: Collected, entries: seq<Entry>, e: Entry, p: Parameter)
    requires e in entries && p in EntryParameters(e) && IsTupleType(p.typ)
    ensures Has(CollectEntries(acc, entries).signatureDeclarations, Signature(p.ComponentsOrEmpty()), GenerateType(p).identifier)
    decreases |entries|
  {
    var v := VisitEntry(entries[0]);
    var m := Merge(acc, v);
    var r := CollectEntries(acc, entries);
    assert r == CollectEntries(m, entries[1..]);
    MergeKeepsEverything(acc, v);
    if entries[0] == e {
      VisitEntryRecordsTuples(e, p);
      assert Has(m.signatureDeclarations, Signature(p.ComponentsOrEmpty()), GenerateType(p).identifier);
    } else {
      assert e in entries[1..];
      CollectEntriesRecordsTuples(m, entries[1..], e, p);
    }
  }

  /** The whole ABI: every struct-shaped input or output of every entry is recorded. */
  lemma CollectAbiRecordsTuples(entries: seq<Entry>, e: Entry, p: Parameter)
    requires e in entries && p in EntryParameters(e) && IsTupleType(p.typ)
    ensures Has(Collect(AbiNode(entries)).signatureDeclarations, Signature(p.ComponentsOrEmpty()), GenerateType(p).identifier)
  {
    CollectEntriesRecordsTuples(Empty(), entries, e, p);
  }

  /** `dispatch({node, visitor: new DeclarationsCollector()})`: always well formed and closed. */
  function Collect(node: Node): (r: Collected)
    ensures WellFormed(r) && Closed(r)
    ensures node.ParameterNode? && IsTupleType(node.parameter.typ) ==>
      Has(r.signatureDeclarations, Signature(node.parameter.ComponentsOrEmpty()), GenerateType(node.parameter).identifier)
  {
    EmptyWellFormed();
    match node
    case AbiNode(entries) => CollectEntries(Empty(), entries)
    case EntryNode(e) => VisitEntry(e)
    case ParameterNode(p) => VisitParameter(p)
  }

  // ---------------------------------------------------------------------
  // What the collection of particular inputs looks like
  // ---------------------------------------------------------------------

  /** Folding a concatenation is folding one part after the other. */
  lemma {:induction false} CollectParametersConcat(acc: Collected, xs: seq<Parameter>, ys: seq<Parameter>)
    ensures CollectParameters(acc, xs + ys) == CollectParameters(CollectParameters(acc, xs), ys)
    decreases |xs|
  {
    if xs == [] {
      assert xs + ys == ys;
    } else {
      assert (xs + ys)[0] == xs[0];
      assert (xs + ys)[1..] == xs[1..] + ys;
      CollectParametersConcat(Merge(acc, VisitParameter(xs[0])), xs[1..], ys);
    }
  }

  /** A function entry is collected from its inputs first, then from its outputs. */
  lemma FunctionEntryInputsThenOutputs(inputs: seq<Parameter>, outputs: Option<seq<Parameter>>)
    ensures VisitEntry(FunctionEntry(inputs, outputs)) ==
      CollectParameters(CollectParameters(Empty(), inputs), outputs.GetOr([]))
  {
    CollectParametersConcat(Empty(), inputs, outputs.GetOr([]));
  }

  /** No parameter of `ps` is struct-shaped. */
  predicate AllElementary(ps: seq<Parameter>) {
    forall i :: 0 <= i < |ps| ==> !IsTupleType(ps[i].typ)
  }

  /** Elementary parameters contribute nothing. */
  lemma {:induction false} CollectElementary(acc: Collected, ps: seq<Parameter>)
    requires AllElementary(ps)
    ensures CollectParameters(acc, ps) == acc
    decreases |ps|
  {
    if ps != [] {
      MergeEmptyRight(acc);
      CollectElementary(acc, ps[1..]);
    }
  }

  /** An entry without struct-shaped parameters, a fallback or a receive entry collects nothing. */
  lemma EntryWithoutTuplesIsEmpty(e: Entry)
    requires forall i :: 0 <= i < |EntryParameters(e)| ==> !IsTupleType(EntryParameters(e)[i].typ)
    ensures VisitEntry(e) == Empty()
  {
    CollectElementary(Empty(), EntryParameters(e));
  }

  /**
   * A struct-shaped parameter whose components are all elementary yields
   * exactly its own candidate: one signature, one candidate, its components
   * in order with their names.
   */
  lemma FlatTuple(p: Parameter)
    requires IsTupleType(p.typ)
    requires forall i :: 0 <= i < |p.ComponentsOrEmpty()| ==> !IsTupleType(p.ComponentsOrEmpty()[i].typ)
    ensures VisitParameter(p) == OwnDeclarations(p)
    ensures Keys(VisitParameter(p).signatureDeclarations) == [Signature(p.ComponentsOrEmpty())]
    ensures var ds := GetOr(VisitParameter(p).signatureDeclarations, Signature(p.ComponentsOrEmpty()), []);
      && |ds| == 1 && |ds[0].components| == |p.ComponentsOrEmpty()|
      && forall i :: 0 <= i < |p.ComponentsOrEmpty()| ==> ds[0].components[i].name == p.ComponentsOrEmpty()[i].name
  {
    if p.components.Present? {
      assert p.ComponentsOrEmpty() == p.components.items;
      CollectElementary(Empty(), p.components.items);
    }
    MergeEmptyRight(OwnDeclarations(p));
  }

  /**
   * A struct-shaped parameter with exactly one struct-shaped component,
   * itself flat, yields exactly two signatures with one candidate each:
   * the parameter's own, then the component's.
   */
  lemma OneNestedTuple(p: Parameter, j: nat)
    requires IsTupleType(p.typ) && p.components.Present?
    requires j < |p.components.items| && IsTupleType(p.components.items[j].typ)
    requires forall i :: 0 <= i < |p.components.items| && i != j ==> !IsTupleType(p.components.items[i].typ)
    requires forall i :: 0 <= i < |p.components.items[j].ComponentsOrEmpty()| ==>
      !IsTupleType(p.components.items[j].ComponentsOrEmpty()[i].typ)
    ensures VisitParameter(p).signatureDeclarations ==
      OwnDeclarations(p).signatureDeclarations + OwnDeclarations(p.components.items[j]).signatureDeclarations
    ensures |VisitParameter(p).signatureDeclarations| == 2
  {
    var items := p.components.items;
    assert VisitParameter(p) == Merge(OwnDeclarations(p), CollectParameters(Empty(), items));
    OnlyNestedTupleChildren(items, j);
    NestedSignatureShorter(items, j);
    MergeOwnDeclarations(p, items[j]);
  }

  /** Two single-signature collections with different signatures merge by concatenation. */
  lemma MergeOwnDeclarations(p: Parameter, q: Parameter)
    requires IsTupleType(p.typ) && IsTupleType(q.typ)
    requires Signature(p.ComponentsOrEmpty()) != Signature(q.ComponentsOrEmpty())
    ensures Merge(OwnDeclarations(p), OwnDeclarations(q)).signatureDeclarations ==
      OwnDeclarations(p).signatureDeclarations + OwnDeclarations(q).signatureDeclarations
  {
    var own, inner := OwnDeclarations(p).signatureDeclarations, OwnDeclarations(q).signatureDeclarations;
    assert UniqueKeys(own + inner) by {
      assert Keys(own + inner) == [Signature(p.ComponentsOrEmpty()), Signature(q.ComponentsOrEmpty())];
    }
    assert MergeCandidates(None, inner[0].1) == inner[0].1 by {
      AppendNewCandidatesOfDistinct([], inner[0].1);
      assert [] + inner[0].1 == inner[0].1;
    }
    UpdateAllFresh(own, inner, MergeCandidates);
  }

  /** The components of such a parameter yield exactly the nested parameter's own candidate. */
  lemma OnlyNestedTupleChildren(items: seq<Parameter>, j: nat)
    requires j < |items| && IsTupleType(items[j].typ)
    requires forall i :: 0 <= i < |items| && i != j ==> !IsTupleType(items[i].typ)
    requires forall i :: 0 <= i < |items[j].ComponentsOrEmpty()| ==> !IsTupleType(items[j].ComponentsOrEmpty()[i].typ)
    ensures CollectParameters(Empty(), items) == OwnDeclarations(items[j])
  {
    var q := items[j];
    CollectAroundOne(items, j);
    FlatTuple(q);
    MergeEmptyLeft(VisitParameter(q));
    CollectElementary(VisitParameter(q), items[j + 1..]);
  }

  /** Only the one struct-shaped parameter among elementary ones matters to the fold. */
  lemma CollectAroundOne(items: seq<Parameter>, j: nat)
    requires j < |items|
    requires forall i :: 0 <= i < |items| && i != j ==> !IsTupleType(items[i].typ)
    ensures CollectParameters(Empty(), items) == CollectParameters(Merge(Empty(), VisitParameter(items[j])), items[j + 1..])
    ensures AllElementary(items[j + 1..])
  {
    SplitAround(items, j);
    CollectParametersConcat(Empty(), items[..j], [items[j]] + items[j + 1..]);
    CollectElementary(Empty(), items[..j]);
    CollectSingleThen(Empty(), items[j], items[j + 1..]);
  }

  lemma SplitAround(items: seq<Parameter>, j: nat)
    requires j < |items|
    requires forall i :: 0 <= i < |items| && i != j ==> !IsTupleType(items[i].typ)
    ensures items == items[..j] + ([items[j]] + items[j + 1..])
    ensures AllElementary(items[..j]) && AllElementary(items[j + 1..])
  {
    var pre, post := items[..j], items[j + 1..];
    assert items == pre + ([items[j]] + post);
    forall i | 0 <= i < |pre| ensures !IsTupleType(pre[i].typ) {
      assert pre[i] == items[i];
    }
    forall i | 0 <= i < |post| ensures !IsTupleType(post[i].typ) {
      assert post[i] == items[j + 1 + i];
    }
  }

  lemma CollectSingleThen(acc: Collected, p: Parameter, ps: seq<Parameter>)
    ensures CollectParameters(acc, [p] + ps) == CollectParameters(Merge(acc, VisitParameter(p)), ps)
  {
    assert ([p] + ps)[0] == p && ([p] + ps)[1..] == ps;
  }

  // ---------------------------------------------------------------------
  // The recursion as written
  // ---------------------------------------------------------------------

  /**
   * `visitParameter` as written: each classified `{name, type}` component is
   * handed back to `visitParameter`, whose `generateType` then calls
   * `startsWith` on a type object and throws. Only a struct without
   * components gets through.
   */
  function VisitParameterAsWritten(p: Parameter): (r: Result<Collected>)
    ensures r.Failure? <==> IsTupleType(p.typ) && p.ComponentsOrEmpty() != []
    ensures r.Success? ==> r.value == VisitParameter(p)
  {
    if !IsTupleType(p.typ) then Success(Empty())
    else if p.ComponentsOrEmpty() != [] then Failure("TypeError: parameterType.startsWith is not a function")
    else
      assert p.components.Present? ==> CollectParameters(Empty(), p.components.items) == Empty();
      MergeEmptyRight(OwnDeclarations(p));
      Success(OwnDeclarations(p))
  }

  /**
   * The discrepancy: any struct with a component throws as written, while
   * the intended walk records its candidate in a well-formed, closed result.
   */
  lemma VisitParameterAsWrittenThrows(p: Parameter)
    requires IsTupleType(p.typ) && p.ComponentsOrEmpty() != []
    ensures VisitParameterAsWritten(p).Failure?
    ensures WellFormed(VisitParameter(p)) && Closed(VisitParameter(p))
    ensures Has(VisitParameter(p).signatureDeclarations, Signature(p.ComponentsOrEmpty()), GenerateType(p).identifier)
  {
  }
}
