/**
 * The first iteration of the collector, packages/abi-to-sol/src/declarations.ts:
 * tuples are named eagerly during the walk (a hint, or else a fresh `S_n`
 * from one counter shared by the whole walk), each signature keeps a single
 * declaration (the last one merged in wins), and container lists are set
 * unions. The counter is the collector's mutable field; here it is threaded
 * explicitly through every visit and returned alongside the result.
 */
module Legacy {
  import opened Common
  import opened AssocList
  import opened Classifier
  import opened TupleSignature
  import VisitorMerge
  import VisitorCollect

  /** A declaration component: the raw fields, plus the key of its own tuple when it has `components`. */
  datatype LegacyComponent = LegacyComponent(
    name: string,
    typ: string,
    internalType: Option<string>,
    signature: Option<string>)

  datatype LegacyDeclaration = LegacyDeclaration(identifier: Identifier, components: seq<LegacyComponent>)

  /** One declaration per signature; container name (`""` for none) to signatures. */
  datatype Declarations = Declarations(
    signatureDeclarations: AList<LegacyDeclaration>,
    containerSignatures: AList<seq<string>>)

  /** `emptyDeclarations()` */
  function EmptyDeclarations(): Declarations {
    Declarations([], [])
  }

  /** `identifier.container || ""` */
  function ContainerOf(id: Identifier): string {
    VisitorMerge.ContainerKey(Some(id))
  }

  // ---------------------------------------------------------------------
  // generateIdentifier / nextAssignedName
  // ---------------------------------------------------------------------

  /**
   * `generateIdentifier` with the counter made explicit: a hint of one or
   * two dot-separated parts names the tuple and leaves the counter alone;
   * anything else takes `S_n` and advances the counter by one.
   */
  function GenerateIdentifier(p: Parameter, n: nat): (r: (Identifier, nat))
    ensures r.1 == n || r.1 == n + 1
    ensures r.1 == n <==> HintParts(p.internalType).Some? && |HintParts(p.internalType).value| <= 2
    ensures r.1 == n ==> Some(r.0) == IdentifierOfParts(HintParts(p.internalType).value, AtMostTwoParts)
    ensures r.1 == n + 1 ==> r.0 == Identifier(SynthesizedName(n), None)
  {
    match HintParts(p.internalType)
    case None => (Identifier(SynthesizedName(n), None), n + 1)
    case Some(parts) =>
      if |parts| == 1 then (Identifier(parts[0], None), n)
      else if |parts| == 2 then (Identifier(parts[1], Some(parts[0])), n)
      else (Identifier(SynthesizedName(n), None), n + 1)
  }

  /** The legacy naming synthesizes exactly when the later classifier `generateType` finds no identifier, and otherwise agrees with it. */
  lemma GenerateIdentifierAgrees(p: Parameter, n: nat)
    requires IsTupleType(p.typ)
    ensures GenerateIdentifier(p, n).1 == n <==> GenerateType(p).identifier.Some?
    ensures GenerateType(p).identifier.Some? ==> GenerateType(p).identifier.value == GenerateIdentifier(p, n).0
  {
    var parts := HintParts(p.internalType);
    if parts.Some? {
      assert |parts.value| >= 1;
    }
  }

  /** Two calls that synthesize, at different counter values, produce different identifiers. */
  lemma SynthesizedIdentifiersDistinct(p: Parameter, n: nat, q: Parameter, m: nat)
    requires GenerateIdentifier(p, n).1 == n + 1 && GenerateIdentifier(q, m).1 == m + 1
    requires n != m
    ensures GenerateIdentifier(p, n).0 != GenerateIdentifier(q, m).0
  {
    SynthesizedNameInjective(n, m);
  }

  // ---------------------------------------------------------------------
  // The declaration of one tuple parameter
  // ---------------------------------------------------------------------

  /** `{name, type, internalType}`, with `signature` exactly when the component has its own `components`. */
  function LegacyComponentOf(c: Parameter): (r: LegacyComponent)
    ensures r.name == c.name && r.typ == c.typ && r.internalType == c.internalType
    ensures r.signature.Some? <==> c.components.Present?
    ensures IsTupleType(c.typ) && c.components.Present? ==> TypeSignature(c) == r.signature.value + c.typ[5..]
  {
    match c.components
    case Absent => LegacyComponent(c.name, c.typ, c.internalType, None)
    case Present(items) => LegacyComponent(c.name, c.typ, c.internalType, Some(Signature(items)))
  }

  function LegacyComponents(cs: seq<Parameter>): (r: seq<LegacyComponent>)
    ensures |r| == |cs| && forall i :: 0 <= i < |cs| ==> r[i] == LegacyComponentOf(cs[i])
  {
    seq(|cs|, i requires 0 <= i < |cs| => LegacyComponentOf(cs[i]))
  }

  /** The single declaration a tuple parameter contributes by itself, registered under its container. */
  function OwnDeclarations(p: Parameter, id: Identifier): (r: Declarations)
    ensures LegacyWellFormed(r)
    ensures Keys(r.signatureDeclarations) == [Signature(p.ComponentsOrEmpty())]
    ensures Get(r.signatureDeclarations, Signature(p.ComponentsOrEmpty())) ==
      Some(LegacyDeclaration(id, LegacyComponents(p.ComponentsOrEmpty())))
  {
    var signature := Signature(p.ComponentsOrEmpty());
    var r := Declarations(
      [(signature, LegacyDeclaration(id, LegacyComponents(p.ComponentsOrEmpty())))],
      [(ContainerOf(id), [signature])]);
    assert forall k :: GetOr(r.containerSignatures, k, []) == if k == ContainerOf(id) then [signature] else [];
    r
  }

  // ---------------------------------------------------------------------
  // mergeDeclarations
  // ---------------------------------------------------------------------

  /** `{...a, ...b}` on one entry: `b`'s value replaces `a`'s. */
  function Replace(existing: Option<LegacyDeclaration>, incoming: LegacyDeclaration): LegacyDeclaration {
    incoming
  }

  /**
   * `mergeDeclarations`: signatures are spread (`b` wins on a shared key,
   * which keeps its place), container lists are set-unioned.
   */
  function MergeDeclarations(a: Declarations, b: Declarations): (r: Declarations)
    ensures Keys(r.signatureDeclarations) == AppendNew(Keys(a.signatureDeclarations), Keys(b.signatureDeclarations))
    ensures Keys(r.containerSignatures) == AppendNew(Keys(a.containerSignatures), Keys(b.containerSignatures))
  {
    KeysUpdateAll(a.signatureDeclarations, b.signatureDeclarations, Replace);
    KeysUpdateAll(a.containerSignatures, b.containerSignatures, VisitorMerge.MergeSignatures);
    Declarations(
      UpdateAll(a.signatureDeclarations, b.signatureDeclarations, Replace),
      UpdateAll(a.containerSignatures, b.containerSignatures, VisitorMerge.MergeSignatures))
  }

  /** Last writer wins: a signature of `b` holds `b`'s declaration, any other keeps `a`'s. */
  lemma MergeLastWriterWins(a: Declarations, b: Declarations, s: string)
    requires UniqueKeys(b.signatureDeclarations)
    ensures Get(MergeDeclarations(a, b).signatureDeclarations, s) ==
      if s in Keys(b.signatureDeclarations) then Get(b.signatureDeclarations, s) else Get(a.signatureDeclarations, s)
  {
    GetUpdateAll(a.signatureDeclarations, b.signatureDeclarations, Replace, s);
  }

  /** A container's list after a merge: `a`'s list, then `b`'s signatures not yet in it. */
  lemma MergeContainerUnion(a: Declarations, b: Declarations, k: string)
    requires UniqueKeys(b.containerSignatures)
    requires Distinct(GetOr(a.containerSignatures, k, []))
    ensures GetOr(MergeDeclarations(a, b).containerSignatures, k, []) ==
      AppendNew(GetOr(a.containerSignatures, k, []), GetOr(b.containerSignatures, k, []))
  {
    var xs, ys := GetOr(a.containerSignatures, k, []), GetOr(b.containerSignatures, k, []);
    GetUpdateAll(a.containerSignatures, b.containerSignatures, VisitorMerge.MergeSignatures, k);
    if k in Keys(b.containerSignatures) {
      VisitorMerge.MergeSignaturesUnion(xs, ys);
    }
  }

  /** A merge adds no signature that neither side has. */
  lemma MergeKeysFrom(a: Declarations, b: Declarations)
    ensures forall s :: s in Keys(MergeDeclarations(a, b).signatureDeclarations) ==>
      s in Keys(a.signatureDeclarations) || s in Keys(b.signatureDeclarations)
  {
  }

  /** Neither side's signatures are lost by a merge. */
  lemma MergeKeepsKeys(a: Declarations, b: Declarations)
    ensures forall s :: s in Keys(a.signatureDeclarations) ==> s in Keys(MergeDeclarations(a, b).signatureDeclarations)
    ensures forall s :: s in Keys(b.signatureDeclarations) ==> s in Keys(MergeDeclarations(a, b).signatureDeclarations)
  {
  }

  /** The invariants every collected `Declarations` value keeps. */
  ghost predicate LegacyWellFormed(d: Declarations) {
    var sd, cs := d.signatureDeclarations, d.containerSignatures;
    && UniqueKeys(sd)
    && UniqueKeys(cs)
    && (forall k :: Distinct(GetOr(cs, k, [])))
    && (forall s :: s in Keys(sd) ==> s in GetOr(cs, ContainerOf(Get(sd, s).value.identifier), []))
    && (forall k, s :: s in GetOr(cs, k, []) ==> s in Keys(sd))
  }

  lemma MergeLegacyWellFormed(a: Declarations, b: Declarations)
    requires LegacyWellFormed(a) && LegacyWellFormed(b)
    ensures LegacyWellFormed(MergeDeclarations(a, b))
  {
    var m := MergeDeclarations(a, b);
    UpdateAllUniqueKeys(a.signatureDeclarations, b.signatureDeclarations, Replace);
    UpdateAllUniqueKeys(a.containerSignatures, b.containerSignatures, VisitorMerge.MergeSignatures);
    forall k ensures Distinct(GetOr(m.containerSignatures, k, [])) {
      MergeContainerUnion(a, b, k);
      AppendNewDistinct(GetOr(a.containerSignatures, k, []), GetOr(b.containerSignatures, k, []));
    }
    forall s | s in Keys(m.signatureDeclarations)
      ensures s in GetOr(m.containerSignatures, ContainerOf(Get(m.signatureDeclarations, s).value.identifier), [])
    {
      MergeLastWriterWins(a, b, s);
      MergeContainerUnion(a, b, ContainerOf(Get(m.signatureDeclarations, s).value.identifier));
    }
    forall k, s | s in GetOr(m.containerSignatures, k, []) ensures s in Keys(m.signatureDeclarations) {
      MergeContainerUnion(a, b, k);
    }
  }

  /** The merge keeps the invariants whenever its left argument has them; `b` always does. */
  lemma MergeLegacyInvariant(a: Declarations, b: Declarations)
    requires LegacyWellFormed(b)
    ensures LegacyWellFormed(a) ==> LegacyWellFormed(MergeDeclarations(a, b))
  {
    if LegacyWellFormed(a) {
      MergeLegacyWellFormed(a, b);
    }
  }

  lemma EmptyLegacyWellFormed()
    ensures LegacyWellFormed(EmptyDeclarations())
  {
  }

  lemma MergeEmptyRightLegacy(a: Declarations)
    ensures MergeDeclarations(a, EmptyDeclarations()) == a
  {
  }

  /** `emptyDeclarations()` is a left identity of the merge on well-formed values. */
  lemma MergeEmptyLeftLegacy(b: Declarations)
    requires LegacyWellFormed(b)
    ensures MergeDeclarations(EmptyDeclarations(), b) == b
  {
    var sd, cs := b.signatureDeclarations, b.containerSignatures;
    assert [] + sd == sd;
    UpdateAllFresh([], sd, Replace);
    VisitorMerge.FreshContainerLists(cs);
  }

  // ---------------------------------------------------------------------
  // The visitor
  // ---------------------------------------------------------------------

  /** How many `S_n` names a walk over `p` hands out: one per tuple without a usable hint. */
  function AnonymousTuples(p: Parameter): nat
    decreases p, 1
  {
    if !IsTupleType(p.typ) then 0
    else
      (if GenerateType(p).identifier.None? then 1 else 0) +
      (if p.components.Present? then AnonymousTuplesIn(p.components.items) else 0)
  }

  function AnonymousTuplesIn(ps: seq<Parameter>): nat
    decreases ps, 0
  {
    if ps == [] then 0 else AnonymousTuples(ps[0]) + AnonymousTuplesIn(ps[1..])
  }

  /**
   * `visitParameter` with the counter threaded: nothing for an elementary
   * parameter; otherwise the identifier is generated first, then the
   * components are visited in order, and the parameter's own declaration is
   * merged with what they yield.
   */
  function VisitParameter(p: Parameter, n: nat): (r: (Declarations, nat))
    ensures LegacyWellFormed(r.0)
    ensures r.1 == n + AnonymousTuples(p)
    ensures !IsTupleType(p.typ) ==> r == (EmptyDeclarations(), n)
    ensures IsTupleType(p.typ) ==> Signature(p.ComponentsOrEmpty()) in Keys(r.0.signatureDeclarations)
    decreases p, 1
  {
    EmptyLegacyWellFormed();
    if !IsTupleType(p.typ) then (EmptyDeclarations(), n)
    else
      var (identifier, next) := GenerateIdentifier(p, n);
      GenerateIdentifierAgrees(p, n);
      var own := OwnDeclarations(p, identifier);
      var children :=
        if p.components.Present? then VisitParameters(EmptyDeclarations(), p.components.items, next)
        else (EmptyDeclarations(), next);
      assert LegacyWellFormed(children.0);
      MergeLegacyWellFormed(own, children.0);
      MergeKeepsKeys(own, children.0);
      (MergeDeclarations(own, children.0), children.1)
  }

  /**
   * `ps.map(visitParameter).reduce(mergeDeclarations, acc)`: the counter
   * runs through the parameters in order; `acc`'s signatures stay, and every
   * tuple parameter's signature is added.
   */
  function VisitParameters(acc: Declarations, ps: seq<Parameter>, n: nat): (r: (Declarations, nat))
    ensures LegacyWellFormed(acc) ==> LegacyWellFormed(r.0)
    ensures r.1 == n + AnonymousTuplesIn(ps)
    ensures forall s :: s in Keys(acc.signatureDeclarations) ==> s in Keys(r.0.signatureDeclarations)
    decreases ps, 0
  {
    if ps == [] then (acc, n)
    else
      var v := VisitParameter(ps[0], n);
      MergeLegacyInvariant(acc, v.0);
      MergeKeepsKeys(acc, v.0);
      VisitParameters(MergeDeclarations(acc, v.0), ps[1..], v.1)
  }

  /** Every tuple parameter of the fold has its signature recorded. */
  lemma {:induction false} VisitParametersRecordsTuples(acc: Declarations, ps: seq<Parameter>, n: nat, i: nat)
    requires i < |ps| && IsTupleType(ps[i].typ)
    ensures Signature(ps[i].ComponentsOrEmpty()) in Keys(VisitParameters(acc, ps, n).0.signatureDeclarations)
    decreases |ps|
  {
    var v := VisitParameter(ps[0], n);
    var m := MergeDeclarations(acc, v.0);
    assert VisitParameters(acc, ps, n) == VisitParameters(m, ps[1..], v.1);
    if i == 0 {
      MergeKeepsKeys(acc, v.0);
    } else {
      assert ps[1..][i - 1] == ps[i];
      VisitParametersRecordsTuples(m, ps[1..], v.1, i - 1);
    }
  }

  /** `visit*Entry`: functions visit inputs, then outputs; fallback and receive give nothing. */
  function VisitEntry(e: Entry, n: nat): (r: (Declarations, nat))
    ensures LegacyWellFormed(r.0)
    ensures e.FallbackEntry? || e.ReceiveEntry? ==> r == (EmptyDeclarations(), n)
    ensures r.1 == n + AnonymousTuplesIn(VisitorCollect.EntryParameters(e))
  {
    EmptyLegacyWellFormed();
    if e.FallbackEntry? || e.ReceiveEntry? then (EmptyDeclarations(), n)
    else VisitParameters(EmptyDeclarations(), VisitorCollect.EntryParameters(e), n)
  }

  /** Every tuple among an entry's inputs and outputs is recorded by its signature. */
  lemma VisitEntryRecordsTuples(e: Entry, n: nat, p: Parameter)
    requires p in VisitorCollect.EntryParameters(e) && IsTupleType(p.typ)
    ensures Signature(p.ComponentsOrEmpty()) in Keys(VisitEntry(e, n).0.signatureDeclarations)
  {
    var ps := VisitorCollect.EntryParameters(e);
    var i :| 0 <= i < |ps| && ps[i] == p;
    assert !e.FallbackEntry? && !e.ReceiveEntry?;
    assert VisitEntry(e, n).0 == VisitParameters(EmptyDeclarations(), ps, n).0;
    VisitParametersRecordsTuples(EmptyDeclarations(), ps, n, i);
  }

  /** How many anonymous tuples the entries' inputs and outputs hold, counted at every depth. */
  function AnonymousTuplesInEntries(es: seq<Entry>): nat {
    if es == [] then 0 else AnonymousTuplesIn(VisitorCollect.EntryParameters(es[0])) + AnonymousTuplesInEntries(es[1..])
  }

  /** `visitAbi`: the entries in order, one counter across all of them. */
  function VisitEntries(acc: Declarations, es: seq<Entry>, n: nat): (r: (Declarations, nat))
    ensures LegacyWellFormed(acc) ==> LegacyWellFormed(r.0)
    ensures r.1 == n + AnonymousTuplesInEntries(es)
    ensures forall s :: s in Keys(acc.signatureDeclarations) ==> s in Keys(r.0.signatureDeclarations)
    decreases |es|
  {
    if es == [] then (acc, n)
    else
      var v := VisitEntry(es[0], n);
      MergeLegacyInvariant(acc, v.0);
      MergeKeepsKeys(acc, v.0);
      VisitEntries(MergeDeclarations(acc, v.0), es[1..], v.1)
  }

  /** Every tuple among the inputs and outputs of every entry is recorded by its signature. */
  lemma {:induction false} VisitEntriesRecordsTuples(acc: Declarations, es: seq<Entry>, n: nat, e: Entry, p: Parameter)
    requires e in es && p in VisitorCollect.EntryParameters(e) && IsTupleType(p.typ)
    ensures Signature(p.ComponentsOrEmpty()) in Keys(VisitEntries(acc, es, n).0.signatureDeclarations)
    decreases |es|
  {
    var v := VisitEntry(es[0], n);
    var m := MergeDeclarations(acc, v.0);
    assert VisitEntries(acc, es, n) == VisitEntries(m, es[1..], v.1);
    if es[0] == e {
      VisitEntryRecordsTuples(e, n, p);
      MergeKeepsKeys(acc, v.0);
    } else {
      assert e in es[1..];
      VisitEntriesRecordsTuples(m, es[1..], v.1, e, p);
    }
  }

  /** The whole ABI, legacy collector: every tuple of every entry is recorded by its signature. */
  lemma CollectLegacyAbiRecordsTuples(es: seq<Entry>, e: Entry, p: Parameter)
    requires e in es && p in VisitorCollect.EntryParameters(e) && IsTupleType(p.typ)
    ensures Signature(p.ComponentsOrEmpty()) in Keys(CollectLegacy(AbiNode(es)).signatureDeclarations)
  {
    VisitEntriesRecordsTuples(EmptyDeclarations(), es, 0, e, p);
  }

  /** `collectDeclarations`: a fresh collector, so the counter starts at 0. */
  function CollectLegacy(node: Node): (r: Declarations)
    ensures LegacyWellFormed(r)
    ensures node.ParameterNode? && IsTupleType(node.parameter.typ) ==>
      Signature(node.parameter.ComponentsOrEmpty()) in Keys(r.signatureDeclarations)
  {
    EmptyLegacyWellFormed();
    match node
    case AbiNode(entries) => VisitEntries(EmptyDeclarations(), entries, 0).0
    case EntryNode(e) => VisitEntry(e, 0).0
    case ParameterNode(p) => VisitParameter(p, 0).0
  }

  // ---------------------------------------------------------------------
  // Naming order: a parent is named before its components
  // ---------------------------------------------------------------------

  /** Every signature a walk over `p` records is no longer than `p`'s own. */
  lemma {:induction false} VisitParameterKeysBounded(p: Parameter, n: nat)
    ensures forall s :: s in Keys(VisitParameter(p, n).0.signatureDeclarations) ==>
      |s| <= |Signature(p.ComponentsOrEmpty())|
    decreases p, 1
  {
    if IsTupleType(p.typ) {
      var identifier, next := GenerateIdentifier(p, n).0, GenerateIdentifier(p, n).1;
      var own := OwnDeclarations(p, identifier);
      var signature := Signature(p.ComponentsOrEmpty());
      var children :=
        if p.components.Present? then VisitParameters(EmptyDeclarations(), p.components.items, next)
        else (EmptyDeclarations(), next);
      var keys := Keys(VisitParameter(p, n).0.signatureDeclarations);
      assert VisitParameter(p, n).0 == MergeDeclarations(own, children.0);
      MergeKeysFrom(own, children.0);
      if p.components.Present? {
        ChildKeysShorter(p, next);
      }
      forall s | s in keys ensures |s| <= |signature| {
        if s != signature {
          assert s in Keys(children.0.signatureDeclarations);
        }
      }
    }
  }

  /** The signatures a tuple's components record are shorter than the tuple's own. */
  lemma {:induction false} ChildKeysShorter(p: Parameter, next: nat)
    requires p.components.Present?
    ensures forall s :: s in Keys(VisitParameters(EmptyDeclarations(), p.components.items, next).0.signatureDeclarations) ==>
      |s| < |Signature(p.components.items)|
    decreases p, 0
  {
    var items := p.components.items;
    VisitParametersKeysBounded(EmptyDeclarations(), items, next);
    forall s | s in Keys(VisitParameters(EmptyDeclarations(), items, next).0.signatureDeclarations)
      ensures |s| < |Signature(items)|
    {
      var i :| 0 <= i < |items| && IsTupleType(items[i].typ) && |s| <= |Signature(items[i].ComponentsOrEmpty())|;
      NestedSignatureShorter(items, i);
    }
  }

  lemma {:induction false} VisitParametersKeysBounded(acc: Declarations, ps: seq<Parameter>, n: nat)
    ensures forall s :: s in Keys(VisitParameters(acc, ps, n).0.signatureDeclarations) ==>
      || s in Keys(acc.signatureDeclarations)
      || exists i :: 0 <= i < |ps| && IsTupleType(ps[i].typ) && |s| <= |Signature(ps[i].ComponentsOrEmpty())|
    decreases ps, 0
  {
    if ps != [] {
      var v := VisitParameter(ps[0], n);
      var m := MergeDeclarations(acc, v.0);
      var r := VisitParameters(m, ps[1..], v.1);
      assert VisitParameters(acc, ps, n) == r;
      VisitParameterKeysBounded(ps[0], n);
      VisitParametersKeysBounded(m, ps[1..], v.1);
      MergeKeysFrom(acc, v.0);
      forall s | s in Keys(r.0.signatureDeclarations)
        ensures || s in Keys(acc.signatureDeclarations)
                || exists i :: 0 <= i < |ps| && IsTupleType(ps[i].typ) && |s| <= |Signature(ps[i].ComponentsOrEmpty())|
      {
        if s in Keys(m.signatureDeclarations) {
          if s !in Keys(acc.signatureDeclarations) {
            assert s in Keys(v.0.signatureDeclarations);
            assert IsTupleType(ps[0].typ);
          }
        } else {
          BoundedInTail(ps, |s|);
        }
      }
    }
  }

  /** A signature bound by a parameter of the tail is bound by one of the whole list. */
  lemma BoundedInTail(ps: seq<Parameter>, len: nat)
    requires ps != []
    requires exists i :: 0 <= i < |ps[1..]| && IsTupleType(ps[1..][i].typ) && len <= |Signature(ps[1..][i].ComponentsOrEmpty())|
    ensures exists i :: 0 <= i < |ps| && IsTupleType(ps[i].typ) && len <= |Signature(ps[i].ComponentsOrEmpty())|
  {
    var i :| 0 <= i < |ps[1..]| && IsTupleType(ps[1..][i].typ) && len <= |Signature(ps[1..][i].ComponentsOrEmpty())|;
    assert ps[1..][i] == ps[i + 1];
  }

  /**
   * A tuple's own declaration is never replaced by one of its components'
   * (their signatures are strictly shorter), so it carries the identifier
   * generated on entry, before any component was visited.
   */
  lemma OwnDeclarationSurvives(p: Parameter, n: nat)
    requires IsTupleType(p.typ)
    ensures Get(VisitParameter(p, n).0.signatureDeclarations, Signature(p.ComponentsOrEmpty())) ==
      Some(LegacyDeclaration(GenerateIdentifier(p, n).0, LegacyComponents(p.ComponentsOrEmpty())))
  {
    var identifier, next := GenerateIdentifier(p, n).0, GenerateIdentifier(p, n).1;
    var own := OwnDeclarations(p, identifier);
    var signature := Signature(p.ComponentsOrEmpty());
    EmptyLegacyWellFormed();
    var children :=
      if p.components.Present? then VisitParameters(EmptyDeclarations(), p.components.items, next)
      else (EmptyDeclarations(), next);
    assert VisitParameter(p, n).0 == MergeDeclarations(own, children.0);
    if p.components.Present? {
      var items := p.components.items;
      VisitParametersKeysBounded(EmptyDeclarations(), items, next);
      if signature in Keys(children.0.signatureDeclarations) {
        var i :| 0 <= i < |items| && IsTupleType(items[i].typ) && |signature| <= |Signature(items[i].ComponentsOrEmpty())|;
        NestedSignatureShorter(items, i);
        assert false;
      }
    }
    MergeLastWriterWins(own, children.0, signature);
  }

  /** Two anonymous tuples visited one after the other are declared under different names, whatever their shapes. */
  lemma SiblingNamesDistinct(p: Parameter, q: Parameter, n: nat)
    requires IsTupleType(p.typ) && IsTupleType(q.typ)
    requires GenerateType(p).identifier.None? && GenerateType(q).identifier.None?
    ensures var m := VisitParameter(p, n).1;
      Get(VisitParameter(p, n).0.signatureDeclarations, Signature(p.ComponentsOrEmpty())) !=
      Get(VisitParameter(q, m).0.signatureDeclarations, Signature(q.ComponentsOrEmpty()))
  {
    var m := VisitParameter(p, n).1;
    OwnDeclarationSurvives(p, n);
    OwnDeclarationSurvives(q, m);
    GenerateIdentifierAgrees(p, n);
    GenerateIdentifierAgrees(q, m);
    SynthesizedIdentifiersDistinct(p, n, q, m);
  }

  // ---------------------------------------------------------------------
  // No dangling component signatures
  // ---------------------------------------------------------------------

  /** Every component signature names a recorded declaration. */
  ghost predicate LegacyClosed(d: Declarations) {
    forall s, c ::
      (s in Keys(d.signatureDeclarations) && c in Get(d.signatureDeclarations, s).value.components && c.signature.Some?)
      ==> c.signature.value in Keys(d.signatureDeclarations)
  }

  /** ABI JSON as the compiler writes it: only tuple types carry `components`. */
  predicate WellTyped(p: Parameter)
    decreases p
  {
    p.components.Present? ==>
      IsTupleType(p.typ) && forall i :: 0 <= i < |p.components.items| ==> WellTyped(p.components.items[i])
  }

  predicate AllWellTyped(ps: seq<Parameter>) {
    forall i :: 0 <= i < |ps| ==> WellTyped(ps[i])
  }

  lemma MergeLegacyClosed(a: Declarations, b: Declarations)
    requires UniqueKeys(b.signatureDeclarations)
    requires LegacyClosed(a) && LegacyClosed(b)
    ensures LegacyClosed(MergeDeclarations(a, b))
  {
    var m := MergeDeclarations(a, b);
    forall s, c | s in Keys(m.signatureDeclarations) && c in Get(m.signatureDeclarations, s).value.components &&
      c.signature.Some?
      ensures c.signature.value in Keys(m.signatureDeclarations)
    {
      MergeLastWriterWins(a, b, s);
    }
  }

  /** A tuple's own declaration only refers to signatures its components' visits record. */
  lemma OwnDeclarationsClosedIn(p: Parameter, id: Identifier, target: Declarations, s: string, c: LegacyComponent)
    requires IsTupleType(p.typ) && WellTyped(p)
    requires forall i :: 0 <= i < |p.ComponentsOrEmpty()| && IsTupleType(p.ComponentsOrEmpty()[i].typ) ==>
      Signature(p.ComponentsOrEmpty()[i].ComponentsOrEmpty()) in Keys(target.signatureDeclarations)
    requires s in Keys(OwnDeclarations(p, id).signatureDeclarations)
    requires c in Get(OwnDeclarations(p, id).signatureDeclarations, s).value.components && c.signature.Some?
    ensures c.signature.value in Keys(target.signatureDeclarations)
  {
    var items := p.ComponentsOrEmpty();
    assert s == Signature(items);
    var i :| 0 <= i < |items| && LegacyComponents(items)[i] == c;
    assert WellTyped(items[i]);
  }

  /** The walk over a tuple's components records every tuple component's signature. */
  lemma ChildrenRecordTuples(p: Parameter, next: nat)
    ensures var children :=
        if p.components.Present? then VisitParameters(EmptyDeclarations(), p.components.items, next)
        else (EmptyDeclarations(), next);
      forall i :: 0 <= i < |p.ComponentsOrEmpty()| && IsTupleType(p.ComponentsOrEmpty()[i].typ) ==>
        Signature(p.ComponentsOrEmpty()[i].ComponentsOrEmpty()) in Keys(children.0.signatureDeclarations)
  {
    if p.components.Present? {
      var items := p.components.items;
      forall i | 0 <= i < |items| && IsTupleType(items[i].typ)
        ensures Signature(items[i].ComponentsOrEmpty()) in Keys(VisitParameters(EmptyDeclarations(), items, next).0.signatureDeclarations)
      {
        VisitParametersRecordsTuples(EmptyDeclarations(), items, next, i);
      }
    }
  }

  /** On well-typed input, a parameter's walk leaves no component signature dangling. */
  lemma {:induction false} VisitParameterClosed(p: Parameter, n: nat)
    requires WellTyped(p)
    ensures LegacyClosed(VisitParameter(p, n).0)
    decreases p, 1
  {
    if IsTupleType(p.typ) {
      var identifier, next := GenerateIdentifier(p, n).0, GenerateIdentifier(p, n).1;
      var own := OwnDeclarations(p, identifier);
      EmptyLegacyWellFormed();
      var children :=
        if p.components.Present? then VisitParameters(EmptyDeclarations(), p.components.items, next)
        else (EmptyDeclarations(), next);
      var m := MergeDeclarations(own, children.0);
      assert VisitParameter(p, n).0 == m;
      if p.components.Present? {
        VisitParametersClosed(EmptyDeclarations(), p.components.items, next);
      }
      ChildrenRecordTuples(p, next);
      forall s, c | s in Keys(m.signatureDeclarations) && c in Get(m.signatureDeclarations, s).value.components &&
        c.signature.Some?
        ensures c.signature.value in Keys(m.signatureDeclarations)
      {
        MergeLastWriterWins(own, children.0, s);
        if s !in Keys(children.0.signatureDeclarations) {
          OwnDeclarationsClosedIn(p, identifier, children.0, s, c);
        }
      }
    }
  }

  lemma {:induction false} VisitParametersClosed(acc: Declarations, ps: seq<Parameter>, n: nat)
    requires LegacyClosed(acc) && AllWellTyped(ps)
    ensures LegacyClosed(VisitParameters(acc, ps, n).0)
    decreases ps, 0
  {
    if ps != [] {
      var v := VisitParameter(ps[0], n);
      VisitParameterClosed(ps[0], n);
      MergeLegacyClosed(acc, v.0);
      assert AllWellTyped(ps[1..]) by {
        forall i | 0 <= i < |ps[1..]| ensures WellTyped(ps[1..][i]) {
          assert ps[1..][i] == ps[i + 1];
        }
      }
      VisitParametersClosed(MergeDeclarations(acc, v.0), ps[1..], v.1);
    }
  }

  /** `collectDeclarations` on a well-typed parameter leaves no component signature dangling. */
  lemma CollectLegacyParameterClosed(p: Parameter)
    requires WellTyped(p)
    ensures LegacyClosed(CollectLegacy(ParameterNode(p)))
  {
    VisitParameterClosed(p, 0);
  }

  /** `collectDeclarations` on a well-typed entry leaves no component signature dangling. */
  lemma CollectLegacyEntryClosed(e: Entry)
    requires AllWellTyped(VisitorCollect.EntryParameters(e))
    ensures LegacyClosed(CollectLegacy(EntryNode(e)))
  {
    var ps := VisitorCollect.EntryParameters(e);
    VisitParametersClosed(EmptyDeclarations(), ps, 0);
    assert CollectLegacy(EntryNode(e)) == VisitEntry(e, 0).0;
    if !e.FallbackEntry? && !e.ReceiveEntry? {
      assert VisitEntry(e, 0).0 == VisitParameters(EmptyDeclarations(), ps, 0).0;
    }
  }

  // ---------------------------------------------------------------------
  // Order of the walk, and what particular inputs give
  // ---------------------------------------------------------------------

  /** Folding a concatenation is folding one part after the other, the counter carried across. */
  lemma {:induction false} VisitParametersConcat(acc: Declarations, xs: seq<Parameter>, ys: seq<Parameter>, n: nat)
    ensures VisitParameters(acc, xs + ys, n) ==
      VisitParameters(VisitParameters(acc, xs, n).0, ys, VisitParameters(acc, xs, n).1)
    decreases |xs|
  {
    if xs == [] {
      assert xs + ys == ys;
    } else {
      var v := VisitParameter(xs[0], n);
      var m := MergeDeclarations(acc, v.0);
      assert (xs + ys)[0] == xs[0];
      assert (xs + ys)[1..] == xs[1..] + ys;
      assert VisitParameters(acc, xs + ys, n) == VisitParameters(m, xs[1..] + ys, v.1);
      assert VisitParameters(acc, xs, n) == VisitParameters(m, xs[1..], v.1);
      VisitParametersConcat(m, xs[1..], ys, v.1);
    }
  }

  /** A function entry is walked through its inputs first, then its outputs, with one counter. */
  lemma LegacyFunctionInputsThenOutputs(inputs: seq<Parameter>, outputs: Option<seq<Parameter>>, n: nat)
    ensures var afterInputs := VisitParameters(EmptyDeclarations(), inputs, n);
      VisitEntry(FunctionEntry(inputs, outputs), n) == VisitParameters(afterInputs.0, outputs.GetOr([]), afterInputs.1)
  {
    VisitParametersConcat(EmptyDeclarations(), inputs, outputs.GetOr([]), n);
  }

  /** Elementary parameters contribute nothing and take no name. */
  lemma {:induction false} VisitElementary(acc: Declarations, ps: seq<Parameter>, n: nat)
    requires VisitorCollect.AllElementary(ps)
    ensures VisitParameters(acc, ps, n) == (acc, n)
    decreases |ps|
  {
    if ps != [] {
      MergeEmptyRightLegacy(acc);
      VisitElementary(acc, ps[1..], n);
    }
  }

  /** An anonymous tuple of elementary components is declared alone, as `S_n`. */
  lemma FlatAnonymousTuple(p: Parameter, n: nat)
    requires IsTupleType(p.typ) && GenerateType(p).identifier.None?
    requires VisitorCollect.AllElementary(p.ComponentsOrEmpty())
    ensures VisitParameter(p, n) == (OwnDeclarations(p, Identifier(SynthesizedName(n), None)), n + 1)
  {
    GenerateIdentifierAgrees(p, n);
    if p.components.Present? {
      VisitElementary(EmptyDeclarations(), p.components.items, n + 1);
    }
    MergeEmptyRightLegacy(OwnDeclarations(p, Identifier(SynthesizedName(n), None)));
  }

  /** Merging two single-signature values with the same key and container keeps the second declaration. */
  lemma MergeSameSignature(s: string, k: string, d0: LegacyDeclaration, d1: LegacyDeclaration)
    ensures MergeDeclarations(Declarations([(s, d0)], [(k, [s])]), Declarations([(s, d1)], [(k, [s])])) ==
      Declarations([(s, d1)], [(k, [s])])
  {
    UpdateAllSingle(s, d0, d1, Replace);
    UpdateAllSingle(k, [s], [s], VisitorMerge.MergeSignatures);
    VisitorMerge.MergeSameSignatures(s);
  }

  /**
   * Two anonymous tuples of the same flat shape, one after the other: both
   * are named (`S_n`, then `S_(n+1)`), but the second declaration replaces
   * the first under their common signature.
   */
  lemma SameShapeTwice(p: Parameter, n: nat)
    requires IsTupleType(p.typ) && GenerateType(p).identifier.None?
    requires VisitorCollect.AllElementary(p.ComponentsOrEmpty())
    ensures var signature := Signature(p.ComponentsOrEmpty());
      VisitParameters(EmptyDeclarations(), [p, p], n) ==
      (Declarations(
        [(signature, LegacyDeclaration(Identifier(SynthesizedName(n + 1), None), LegacyComponents(p.ComponentsOrEmpty())))],
        [("", [signature])]),
       n + 2)
  {
    var signature := Signature(p.ComponentsOrEmpty());
    var d0 := LegacyDeclaration(Identifier(SynthesizedName(n), None), LegacyComponents(p.ComponentsOrEmpty()));
    var d1 := LegacyDeclaration(Identifier(SynthesizedName(n + 1), None), LegacyComponents(p.ComponentsOrEmpty()));
    var first := OwnDeclarations(p, d0.identifier);
    var second := OwnDeclarations(p, d1.identifier);
    assert first == Declarations([(signature, d0)], [("", [signature])]);
    assert second == Declarations([(signature, d1)], [("", [signature])]);
    FlatAnonymousTuple(p, n);
    FlatAnonymousTuple(p, n + 1);
    MergeEmptyLeftLegacy(first);
    MergeSameSignature(signature, "", d0, d1);
    assert [p, p][1..] == [p];
    assert VisitParameters(EmptyDeclarations(), [p, p], n) == VisitParameters(first, [p], n + 1);
    assert VisitParameters(first, [p], n + 1) == (MergeDeclarations(first, second), n + 2);
  }
}
