/**
 * The collected-candidates structure of
 * packages/abi-to-sol/src/declarations/visitor.ts and its merge
 * (`mergeDeclarations`, `emptyDeclarations`), with the invariants every
 * collected value keeps.
 *
 * The source file is in the middle of a refactoring; this module models its
 * evident intent. Each place where the text as written does something else
 * is marked with a DEVIATION comment; `MergeAsWritten` keeps the text's own
 * behaviour for comparison.
 */
module VisitorMerge {
  import opened Common
  import opened AssocList
  import opened Classifier
  import opened TupleSignature

  /** A struct component: its name and its classified type. */
  datatype Component = Component(name: string, typ: Type)

  /** A struct declaration that may still lack its identifier. */
  datatype Candidate = Candidate(identifier: Option<Identifier>, components: seq<Component>)

  /** Candidates by signature, and signatures by container name. */
  datatype Collected = Collected(
    signatureDeclarations: AList<seq<Candidate>>,
    containerSignatures: AList<seq<string>>)

  /** `emptyDeclarations()` */
  function Empty(): Collected {
    Collected([], [])
  }

  /** `identifier?.container || ""`: where a candidate's signature is registered. */
  function ContainerKey(identifier: Option<Identifier>): string {
    if identifier.Some? && identifier.value.container.Some? then identifier.value.container.value else ""
  }

  predicate HasIdentifier(candidates: seq<Candidate>, identifier: Option<Identifier>) {
    exists e :: e in candidates && e.identifier == identifier
  }

  predicate DistinctIdentifiers(candidates: seq<Candidate>) {
    forall i, j :: 0 <= i < j < |candidates| ==> candidates[i].identifier != candidates[j].identifier
  }

  /**
   * The inner loop of `mergeDeclarations`: each incoming candidate is pushed
   * unless one with an equal identifier is already there (both absent counts
   * as equal).
   * DEVIATION: as written, `find` destructures `identifier` of every listed
   * candidate and so throws on anonymous ones; identifiers are compared here
   * as optional values instead.
   */
  function AppendNewCandidates(existing: seq<Candidate>, incoming: seq<Candidate>): (r: seq<Candidate>)
    ensures |existing| <= |r| && r[..|existing|] == existing
    ensures forall x :: x in r ==> x in existing || x in incoming
    ensures forall x :: x in incoming ==> HasIdentifier(r, x.identifier)
    decreases |incoming|
  {
    if incoming == [] then existing
    else if HasIdentifier(existing, incoming[0].identifier) then
      var r := AppendNewCandidates(existing, incoming[1..]);
      assert forall e :: e in existing ==> e in r;
      r
    else
      var r := AppendNewCandidates(existing + [incoming[0]], incoming[1..]);
      assert forall e :: e in existing + [incoming[0]] ==> e in r;
      r
  }

  function MergeCandidates(existing: Option<seq<Candidate>>, incoming: seq<Candidate>): seq<Candidate> {
    AppendNewCandidates(existing.GetOr([]), incoming)
  }

  /** `[...new Set([...(existing || []), ...incoming])]` */
  function MergeSignatures(existing: Option<seq<string>>, incoming: seq<string>): seq<string> {
    Dedup(existing.GetOr([]) + incoming)
  }

  /**
   * `mergeDeclarations(a, b)`.
   * DEVIATION: as written, the merged candidate list is computed but never
   * stored back, so `b`'s candidates are lost; it is stored here.
   */
  function Merge(a: Collected, b: Collected): Collected {
    Collected(
      UpdateAll(a.signatureDeclarations, b.signatureDeclarations, MergeCandidates),
      UpdateAll(a.containerSignatures, b.containerSignatures, MergeSignatures))
  }

  // ---------------------------------------------------------------------
  // Invariants of collected values
  // ---------------------------------------------------------------------

  /** `identifier` is among the candidates recorded under `signature`. */
  predicate Has(sd: AList<seq<Candidate>>, signature: string, identifier: Option<Identifier>) {
    HasIdentifier(GetOr(sd, signature, []), identifier)
  }

  /** A struct component can be resolved: a candidate with its identifier (or lack of one) sits under its signature. */
  predicate Resolves(sd: AList<seq<Candidate>>, c: Component) {
    c.typ.Struct? ==> Has(sd, Signature(c.typ.components), c.typ.identifier)
  }

  /** Every component of every candidate in `sd` resolves in `target`. */
  ghost predicate ResolvesIn(sd: AList<seq<Candidate>>, target: AList<seq<Candidate>>) {
    forall s, x, c :: x in GetOr(sd, s, []) && c in x.components ==> Resolves(target, c)
  }

  /** No dangling references: every struct component resolves in the same collection. */
  ghost predicate Closed(c: Collected) {
    ResolvesIn(c.signatureDeclarations, c.signatureDeclarations)
  }

  /** Whatever `small` records, `big` records too. */
  ghost predicate Extends(big: AList<seq<Candidate>>, small: AList<seq<Candidate>>) {
    forall s, id :: Has(small, s, id) ==> Has(big, s, id)
  }

  ghost predicate WellFormed(c: Collected) {
    && UniqueKeys(c.signatureDeclarations)
    && UniqueKeys(c.containerSignatures)
    // every signature key holds at least one candidate, no two with equal identifiers
    && (forall s :: s in Keys(c.signatureDeclarations) ==> GetOr(c.signatureDeclarations, s, []) != [])
    && (forall s :: DistinctIdentifiers(GetOr(c.signatureDeclarations, s, [])))
    // container lists are sets
    && (forall k :: Distinct(GetOr(c.containerSignatures, k, [])))
    // every candidate's signature is registered under its container
    && (forall s, x :: x in GetOr(c.signatureDeclarations, s, []) ==>
          s in GetOr(c.containerSignatures, ContainerKey(x.identifier), []))
    // container lists only name recorded signatures
    && (forall k, s :: s in GetOr(c.containerSignatures, k, []) ==> s in Keys(c.signatureDeclarations))
    && ContainersWitnessed(c)
  }

  /** Every container key was registered by a candidate that lives in that container. */
  ghost predicate ContainersWitnessed(c: Collected) {
    && (forall k :: k in Keys(c.containerSignatures) ==> GetOr(c.containerSignatures, k, []) != [])
    && (forall k, s :: s in GetOr(c.containerSignatures, k, []) ==>
          exists id :: Has(c.signatureDeclarations, s, id) && ContainerKey(id) == k)
  }

  // ---------------------------------------------------------------------
  // Laws of the candidate-list merge
  // ---------------------------------------------------------------------

  lemma {:induction false} AppendNewCandidatesDistinct(existing: seq<Candidate>, incoming: seq<Candidate>)
    requires DistinctIdentifiers(existing)
    ensures DistinctIdentifiers(AppendNewCandidates(existing, incoming))
    decreases |incoming|
  {
    if incoming != [] {
      if HasIdentifier(existing, incoming[0].identifier) {
        AppendNewCandidatesDistinct(existing, incoming[1..]);
      } else {
        var e' := existing + [incoming[0]];
        assert DistinctIdentifiers(e') by {
          forall i, j | 0 <= i < j < |e'| ensures e'[i].identifier != e'[j].identifier {
            if j == |existing| {
              assert existing[i] in existing;
            }
          }
        }
        AppendNewCandidatesDistinct(e', incoming[1..]);
      }
    }
  }

  /** When no identifier repeats, the merge is plain concatenation. */
  lemma {:induction false} AppendNewCandidatesOfDistinct(existing: seq<Candidate>, incoming: seq<Candidate>)
    requires DistinctIdentifiers(existing + incoming)
    ensures AppendNewCandidates(existing, incoming) == existing + incoming
    decreases |incoming|
  {
    if incoming != [] {
      var all := existing + incoming;
      assert !HasIdentifier(existing, incoming[0].identifier) by {
        forall e | e in existing ensures e.identifier != incoming[0].identifier {
          var i :| 0 <= i < |existing| && existing[i] == e;
          assert all[i] == e && all[|existing|] == incoming[0];
        }
      }
      assert existing + [incoming[0]] + incoming[1..] == all;
      AppendNewCandidatesOfDistinct(existing + [incoming[0]], incoming[1..]);
    }
  }

  // ---------------------------------------------------------------------
  // Laws of Merge
  // ---------------------------------------------------------------------

  /** Looking up a signature after a merge. */
  lemma MergeLookup(a: Collected, b: Collected, s: string)
    requires UniqueKeys(b.signatureDeclarations)
    ensures GetOr(Merge(a, b).signatureDeclarations, s, []) ==
      if s in Keys(b.signatureDeclarations)
      then AppendNewCandidates(GetOr(a.signatureDeclarations, s, []), GetOr(b.signatureDeclarations, s, []))
      else GetOr(a.signatureDeclarations, s, [])
  {
    GetUpdateAll(a.signatureDeclarations, b.signatureDeclarations, MergeCandidates, s);
  }

  /** Looking up a container after a merge: the set union of both lists, `a`'s order first. */
  lemma MergeContainerLookup(a: Collected, b: Collected, k: string)
    requires UniqueKeys(b.containerSignatures)
    ensures GetOr(Merge(a, b).containerSignatures, k, []) ==
      if k in Keys(b.containerSignatures)
      then Dedup(GetOr(a.containerSignatures, k, []) + GetOr(b.containerSignatures, k, []))
      else GetOr(a.containerSignatures, k, [])
  {
    GetUpdateAll(a.containerSignatures, b.containerSignatures, MergeSignatures, k);
  }

  /** Key order after a merge: `a`'s signatures, then `b`'s new ones. */
  lemma MergeKeys(a: Collected, b: Collected)
    ensures Keys(Merge(a, b).signatureDeclarations) ==
      AppendNew(Keys(a.signatureDeclarations), Keys(b.signatureDeclarations))
    ensures Keys(Merge(a, b).containerSignatures) ==
      AppendNew(Keys(a.containerSignatures), Keys(b.containerSignatures))
  {
    KeysUpdateAll(a.signatureDeclarations, b.signatureDeclarations, MergeCandidates);
    KeysUpdateAll(a.containerSignatures, b.containerSignatures, MergeSignatures);
  }

  /**
   * The intended merge law: `b`'s candidate is kept unless one with an equal
   * identifier is already under its signature, and nothing of `a` is lost.
   */
  lemma MergeKeepsEverything(a: Collected, b: Collected)
    requires UniqueKeys(b.signatureDeclarations)
    ensures Extends(Merge(a, b).signatureDeclarations, a.signatureDeclarations)
    ensures Extends(Merge(a, b).signatureDeclarations, b.signatureDeclarations)
    ensures forall s, x :: x in GetOr(Merge(a, b).signatureDeclarations, s, []) ==>
      x in GetOr(a.signatureDeclarations, s, []) || x in GetOr(b.signatureDeclarations, s, [])
  {
    var m := Merge(a, b).signatureDeclarations;
    forall s, id | Has(a.signatureDeclarations, s, id) ensures Has(m, s, id) {
      MergeLookup(a, b, s);
      var e :| e in GetOr(a.signatureDeclarations, s, []) && e.identifier == id;
      var i :| 0 <= i < |GetOr(a.signatureDeclarations, s, [])| && GetOr(a.signatureDeclarations, s, [])[i] == e;
      assert GetOr(m, s, [])[i] == e;
    }
    forall s, id | Has(b.signatureDeclarations, s, id) ensures Has(m, s, id) {
      MergeLookup(a, b, s);
      var e :| e in GetOr(b.signatureDeclarations, s, []) && e.identifier == id;
    }
    forall s, x | x in GetOr(m, s, [])
      ensures x in GetOr(a.signatureDeclarations, s, []) || x in GetOr(b.signatureDeclarations, s, [])
    {
      MergeLookup(a, b, s);
    }
  }

  lemma ExtendsTransitive(a: AList<seq<Candidate>>, b: AList<seq<Candidate>>, c: AList<seq<Candidate>>)
    requires Extends(a, b) && Extends(b, c)
    ensures Extends(a, c)
  {
  }

  lemma ExtendsResolves(big: AList<seq<Candidate>>, small: AList<seq<Candidate>>, sd: AList<seq<Candidate>>)
    requires Extends(big, small) && ResolvesIn(sd, small)
    ensures ResolvesIn(sd, big)
  {
    forall s, x, c | x in GetOr(sd, s, []) && c in x.components ensures Resolves(big, c) {
      assert Resolves(small, c);
      if c.typ.Struct? {
        assert Has(small, Signature(c.typ.components), c.typ.identifier);
      }
    }
  }

  /** Merging two collections whose references resolve in the result gives a closed collection. */
  lemma MergeClosed(a: Collected, b: Collected)
    requires UniqueKeys(b.signatureDeclarations)
    requires ResolvesIn(a.signatureDeclarations, Merge(a, b).signatureDeclarations)
    requires ResolvesIn(b.signatureDeclarations, Merge(a, b).signatureDeclarations)
    ensures Closed(Merge(a, b))
  {
    MergeKeepsEverything(a, b);
  }

  /** Merging closed collections keeps them closed. */
  lemma MergeClosedOfClosed(a: Collected, b: Collected)
    requires UniqueKeys(b.signatureDeclarations)
    requires Closed(a) && Closed(b)
    ensures Closed(Merge(a, b))
  {
    MergeKeepsEverything(a, b);
    ExtendsResolves(Merge(a, b).signatureDeclarations, a.signatureDeclarations, a.signatureDeclarations);
    ExtendsResolves(Merge(a, b).signatureDeclarations, b.signatureDeclarations, b.signatureDeclarations);
    MergeClosed(a, b);
  }

  lemma MergeWellFormed(a: Collected, b: Collected)
    requires WellFormed(a) && WellFormed(b)
    ensures WellFormed(Merge(a, b))
  {
    var m := Merge(a, b);
    UpdateAllUniqueKeys(a.signatureDeclarations, b.signatureDeclarations, MergeCandidates);
    UpdateAllUniqueKeys(a.containerSignatures, b.containerSignatures, MergeSignatures);
    MergeKeys(a, b);
    MergeKeepsEverything(a, b);
    forall s | s in Keys(m.signatureDeclarations)
      ensures GetOr(m.signatureDeclarations, s, []) != []
      ensures DistinctIdentifiers(GetOr(m.signatureDeclarations, s, []))
    {
      MergeLookup(a, b, s);
      if s in Keys(b.signatureDeclarations) {
        AppendNewCandidatesDistinct(GetOr(a.signatureDeclarations, s, []), GetOr(b.signatureDeclarations, s, []));
        assert GetOr(b.signatureDeclarations, s, [])[0] in GetOr(b.signatureDeclarations, s, []);
      }
    }
    forall s ensures DistinctIdentifiers(GetOr(m.signatureDeclarations, s, [])) {
      if s !in Keys(m.signatureDeclarations) {
        assert GetOr(m.signatureDeclarations, s, []) == [];
      }
    }
    forall k ensures Distinct(GetOr(m.containerSignatures, k, [])) {
      MergeContainerLookup(a, b, k);
      if k in Keys(b.containerSignatures) {
        AppendNewDistinct([], GetOr(a.containerSignatures, k, []) + GetOr(b.containerSignatures, k, []));
      }
    }
    forall s, x | x in GetOr(m.signatureDeclarations, s, [])
      ensures s in GetOr(m.containerSignatures, ContainerKey(x.identifier), [])
    {
      MergeContainerLookup(a, b, ContainerKey(x.identifier));
      if x in GetOr(b.signatureDeclarations, s, []) {
        assert s in GetOr(b.containerSignatures, ContainerKey(x.identifier), []);
        assert ContainerKey(x.identifier) in Keys(b.containerSignatures);
      }
    }
    forall k, s | s in GetOr(m.containerSignatures, k, []) ensures s in Keys(m.signatureDeclarations) {
      MergeContainerLookup(a, b, k);
    }
    MergeContainersWitnessed(a, b);
  }

  /** A container key of the merge still holds at least one signature. */
  lemma MergeContainerNonEmpty(a: Collected, b: Collected, k: string)
    requires UniqueKeys(b.containerSignatures)
    requires ContainersWitnessed(a) && ContainersWitnessed(b)
    requires k in Keys(Merge(a, b).containerSignatures)
    ensures GetOr(Merge(a, b).containerSignatures, k, []) != []
  {
    MergeKeys(a, b);
    MergeContainerLookup(a, b, k);
    if k in Keys(b.containerSignatures) {
      var l := GetOr(b.containerSignatures, k, []);
      assert l[0] in l;
    } else {
      assert k in Keys(a.containerSignatures);
    }
  }

  /** A signature listed under a container of the merge has a candidate in that container. */
  lemma MergeContainerWitness(a: Collected, b: Collected, k: string, s: string)
    requires UniqueKeys(b.signatureDeclarations) && UniqueKeys(b.containerSignatures)
    requires ContainersWitnessed(a) && ContainersWitnessed(b)
    requires s in GetOr(Merge(a, b).containerSignatures, k, [])
    ensures exists id :: Has(Merge(a, b).signatureDeclarations, s, id) && ContainerKey(id) == k
  {
    var m := Merge(a, b);
    MergeKeepsEverything(a, b);
    MergeContainerLookup(a, b, k);
    if s in GetOr(a.containerSignatures, k, []) {
      var id :| Has(a.signatureDeclarations, s, id) && ContainerKey(id) == k;
      assert Has(m.signatureDeclarations, s, id);
    } else {
      var id :| Has(b.signatureDeclarations, s, id) && ContainerKey(id) == k;
      assert Has(m.signatureDeclarations, s, id);
    }
  }

  lemma MergeContainersWitnessed(a: Collected, b: Collected)
    requires UniqueKeys(b.signatureDeclarations) && UniqueKeys(b.containerSignatures)
    requires ContainersWitnessed(a) && ContainersWitnessed(b)
    ensures ContainersWitnessed(Merge(a, b))
  {
    var m := Merge(a, b);
    forall k | k in Keys(m.containerSignatures) ensures GetOr(m.containerSignatures, k, []) != [] {
      MergeContainerNonEmpty(a, b, k);
    }
    forall k, s | s in GetOr(m.containerSignatures, k, [])
      ensures exists id :: Has(m.signatureDeclarations, s, id) && ContainerKey(id) == k
    {
      MergeContainerWitness(a, b, k, s);
    }
  }

  /** Merging a well-formed, closed value into one keeps both properties. */
  lemma MergeInvariant(a: Collected, b: Collected)
    requires WellFormed(b) && Closed(b)
    ensures WellFormed(a) && Closed(a) ==> WellFormed(Merge(a, b)) && Closed(Merge(a, b))
  {
    if WellFormed(a) && Closed(a) {
      MergeWellFormed(a, b);
      MergeClosedOfClosed(a, b);
    }
  }

  /** `emptyDeclarations()` is a right identity of the merge. */
  lemma MergeEmptyRight(a: Collected)
    ensures Merge(a, Empty()) == a
  {
  }

  /** `emptyDeclarations()` is a left identity of the merge on well-formed values. */
  lemma MergeEmptyLeft(b: Collected)
    requires WellFormed(b)
    ensures Merge(Empty(), b) == b
  {
    MergeEmptyLeftSignatures(b);
    MergeEmptyLeftContainers(b);
  }

  lemma MergeEmptyLeftSignatures(b: Collected)
    requires WellFormed(b)
    ensures Merge(Empty(), b).signatureDeclarations == b.signatureDeclarations
  {
    var sd := b.signatureDeclarations;
    forall i | 0 <= i < |sd| ensures MergeCandidates(None, sd[i].1) == sd[i].1 {
      GetOfEntry(sd, i);
      assert DistinctIdentifiers(GetOr(sd, sd[i].0, []));
      assert [] + sd[i].1 == sd[i].1;
      AppendNewCandidatesOfDistinct([], sd[i].1);
    }
    assert [] + sd == sd;
    UpdateAllFresh([], sd, MergeCandidates);
  }

  lemma MergeEmptyLeftContainers(b: Collected)
    requires WellFormed(b)
    ensures Merge(Empty(), b).containerSignatures == b.containerSignatures
  {
    FreshContainerLists(b.containerSignatures);
  }

  /** Container lists without repeats, folded into nothing, come out as they went in. */
  lemma FreshContainerLists(cs: AList<seq<string>>)
    requires UniqueKeys(cs)
    requires forall k :: Distinct(GetOr(cs, k, []))
    ensures UpdateAll([], cs, MergeSignatures) == cs
  {
    forall i | 0 <= i < |cs| ensures MergeSignatures(None, cs[i].1) == cs[i].1 {
      GetOfEntry(cs, i);
      assert Distinct(GetOr(cs, cs[i].0, []));
      FreshSignatures(cs[i].1);
    }
    assert [] + cs == cs;
    UpdateAllFresh([], cs, MergeSignatures);
  }

  /** Merging into a list without repeats appends the incoming signatures it lacks. */
  lemma MergeSignaturesUnion(xs: seq<string>, ys: seq<string>)
    requires Distinct(xs)
    ensures MergeSignatures(Some(xs), ys) == AppendNew(xs, ys)
  {
    AppendNewConcat([], xs, ys);
    assert [] + xs == xs;
    AppendNewOfDistinct([], xs);
  }

  /** A duplicate-free signature list is kept as it is by the union with nothing. */
  lemma FreshSignatures(signatures: seq<string>)
    requires Distinct(signatures)
    ensures MergeSignatures(None, signatures) == signatures
  {
    assert [] + signatures == signatures;
    AppendNewOfDistinct([], signatures);
  }

  lemma EmptyWellFormed()
    ensures WellFormed(Empty()) && Closed(Empty())
  {
  }

  /** One signature holding one candidate, registered under that candidate's container, is well formed. */
  lemma SingletonWellFormed(signature: string, candidate: Candidate)
    ensures WellFormed(Collected([(signature, [candidate])], [(ContainerKey(candidate.identifier), [signature])]))
  {
    var key := ContainerKey(candidate.identifier);
    var c := Collected([(signature, [candidate])], [(key, [signature])]);
    assert Keys(c.signatureDeclarations) == [signature];
    assert Keys(c.containerSignatures) == [key];
    assert forall s :: GetOr(c.signatureDeclarations, s, []) == if s == signature then [candidate] else [];
    assert forall k :: GetOr(c.containerSignatures, k, []) == if k == key then [signature] else [];
    assert Has(c.signatureDeclarations, signature, candidate.identifier);
  }

  /** A container list merged with itself, one signature long, stays as it is. */
  lemma MergeSameSignatures(s: string)
    ensures MergeSignatures(Some([s]), [s]) == [s]
  {
    assert [s] + [s] == [s, s];
    assert [s, s][1..] == [s] && [s][1..] == [] && [] + [s] == [s];
    assert AppendNew([], [s, s]) == AppendNew([s], [s]);
    assert AppendNew([s], [s]) == AppendNew([s], []);
  }

  // ---------------------------------------------------------------------
  // The merge as the source text has it
  // ---------------------------------------------------------------------

  /**
   * `find` over the merged list as written: its callback destructures each
   * listed candidate's `identifier` and reads the incoming one's, so it
   * throws as soon as it meets an anonymous candidate on either side.
   */
  function FindAsWritten(merged: seq<Candidate>, d: Candidate): Result<bool>
    decreases |merged|
  {
    if merged == [] then Success(false)
    else if merged[0].identifier.None? || d.identifier.None? then
      Failure("TypeError: cannot read properties of undefined (reading 'container')")
    else if merged[0].identifier.value.container == d.identifier.value.container
         && merged[0].identifier.value.name == d.identifier.value.name then Success(true)
    else FindAsWritten(merged[1..], d)
  }

  function PushNewAsWritten(merged: seq<Candidate>, incoming: seq<Candidate>): Result<seq<Candidate>>
    decreases |incoming|
  {
    if incoming == [] then Success(merged)
    else
      var existing :- FindAsWritten(merged, incoming[0]);
      PushNewAsWritten(if existing then merged else merged + [incoming[0]], incoming[1..])
  }

  function CheckSignatureListsAsWritten(a: AList<seq<Candidate>>, b: AList<seq<Candidate>>): Result<()>
    decreases |b|
  {
    if b == [] then Success(())
    else
      var _ :- PushNewAsWritten(GetOr(a, b[0].0, []), b[0].1);
      CheckSignatureListsAsWritten(a, b[1..])
  }

  /**
   * `mergeDeclarations` exactly as the text has it: the merged candidate
   * lists are built (possibly throwing) and then dropped, so the result's
   * signature declarations are `a`'s.
   */
  function MergeAsWritten(a: Collected, b: Collected): (r: Result<Collected>)
    ensures r.Success? ==> r.value.signatureDeclarations == a.signatureDeclarations
    ensures r.Success? ==> r.value.containerSignatures == Merge(a, b).containerSignatures
  {
    var _ :- CheckSignatureListsAsWritten(a.signatureDeclarations, b.signatureDeclarations);
    Success(Collected(
      a.signatureDeclarations,
      UpdateAll(a.containerSignatures, b.containerSignatures, MergeSignatures)))
  }

  /**
   * The discrepancy: merging a single named candidate into the empty
   * collection loses it as written, while the intended merge keeps it.
   */
  lemma MergeAsWrittenLosesCandidates(id: Identifier, components: seq<Component>)
    ensures var b := Collected([("()", [Candidate(Some(id), components)])], [("", ["()"])]);
      && MergeAsWritten(Empty(), b) == Success(Collected([], [("", ["()"])]))
      && Merge(Empty(), b).signatureDeclarations == b.signatureDeclarations
  {
    var d := Candidate(Some(id), components);
    var b := Collected([("()", [d])], [("", ["()"])]);
    assert [] + ["()"] == ["()"];
    AppendNewOfDistinct([], ["()"]);
    assert FindAsWritten([], d) == Success(false);
    assert [] + [d] == [d];
    assert PushNewAsWritten([], [d]) == Success([d]);
    assert CheckSignatureListsAsWritten([], b.signatureDeclarations) == Success(());
    assert UpdateAll([], b.containerSignatures, MergeSignatures) == [("", ["()"])] by {
      assert MergeSignatures(None, ["()"]) == ["()"];
      UpdateAllFresh([], b.containerSignatures, MergeSignatures);
    }
    assert MergeAsWritten(Empty(), b) == Success(Collected([], [("", ["()"])]));
    assert Merge(Empty(), b).signatureDeclarations == b.signatureDeclarations by {
      assert [] + [d] == [d];
      AppendNewCandidatesOfDistinct([], [d]);
      assert MergeCandidates(None, [d]) == [d];
      UpdateAllFresh([], b.signatureDeclarations, MergeCandidates);
    }
  }

  /**
   * The second discrepancy: merging a collection holding one anonymous
   * candidate with itself throws as written, because the `find` callback
   * destructures the anonymous candidate's missing identifier. The intended
   * merge keeps the collection as it is.
   */
  lemma MergeAsWrittenThrowsOnAnonymous(components: seq<Component>)
    ensures var a := Collected([("()", [Candidate(None, components)])], [("", ["()"])]);
      && MergeAsWritten(a, a).Failure?
      && Merge(a, a) == a
  {
    var d := Candidate(None, components);
    var a := Collected([("()", [d])], [("", ["()"])]);
    assert FindAsWritten([d], d).Failure?;
    assert PushNewAsWritten([d], [d]).Failure?;
    assert GetOr(a.signatureDeclarations, "()", []) == [d];
    assert CheckSignatureListsAsWritten(a.signatureDeclarations, a.signatureDeclarations).Failure?;
    assert MergeCandidates(Some([d]), [d]) == [d] by {
      assert HasIdentifier([d], d.identifier);
      assert AppendNewCandidates([d], [d]) == AppendNewCandidates([d], []);
    }
    UpdateAllSingle("()", [d], [d], MergeCandidates);
    UpdateAllSingle("", ["()"], ["()"], MergeSignatures);
    MergeSameSignatures("()");
  }
}
