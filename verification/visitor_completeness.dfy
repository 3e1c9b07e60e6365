/**
 * What the post-pass of packages/abi-to-sol/src/declarations/visitor.ts
 * guarantees for every input: `collectDeclarations` never reaches its
 * internal errors, every struct component of every declaration resolves
 * through `identifierDeclaration`, and the scoped queries partition the
 * declarations by their own container.
 */
module VisitorCompleteness {
  import opened Common
  import opened AssocList
  import opened Classifier
  import opened TupleSignature
  import opened VisitorMerge
  import opened VisitorCollect
  import opened VisitorResolve
  import opened VisitorQueries

  /** A declaration sits in the container its candidate was registered under, and keeps a given identifier. */
  predicate Keeps(c: Candidate, d: Declaration) {
    && ContainerKey(Some(d.identifier)) == ContainerKey(c.identifier)
    && (c.identifier.Some? ==> d.identifier == c.identifier.value)
  }

  predicate SameIdentifier(a: Declaration, b: Declaration) {
    a.identifier == b.identifier
  }

  /** The invariants of a catalogue built from collected candidates. */
  ghost predicate CatalogueWellFormed(cat: Catalogue) {
    var sd, cs := cat.signatureDeclarations, cat.containerSignatures;
    && UniqueKeys(sd)
    && UniqueKeys(cs)
    && (forall s :: s in Keys(sd) ==> GetOr(sd, s, []) != [])
    && (forall k :: Distinct(GetOr(cs, k, [])))
    && (forall s, d :: d in GetOr(sd, s, []) ==> s in GetOr(cs, ContainerKey(Some(d.identifier)), []))
    && (forall k, s :: s in GetOr(cs, k, []) ==> s in Keys(sd))
    && (forall k :: k in Keys(cs) ==> GetOr(cs, k, []) != [])
    && (forall k, s :: s in GetOr(cs, k, []) ==>
          exists d :: d in GetOr(sd, s, []) && ContainerKey(Some(d.identifier)) == k)
  }

  /** No dangling references: every struct component has an identifier that `identifierDeclaration` finds. */
  ghost predicate ResolvedEverywhere(cat: Catalogue) {
    forall d, c :: d in AllDeclarations(cat) && c in d.components && c.typ.Struct? ==>
      c.typ.identifier.Some? && IdentifierDeclaration(cat, c.typ.identifier.value).Some?
  }

  // ---------------------------------------------------------------------
  // The post-pass, step by step
  // ---------------------------------------------------------------------

  lemma NamedAligned(sd: AList<seq<Candidate>>)
    ensures Aligned(sd, NameSignatures(sd, 0).0, Names)
  {
    var named := NameSignatures(sd, 0).0;
    forall k, i | 0 <= k < |sd| && 0 <= i < |sd[k].1| ensures Names(sd[k].1[i], named[k].1[i]) {
      NameSignaturesAt(sd, 0, k, i);
    }
  }

  /** A recorded signature has a non-empty list. */
  lemma HasNonEmpty(sd: AList<seq<Candidate>>, s: string, id: Option<Identifier>)
    requires Has(sd, s, id)
    ensures GetOr(sd, s, []) != []
  {
    var e :| e in GetOr(sd, s, []) && e.identifier == id;
  }

  /** The component at position `m` of candidate `i` under entry `k` resolves in `sd`. */
  lemma ComponentResolves(c: Collected, k: nat, i: nat, m: nat)
    requires Closed(c)
    requires UniqueKeys(c.signatureDeclarations)
    requires k < |c.signatureDeclarations| && i < |c.signatureDeclarations[k].1|
    requires m < |c.signatureDeclarations[k].1[i].components|
    ensures Resolves(c.signatureDeclarations, c.signatureDeclarations[k].1[i].components[m])
  {
    var sd := c.signatureDeclarations;
    GetOfEntry(sd, k);
    assert sd[k].1[i] in GetOr(sd, sd[k].0, []);
    assert sd[k].1[i].components[m] in sd[k].1[i].components;
  }

  /** Under a closed collection the back-fill never throws. */
  lemma BackFillSucceeds(c: Collected)
    requires WellFormed(c) && Closed(c)
    ensures PopulateSignatureDeclarations(NameSignatures(c.signatureDeclarations, 0).0).Success?
  {
    var sd := c.signatureDeclarations;
    var named := NameSignatures(sd, 0).0;
    NamedAligned(sd);
    forall k, i | 0 <= k < |named| && 0 <= i < |named[k].1|
      ensures PopulateDeclaration(named[k].1[i], named).Success?
    {
      var x := sd[k].1[i];
      assert Names(x, named[k].1[i]);
      forall m | 0 <= m < |x.components| ensures PopulateComponent(x.components[m], named).Success? {
        var comp := x.components[m];
        ComponentResolves(c, k, i, m);
        if comp.typ.Struct? && comp.typ.identifier.None? {
          var signature := Signature(comp.typ.components);
          HasNonEmpty(sd, signature, None);
          AlignedLookup(sd, named, Names, signature);
        }
      }
    }
  }

  /** The back-filled declarations keep their candidates' containers and given identifiers. */
  lemma BackFillKeeps(sd: AList<seq<Candidate>>)
    requires PopulateSignatureDeclarations(NameSignatures(sd, 0).0).Success?
    ensures Aligned(sd, PopulateSignatureDeclarations(NameSignatures(sd, 0).0).value, Keeps)
  {
    var named := NameSignatures(sd, 0).0;
    NamedAligned(sd);
    var f := PopulateSignatureDeclarations(named).value;
    forall k, i | 0 <= k < |sd| && 0 <= i < |sd[k].1| ensures Keeps(sd[k].1[i], f[k].1[i]) {
      assert Names(sd[k].1[i], named[k].1[i]);
      assert f[k].1[i].identifier == named[k].1[i].identifier;
    }
  }

  /** The back-fill keeps every identifier the naming pass chose. */
  lemma BackFillSameIdentifier(named: AList<seq<Declaration>>)
    requires PopulateSignatureDeclarations(named).Success?
    ensures Aligned(named, PopulateSignatureDeclarations(named).value, SameIdentifier)
  {
    var f := PopulateSignatureDeclarations(named).value;
    forall k, i | 0 <= k < |named| && 0 <= i < |named[k].1| ensures SameIdentifier(named[k].1[i], f[k].1[i]) {
    }
  }

  /** The back-filled lists line up with the candidates they come from. */
  lemma BackFillAligned(c: Collected)
    requires WellFormed(c) && Closed(c)
    ensures var named := NameSignatures(c.signatureDeclarations, 0).0;
      && PopulateSignatureDeclarations(named).Success?
      && Aligned(c.signatureDeclarations, PopulateSignatureDeclarations(named).value, Keeps)
      && Aligned(named, PopulateSignatureDeclarations(named).value, SameIdentifier)
  {
    BackFillSucceeds(c);
    BackFillKeeps(c.signatureDeclarations);
    BackFillSameIdentifier(NameSignatures(c.signatureDeclarations, 0).0);
  }

  /** The catalogue inherits the collection's invariants. */
  lemma CatalogueWellFormedOfCollected(c: Collected)
    requires WellFormed(c) && Closed(c)
    ensures PopulateMissingIdentifiers(c).Success?
    ensures CatalogueWellFormed(PopulateMissingIdentifiers(c).value)
  {
    var sd, cs := c.signatureDeclarations, c.containerSignatures;
    BackFillAligned(c);
    var f := PopulateMissingIdentifiers(c).value.signatureDeclarations;
    assert f == PopulateSignatureDeclarations(NameSignatures(sd, 0).0).value;
    KeptNonEmpty(sd, f);
    KeptRegistered(sd, f, cs);
    KeptWitnessed(sd, f, cs);
  }

  /** Back-filling keeps every signature's list non-empty. */
  lemma KeptNonEmpty(sd: AList<seq<Candidate>>, f: AList<seq<Declaration>>)
    requires UniqueKeys(sd) && Aligned(sd, f, Keeps)
    requires forall s :: s in Keys(sd) ==> GetOr(sd, s, []) != []
    ensures forall s :: s in Keys(f) ==> GetOr(f, s, []) != []
  {
    forall s | s in Keys(f) ensures GetOr(f, s, []) != [] {
      AlignedLookup(sd, f, Keeps, s);
    }
  }

  /** Back-filling keeps every declaration's signature listed under its container. */
  lemma KeptRegistered(sd: AList<seq<Candidate>>, f: AList<seq<Declaration>>, cs: AList<seq<string>>)
    requires UniqueKeys(sd) && Aligned(sd, f, Keeps)
    requires forall s, x :: x in GetOr(sd, s, []) ==> s in GetOr(cs, ContainerKey(x.identifier), [])
    ensures forall s, d :: d in GetOr(f, s, []) ==> s in GetOr(cs, ContainerKey(Some(d.identifier)), [])
  {
    forall s, d | d in GetOr(f, s, []) ensures s in GetOr(cs, ContainerKey(Some(d.identifier)), []) {
      AlignedLookup(sd, f, Keeps, s);
      var i :| 0 <= i < |GetOr(f, s, [])| && GetOr(f, s, [])[i] == d;
      var x := GetOr(sd, s, [])[i];
      assert Keeps(x, d);
      assert x in GetOr(sd, s, []);
    }
  }

  /** Back-filling keeps a witness in every container for each signature listed there. */
  lemma KeptWitnessed(sd: AList<seq<Candidate>>, f: AList<seq<Declaration>>, cs: AList<seq<string>>)
    requires UniqueKeys(sd) && Aligned(sd, f, Keeps)
    requires forall k, s :: s in GetOr(cs, k, []) ==> exists id :: Has(sd, s, id) && ContainerKey(id) == k
    ensures forall k, s :: s in GetOr(cs, k, []) ==>
      exists d :: d in GetOr(f, s, []) && ContainerKey(Some(d.identifier)) == k
  {
    forall k, s | s in GetOr(cs, k, [])
      ensures exists d :: d in GetOr(f, s, []) && ContainerKey(Some(d.identifier)) == k
    {
      var id :| Has(sd, s, id) && ContainerKey(id) == k;
      var x :| x in GetOr(sd, s, []) && x.identifier == id;
      var i :| 0 <= i < |GetOr(sd, s, [])| && GetOr(sd, s, [])[i] == x;
      AlignedLookup(sd, f, Keeps, s);
      assert Keeps(x, GetOr(f, s, [])[i]);
    }
  }

  /** A declaration looked up under some key is one of all the declarations. */
  lemma LookupInAll(cat: Catalogue, s: string, i: nat)
    requires i < |GetOr(cat.signatureDeclarations, s, [])|
    ensures GetOr(cat.signatureDeclarations, s, [])[i] in AllDeclarations(cat)
  {
    var l := Get(cat.signatureDeclarations, s).value;
    var k :| 0 <= k < |cat.signatureDeclarations| && cat.signatureDeclarations[k] == (s, l);
    assert l[i] in cat.signatureDeclarations[k].1;
  }

  /** A resolving struct component is back-filled with the identifier of some catalogued declaration. */
  lemma BackFilledTarget(sd: AList<seq<Candidate>>, named: AList<seq<Declaration>>, f: AList<seq<Declaration>>, comp: Component)
    requires UniqueKeys(sd) && Aligned(sd, named, Names) && Aligned(sd, f, Keeps) && Aligned(named, f, SameIdentifier)
    requires comp.typ.Struct? && Resolves(sd, comp)
    requires PopulateComponent(comp, named).Success?
    ensures exists s, t ::
      && 0 <= t < |GetOr(f, s, [])|
      && GetOr(f, s, [])[t].identifier == PopulateComponent(comp, named).value.typ.identifier.value
  {
    var signature := Signature(comp.typ.components);
    var x :| x in GetOr(sd, signature, []) && x.identifier == comp.typ.identifier;
    var t :| 0 <= t < |GetOr(sd, signature, [])| && GetOr(sd, signature, [])[t] == x;
    AlignedLookup(sd, f, Keeps, signature);
    if comp.typ.identifier.Some? {
      assert Keeps(x, GetOr(f, signature, [])[t]);
    } else {
      AlignedLookup(named, f, SameIdentifier, signature);
      assert SameIdentifier(GetOr(named, signature, [])[0], GetOr(f, signature, [])[0]);
    }
  }

  /** The struct component at position `m` of declaration `i` under entry `k` names a catalogued declaration. */
  lemma BackFilledAt(c: Collected, named: AList<seq<Declaration>>, f: AList<seq<Declaration>>, k: nat, i: nat, m: nat)
    requires Closed(c) && UniqueKeys(c.signatureDeclarations)
    requires named == NameSignatures(c.signatureDeclarations, 0).0
    requires PopulateSignatureDeclarations(named) == Success(f)
    requires Aligned(c.signatureDeclarations, named, Names)
    requires Aligned(c.signatureDeclarations, f, Keeps) && Aligned(named, f, SameIdentifier)
    requires k < |f| && i < |f[k].1| && m < |f[k].1[i].components| && f[k].1[i].components[m].typ.Struct?
    ensures f[k].1[i].components[m].typ.identifier.Some?
    ensures exists s, t ::
      && 0 <= t < |GetOr(f, s, [])|
      && GetOr(f, s, [])[t].identifier == f[k].1[i].components[m].typ.identifier.value
  {
    var sd := c.signatureDeclarations;
    assert Names(sd[k].1[i], named[k].1[i]);
    var original := sd[k].1[i].components[m];
    assert f[k].1[i].components[m] == PopulateComponent(original, named).value;
    ComponentResolves(c, k, i, m);
    BackFilledTarget(sd, named, f, original);
  }

  /** One struct component of a catalogued declaration resolves. */
  lemma ResolvedComponentOfAligned(c: Collected, named: AList<seq<Declaration>>, cat: Catalogue, d: Declaration, comp: Component)
    requires Closed(c) && UniqueKeys(c.signatureDeclarations)
    requires named == NameSignatures(c.signatureDeclarations, 0).0
    requires PopulateSignatureDeclarations(named) == Success(cat.signatureDeclarations)
    requires Aligned(c.signatureDeclarations, named, Names)
    requires Aligned(c.signatureDeclarations, cat.signatureDeclarations, Keeps)
    requires Aligned(named, cat.signatureDeclarations, SameIdentifier)
    requires d in AllDeclarations(cat) && comp in d.components && comp.typ.Struct?
    ensures comp.typ.identifier.Some? && IdentifierDeclaration(cat, comp.typ.identifier.value).Some?
  {
    var f := cat.signatureDeclarations;
    var k :| 0 <= k < |f| && d in f[k].1;
    var i :| 0 <= i < |f[k].1| && f[k].1[i] == d;
    var m :| 0 <= m < |d.components| && d.components[m] == comp;
    BackFilledAt(c, named, f, k, i, m);
    var s, t :| 0 <= t < |GetOr(f, s, [])| && GetOr(f, s, [])[t].identifier == comp.typ.identifier.value;
    LookupInAll(cat, s, t);
  }

  /** A catalogue aligned with a closed collection has no dangling references. */
  lemma ResolvedOfAligned(c: Collected, named: AList<seq<Declaration>>, cat: Catalogue)
    requires Closed(c) && UniqueKeys(c.signatureDeclarations)
    requires named == NameSignatures(c.signatureDeclarations, 0).0
    requires PopulateSignatureDeclarations(named) == Success(cat.signatureDeclarations)
    requires Aligned(c.signatureDeclarations, named, Names)
    requires Aligned(c.signatureDeclarations, cat.signatureDeclarations, Keeps)
    requires Aligned(named, cat.signatureDeclarations, SameIdentifier)
    ensures ResolvedEverywhere(cat)
  {
    forall d, comp | d in AllDeclarations(cat) && comp in d.components && comp.typ.Struct?
      ensures comp.typ.identifier.Some? && IdentifierDeclaration(cat, comp.typ.identifier.value).Some?
    {
      ResolvedComponentOfAligned(c, named, cat, d, comp);
    }
  }

  /** After the post-pass every struct component resolves. */
  lemma PopulateResolvesEverywhere(c: Collected)
    requires WellFormed(c) && Closed(c)
    ensures PopulateMissingIdentifiers(c).Success?
    ensures ResolvedEverywhere(PopulateMissingIdentifiers(c).value)
  {
    BackFillAligned(c);
    ResolvedAfterBackFill(c);
  }

  lemma ResolvedAfterBackFill(c: Collected)
    requires Closed(c) && UniqueKeys(c.signatureDeclarations)
    requires var named := NameSignatures(c.signatureDeclarations, 0).0;
      && PopulateSignatureDeclarations(named).Success?
      && Aligned(c.signatureDeclarations, PopulateSignatureDeclarations(named).value, Keeps)
      && Aligned(named, PopulateSignatureDeclarations(named).value, SameIdentifier)
    ensures PopulateMissingIdentifiers(c).Success?
    ensures ResolvedEverywhere(PopulateMissingIdentifiers(c).value)
  {
    var named := NameSignatures(c.signatureDeclarations, 0).0;
    NamedAligned(c.signatureDeclarations);
    var cat := Catalogue(PopulateSignatureDeclarations(named).value, c.containerSignatures);
    assert PopulateMissingIdentifiers(c) == Success(cat);
    ResolvedOfAligned(c, named, cat);
  }

  /**
   * The completeness theorem: for every input, `collectDeclarations`
   * succeeds, its catalogue is well formed, and no struct component of any
   * declaration is left dangling.
   */
  lemma CollectDeclarationsComplete(node: Node)
    ensures CollectDeclarations(node).Success?
    ensures CatalogueWellFormed(CollectDeclarations(node).value)
    ensures ResolvedEverywhere(CollectDeclarations(node).value)
  {
    CatalogueWellFormedOfCollected(Collect(node));
    PopulateResolvesEverywhere(Collect(node));
  }

  // ---------------------------------------------------------------------
  // The queries over a well-formed catalogue
  // ---------------------------------------------------------------------

  /** A declaration is catalogued under some signature key. */
  lemma CataloguedUnder(cat: Catalogue, d: Declaration) returns (s: string)
    requires UniqueKeys(cat.signatureDeclarations)
    requires d in AllDeclarations(cat)
    ensures d in GetOr(cat.signatureDeclarations, s, [])
  {
    var k :| 0 <= k < |cat.signatureDeclarations| && d in cat.signatureDeclarations[k].1;
    GetOfEntry(cat.signatureDeclarations, k);
    s := cat.signatureDeclarations[k].0;
  }

  /** `isEmpty()` holds exactly when there is no declaration at all. */
  lemma IsEmptyIffNoDeclarations(cat: Catalogue)
    requires CatalogueWellFormed(cat)
    ensures IsEmpty(cat) <==> AllDeclarations(cat) == []
  {
    var sd := cat.signatureDeclarations;
    if !IsEmpty(cat) {
      var s := sd[0].0;
      assert s == Keys(sd)[0];
      var d := GetOr(sd, s, [])[0];
      LookupInAll(cat, s, 0);
      assert d in AllDeclarations(cat);
    }
  }

  /** A container key is listed exactly when some declaration sits in that container. */
  lemma StructContainerNamesIff(cat: Catalogue, k: string)
    requires CatalogueWellFormed(cat)
    ensures k in StructContainerNames(cat) <==>
      exists d :: d in AllDeclarations(cat) && ContainerKey(Some(d.identifier)) == k
  {
    if k in StructContainerNames(cat) {
      var d := ContainerNameWitness(cat, k);
    }
    if exists d :: d in AllDeclarations(cat) && ContainerKey(Some(d.identifier)) == k {
      var d :| d in AllDeclarations(cat) && ContainerKey(Some(d.identifier)) == k;
      ContainerNameOfDeclaration(cat, d);
    }
  }

  /** Every container name is the container of some catalogued declaration. */
  lemma ContainerNameWitness(cat: Catalogue, k: string) returns (d: Declaration)
    requires CatalogueWellFormed(cat) && k in StructContainerNames(cat)
    ensures d in AllDeclarations(cat) && ContainerKey(Some(d.identifier)) == k
  {
    var sd, cs := cat.signatureDeclarations, cat.containerSignatures;
    var s := GetOr(cs, k, [])[0];
    assert s in GetOr(cs, k, []);
    d :| d in GetOr(sd, s, []) && ContainerKey(Some(d.identifier)) == k;
    var i :| 0 <= i < |GetOr(sd, s, [])| && GetOr(sd, s, [])[i] == d;
    LookupInAll(cat, s, i);
  }

  /** The container of every catalogued declaration is a container name. */
  lemma ContainerNameOfDeclaration(cat: Catalogue, d: Declaration)
    requires CatalogueWellFormed(cat) && d in AllDeclarations(cat)
    ensures ContainerKey(Some(d.identifier)) in StructContainerNames(cat)
  {
    var s := CataloguedUnder(cat, d);
    assert s in GetOr(cat.containerSignatures, ContainerKey(Some(d.identifier)), []);
  }

  /**
   * `globalDeclarations()` and `containerDeclarations(name)` on a
   * well-formed catalogue: they succeed exactly when their key is a
   * container key, and then return precisely the declarations of that scope.
   */
  lemma ScopedDeclarationsExact(cat: Catalogue, key: string, container: Option<string>)
    requires CatalogueWellFormed(cat)
    requires (key == "" && container.None?) || container == Some(key)
    ensures ScopedDeclarations(cat, key, container).Success? <==> key in StructContainerNames(cat)
    ensures ScopedDeclarations(cat, key, container).Success? ==>
      forall d :: d in ScopedDeclarations(cat, key, container).value <==>
        d in AllDeclarations(cat) && d.identifier.container == container
  {
    var sd, cs := cat.signatureDeclarations, cat.containerSignatures;
    var r := ScopedDeclarations(cat, key, container);
    if r.Success? {
      forall d | d in AllDeclarations(cat) && d.identifier.container == container ensures d in r.value {
        var s := CataloguedUnder(cat, d);
        assert ContainerKey(Some(d.identifier)) == key;
        assert s in GetOr(cs, key, []);
      }
    }
  }

  /** A scope with at least one declaration is reachable without a `TypeError`. */
  lemma ScopedDeclarationsSucceed(cat: Catalogue, key: string, container: Option<string>, d: Declaration)
    requires CatalogueWellFormed(cat)
    requires (key == "" && container.None?) || container == Some(key)
    requires d in AllDeclarations(cat) && d.identifier.container == container
    ensures ScopedDeclarations(cat, key, container).Success?
    ensures d in ScopedDeclarations(cat, key, container).value
  {
    StructContainerNamesIff(cat, key);
    assert ContainerKey(Some(d.identifier)) == key;
    ScopedDeclarationsExact(cat, key, container);
  }

  /**
   * `typeForParameter` on a catalogue built from a collection that recorded
   * the parameter's signature: a struct type whose identifier
   * `identifierDeclaration` finds.
   */
  lemma TypeForRecordedParameter(c: Collected, p: Parameter, id: Option<Identifier>)
    requires WellFormed(c) && Closed(c)
    requires IsTupleType(p.typ) && p.components.Present?
    requires Has(c.signatureDeclarations, Signature(p.components.items), id)
    ensures PopulateMissingIdentifiers(c).Success?
    ensures var t := TypeForParameter(PopulateMissingIdentifiers(c).value, p);
      && t.Success? && t.value.Struct? && t.value.identifier.Some?
      && IdentifierDeclaration(PopulateMissingIdentifiers(c).value, t.value.identifier.value).Some?
  {
    var signature := Signature(p.components.items);
    BackFillAligned(c);
    var cat := PopulateMissingIdentifiers(c).value;
    assert PopulateSignatureDeclarations(NameSignatures(c.signatureDeclarations, 0).0) == Success(cat.signatureDeclarations);
    HasNonEmpty(c.signatureDeclarations, signature, id);
    AlignedLookup(c.signatureDeclarations, cat.signatureDeclarations, Keeps, signature);
    LookupInAll(cat, signature, 0);
  }

  /** Every tuple parameter given to `collectDeclarations` gets a resolvable struct type. */
  lemma TypeForCollectedParameter(p: Parameter)
    requires IsTupleType(p.typ) && p.components.Present?
    ensures CollectDeclarations(ParameterNode(p)).Success?
    ensures var t := TypeForParameter(CollectDeclarations(ParameterNode(p)).value, p);
      && t.Success? && t.value.Struct? && t.value.identifier.Some?
      && IdentifierDeclaration(CollectDeclarations(ParameterNode(p)).value, t.value.identifier.value).Some?
  {
    assert p.ComponentsOrEmpty() == p.components.items;
    TypeForRecordedParameter(Collect(ParameterNode(p)), p, GenerateType(p).identifier);
  }

  /** Every tuple parameter of an entry given to `collectDeclarations` gets a resolvable struct type. */
  lemma TypeForEntryParameter(e: Entry, p: Parameter)
    requires p in EntryParameters(e) && IsTupleType(p.typ) && p.components.Present?
    ensures CollectDeclarations(EntryNode(e)).Success?
    ensures var t := TypeForParameter(CollectDeclarations(EntryNode(e)).value, p);
      && t.Success? && t.value.Struct? && t.value.identifier.Some?
      && IdentifierDeclaration(CollectDeclarations(EntryNode(e)).value, t.value.identifier.value).Some?
  {
    assert p.ComponentsOrEmpty() == p.components.items;
    assert Collect(EntryNode(e)) == VisitEntry(e);
    VisitEntryRecordsTuples(e, p);
    TypeForRecordedParameter(Collect(EntryNode(e)), p, GenerateType(p).identifier);
  }

  /** Every tuple parameter of every entry of an ABI given to `collectDeclarations` gets a resolvable struct type. */
  lemma TypeForAbiParameter(entries: seq<Entry>, e: Entry, p: Parameter)
    requires e in entries && p in EntryParameters(e) && IsTupleType(p.typ) && p.components.Present?
    ensures CollectDeclarations(AbiNode(entries)).Success?
    ensures var t := TypeForParameter(CollectDeclarations(AbiNode(entries)).value, p);
      && t.Success? && t.value.Struct? && t.value.identifier.Some?
      && IdentifierDeclaration(CollectDeclarations(AbiNode(entries)).value, t.value.identifier.value).Some?
  {
    assert p.ComponentsOrEmpty() == p.components.items;
    CollectAbiRecordsTuples(entries, e, p);
    TypeForRecordedParameter(Collect(AbiNode(entries)), p, GenerateType(p).identifier);
  }
}
