/**
 * The query object `collectDeclarations` returns in
 * packages/abi-to-sol/src/declarations/visitor.ts, over a `Catalogue`.
 * JavaScript `Set`s of declarations are sequences here; reading a missing
 * key and then calling a method on `undefined` is a `TypeError`, i.e. a
 * `Failure`.
 */
module VisitorQueries {
  import opened Common
  import opened AssocList
  import opened Classifier
  import opened TupleSignature
  import opened VisitorMerge
  import opened VisitorResolve

  /** `allDeclarations()`: every signature's list, in key order, concatenated. */
  function AllDeclarations(cat: Catalogue): (r: seq<Declaration>)
    ensures forall d :: d in r <==> exists k :: 0 <= k < |cat.signatureDeclarations| && d in cat.signatureDeclarations[k].1
  {
    var vs := Values(cat.signatureDeclarations);
    assert forall d :: d in Flatten(vs) <==> exists k :: 0 <= k < |vs| && d in vs[k] by {
      forall d ensures d in Flatten(vs) <==> exists k :: 0 <= k < |vs| && d in vs[k] {
        FlattenMember(vs, d);
      }
    }
    Flatten(vs)
  }

  /** `isEmpty()`: no signature key at all. */
  function IsEmpty(cat: Catalogue): (r: bool)
    ensures r <==> Keys(cat.signatureDeclarations) == []
  {
    |Keys(cat.signatureDeclarations)| == 0
  }

  /** `structContainerNames()`: the container keys, in insertion order. */
  function StructContainerNames(cat: Catalogue): (r: seq<string>)
    ensures forall k :: k in r <==> Get(cat.containerSignatures, k).Some?
  {
    Keys(cat.containerSignatures)
  }

  /** The declarations whose own identifier has the wanted container. */
  function FilterByContainer(ds: seq<Declaration>, container: Option<string>): (r: seq<Declaration>)
    ensures forall d :: d in r <==> d in ds && d.identifier.container == container
  {
    if ds == [] then []
    else if ds[0].identifier.container == container then [ds[0]] + FilterByContainer(ds[1..], container)
    else FilterByContainer(ds[1..], container)
  }

  /**
   * The common body of `globalDeclarations` and `containerDeclarations`:
   * the signatures listed under `key`, each signature's declarations
   * filtered by their own container, concatenated.
   */
  function ScopedDeclarations(cat: Catalogue, key: string, container: Option<string>): (r: Result<seq<Declaration>>)
    ensures r.Failure? <==>
      || key !in Keys(cat.containerSignatures)
      || exists s :: s in GetOr(cat.containerSignatures, key, []) && s !in Keys(cat.signatureDeclarations)
    ensures r.Success? ==> forall d :: d in r.value ==>
      d in AllDeclarations(cat) && d.identifier.container == container
    ensures r.Success? ==> forall d :: d in AllDeclarations(cat) && d.identifier.container == container ==>
      (exists s :: s in GetOr(cat.containerSignatures, key, []) && d in GetOr(cat.signatureDeclarations, s, [])) ==> d in r.value
  {
    match Get(cat.containerSignatures, key)
    case None => Failure("TypeError: cannot read properties of undefined (reading 'map')")
    case Some(signatures) =>
      assert GetOr(cat.containerSignatures, key, []) == signatures;
      var lists := ReadSignatures(cat, signatures, container);
      if lists.Failure? then Failure(lists.error)
      else
        ScopedMembers(cat, signatures, lists.value, container);
        Success(Flatten(lists.value))
  }

  /** `signatures.map(signature => ...)`: the first missing signature throws. */
  function ReadSignatures(cat: Catalogue, signatures: seq<string>, container: Option<string>): (r: Result<seq<seq<Declaration>>>)
    ensures r.Failure? <==> exists s :: s in signatures && s !in Keys(cat.signatureDeclarations)
    ensures r.Success? ==> |r.value| == |signatures| && forall i :: 0 <= i < |signatures| ==>
      Get(cat.signatureDeclarations, signatures[i]).Some? &&
      r.value[i] == FilterByContainer(Get(cat.signatureDeclarations, signatures[i]).value, container)
  {
    var lists := MapResult(signatures, s => ReadSignature(cat, s, container));
    if lists.Failure? then
      assert exists s :: s in signatures && s !in Keys(cat.signatureDeclarations) by {
        var i :| 0 <= i < |signatures| && ReadSignature(cat, signatures[i], container).Failure?;
        assert signatures[i] in signatures;
      }
      lists
    else
      assert forall s :: s in signatures ==> s in Keys(cat.signatureDeclarations) by {
        forall s | s in signatures ensures s in Keys(cat.signatureDeclarations) {
          var i :| 0 <= i < |signatures| && signatures[i] == s;
          assert ReadSignature(cat, signatures[i], container).Success?;
        }
      }
      lists
  }

  /** `signatureDeclarations[signature].filter(...)`: a missing signature is a `TypeError`. */
  function ReadSignature(cat: Catalogue, signature: string, container: Option<string>): (r: Result<seq<Declaration>>)
    ensures r.Failure? <==> signature !in Keys(cat.signatureDeclarations)
    ensures r.Success? ==> r.value == FilterByContainer(GetOr(cat.signatureDeclarations, signature, []), container)
  {
    match Get(cat.signatureDeclarations, signature)
    case None => Failure("TypeError: cannot read properties of undefined (reading 'filter')")
    case Some(ds) => Success(FilterByContainer(ds, container))
  }

  lemma ScopedMembers(cat: Catalogue, signatures: seq<string>, lists: seq<seq<Declaration>>, container: Option<string>)
    requires |lists| == |signatures|
    requires forall i :: 0 <= i < |signatures| ==>
      Get(cat.signatureDeclarations, signatures[i]).Some? &&
      lists[i] == FilterByContainer(Get(cat.signatureDeclarations, signatures[i]).value, container)
    ensures forall d :: d in Flatten(lists) ==> d in AllDeclarations(cat) && d.identifier.container == container
    ensures forall d :: d in AllDeclarations(cat) && d.identifier.container == container ==>
      (exists s :: s in signatures && d in GetOr(cat.signatureDeclarations, s, [])) ==> d in Flatten(lists)
  {
    forall d | d in Flatten(lists) ensures d in AllDeclarations(cat) && d.identifier.container == container {
      FlattenMember(lists, d);
      var i :| 0 <= i < |lists| && d in lists[i];
      var t :| 0 <= t < |cat.signatureDeclarations| && cat.signatureDeclarations[t] == (signatures[i], Get(cat.signatureDeclarations, signatures[i]).value);
    }
    forall d | d in AllDeclarations(cat) && d.identifier.container == container &&
      (exists s :: s in signatures && d in GetOr(cat.signatureDeclarations, s, []))
      ensures d in Flatten(lists)
    {
      var s :| s in signatures && d in GetOr(cat.signatureDeclarations, s, []);
      var i :| 0 <= i < |signatures| && signatures[i] == s;
      FlattenMember(lists, d);
      assert d in lists[i];
    }
  }

  /** `globalDeclarations()`: the declarations without a container, reached through key `""`. */
  function GlobalDeclarations(cat: Catalogue): (r: Result<seq<Declaration>>)
    ensures r.Failure? <==>
      || "" !in Keys(cat.containerSignatures)
      || exists s :: s in GetOr(cat.containerSignatures, "", []) && s !in Keys(cat.signatureDeclarations)
    ensures r.Success? ==> forall d :: d in r.value ==> d in AllDeclarations(cat) && d.identifier.container.None?
  {
    ScopedDeclarations(cat, "", None)
  }

  /** `containerDeclarations(name)`: the declarations in container `name`. */
  function ContainerDeclarations(cat: Catalogue, name: string): (r: Result<seq<Declaration>>)
    ensures r.Failure? <==>
      || name !in Keys(cat.containerSignatures)
      || exists s :: s in GetOr(cat.containerSignatures, name, []) && s !in Keys(cat.signatureDeclarations)
    ensures r.Success? ==> forall d :: d in r.value ==> d in AllDeclarations(cat) && d.identifier.container == Some(name)
  {
    ScopedDeclarations(cat, name, Some(name))
  }

  /** `Array.prototype.find` on identifiers (name and container both equal). */
  function FindByIdentifier(ds: seq<Declaration>, id: Identifier): (r: Option<Declaration>)
    ensures r.None? <==> forall i :: 0 <= i < |ds| ==> ds[i].identifier != id
    ensures r.Some? ==> r.value.identifier == id
    ensures r.Some? ==>
      exists i :: 0 <= i < |ds| && ds[i] == r.value && forall j :: 0 <= j < i ==> ds[j].identifier != id
  {
    if ds == [] then None
    else if ds[0].identifier == id then Some(ds[0])
    else
      var r := FindByIdentifier(ds[1..], id);
      assert forall i :: 1 <= i < |ds| ==> ds[i] == ds[1..][i - 1];
      if r.Some? then
        var i :| 0 <= i < |ds[1..]| && ds[1..][i] == r.value && forall j :: 0 <= j < i ==> ds[1..][j].identifier != id;
        assert ds[i + 1] == r.value;
        r
      else r
  }

  /** `identifierDeclaration(identifier)`: the first declaration, over all signatures, with that identifier. */
  function IdentifierDeclaration(cat: Catalogue, id: Identifier): (r: Option<Declaration>)
    ensures r.None? <==> forall d :: d in AllDeclarations(cat) ==> d.identifier != id
    ensures r.Some? ==> r.value in AllDeclarations(cat) && r.value.identifier == id
    ensures r.Some? ==> var all := AllDeclarations(cat);
      exists i :: 0 <= i < |all| && all[i] == r.value && forall j :: 0 <= j < i ==> all[j].identifier != id
  {
    FindByIdentifier(AllDeclarations(cat), id)
  }

  /**
   * `typeForParameter(parameter)`: elementary unless the parameter is a
   * tuple with components; then the struct type takes the identifier of the
   * first declaration under its signature, and it is an internal error if
   * there is none.
   */
  function TypeForParameter(cat: Catalogue, p: Parameter): (r: Result<Type>)
    ensures !IsTupleType(p.typ) || p.components.Absent? ==> r == Success(Elementary(p.typ))
    ensures IsTupleType(p.typ) && p.components.Present? ==>
      var ds := GetOr(cat.signatureDeclarations, Signature(p.components.items), []);
      && (r.Failure? <==> ds == [])
      && (r.Success? ==> r.value == Struct(p.typ, p.components.items, Some(ds[0].identifier)))
  {
    if !IsTupleType(p.typ) || p.components.Absent? then Success(Elementary(p.typ))
    else
      var signature := Signature(p.components.items);
      var ds := GetOr(cat.signatureDeclarations, signature, []);
      if ds == [] then Failure("Internal error: unknown declaration for signature " + signature)
      else Success(Struct(p.typ, p.components.items, Some(ds[0].identifier)))
  }
}
