/**
 * The parameter classifier shared by every iteration of the collector:
 * a parameter whose `type` starts with `tuple` is a struct, anything else is
 * elementary, and a struct's optional identifier is read from an
 * `internalType` hint such as `struct Container.Name[]`.
 *
 * The two live copies differ in two ways. For hints with three or more
 * dot-separated parts, `generateType` in
 * packages/abi-to-sol/src/declarations/visitor.ts drops the identifier while
 * `toType` in packages/abi-to-sol/src/parameters.ts keeps the first two
 * parts; `NamePolicy` selects between them. And `generateType` returns only
 * the raw type string as a struct's parameter type, whereas `toType` also
 * carries the parameter's `components`. Both are modelled with the shape the
 * declared struct parameter type promises: raw type plus components, where a
 * missing list is the empty one.
 */
module Classifier {
  import opened Common

  /** The classified type of a parameter; a struct's identifier may still be missing. */
  datatype Type =
    | Elementary(rawType: string)
    | Struct(rawType: string, components: seq<Parameter>, identifier: Option<Identifier>)

  datatype NamePolicy =
    | AtMostTwoParts   // declarations/visitor.ts: three or more parts give no identifier
    | FirstTwoParts    // parameters.ts: further parts are ignored

  // ---------------------------------------------------------------------
  // The regular expression /struct ([^\[]+).*/ (unanchored)
  // ---------------------------------------------------------------------

  /** The regex can start matching at `i`: `struct ` then at least one non-`[`. */
  predicate MatchesAt(s: string, i: nat) {
    i + 8 <= |s| && s[i..i + 7] == "struct " && s[i + 7] != '['
  }

  /** `i` is where the regex engine's left-to-right search succeeds. */
  predicate IsLeftmostMatch(s: string, i: nat) {
    MatchesAt(s, i) && forall j: nat :: j < i ==> !MatchesAt(s, j)
  }

  /** Group 1 of a match starting at `i`: the maximal run of non-`[` after `struct `. */
  predicate IsCaptureAt(s: string, i: nat, c: string) {
    && c != []
    && i + 7 + |c| <= |s|
    && s[i + 7..i + 7 + |c|] == c
    && (forall k :: 0 <= k < |c| ==> c[k] != '[')
    && (i + 7 + |c| == |s| || s[i + 7 + |c|] == '[')
  }

  function NonBracketPrefix(s: string): (r: string)
    ensures |r| <= |s| && s[..|r|] == r
    ensures forall k :: 0 <= k < |r| ==> r[k] != '['
    ensures |r| == |s| || s[|r|] == '['
  {
    if s == [] || s[0] == '[' then [] else [s[0]] + NonBracketPrefix(s[1..])
  }

  function LeftmostMatchFrom(s: string, from: nat): (r: Option<nat>)
    ensures r.Some? ==> from <= r.value && MatchesAt(s, r.value)
    ensures forall j: nat :: from <= j && (r.None? || j < r.value) ==> !MatchesAt(s, j)
    decreases |s| - from
  {
    if from + 8 > |s| then None
    else if MatchesAt(s, from) then Some(from)
    else LeftmostMatchFrom(s, from + 1)
  }

  /** `s.match(/struct ([^\[]+).*\/)?.[1]` */
  function StructHintCapture(s: string): (r: Option<string>)
    ensures r.None? <==> forall j: nat :: !MatchesAt(s, j)
    ensures r.Some? ==> exists i: nat :: IsLeftmostMatch(s, i) && IsCaptureAt(s, i, r.value)
  {
    match LeftmostMatchFrom(s, 0)
    case None => None
    case Some(i) =>
      var c := NonBracketPrefix(s[i + 7..]);
      assert IsLeftmostMatch(s, i) && IsCaptureAt(s, i, c);
      Some(c)
  }

  // ---------------------------------------------------------------------
  // JavaScript's String.prototype.split(".")
  // ---------------------------------------------------------------------

  function IndexOfDot(s: string): (i: nat)
    requires '.' in s
    ensures i < |s| && s[i] == '.' && '.' !in s[..i]
  {
    if s[0] == '.' then 0
    else
      assert '.' in s[1..];
      var i := IndexOfDot(s[1..]) + 1;
      assert s[..i] == [s[0]] + s[1..][..i - 1];
      i
  }

  /** `s.split(".")`: empty parts are kept and there is always at least one part. */
  function Split(s: string): (parts: seq<string>)
    ensures |parts| >= 1
    ensures forall k :: 0 <= k < |parts| ==> '.' !in parts[k]
    ensures Join(".", parts) == s
    decreases |s|
  {
    if '.' !in s then [s]
    else
      var i := IndexOfDot(s);
      var rest := Split(s[i + 1..]);
      assert s == s[..i] + "." + s[i + 1..];
      [s[..i]] + rest
  }

  /** `Split` is the only dot-free list of parts that joins back to `s`. */
  lemma {:induction false} SplitUnique(parts: seq<string>, s: string)
    requires |parts| >= 1
    requires forall k :: 0 <= k < |parts| ==> '.' !in parts[k]
    requires Join(".", parts) == s
    ensures Split(s) == parts
    decreases |parts|
  {
    if |parts| > 1 {
      var rest := Join(".", parts[1..]);
      assert s == parts[0] + "." + rest;
      assert '.' in s by { assert s[|parts[0]|] == '.'; }
      var i := IndexOfDot(s);
      assert s[..|parts[0]|] == parts[0];
      assert forall k :: 0 <= k < |parts[0]| ==> s[k] == parts[0][k];
      assert forall k :: 0 <= k < i ==> s[..i][k] == s[k];
      assert i == |parts[0]|;
      assert s[i + 1..] == rest;
      SplitUnique(parts[1..], rest);
    }
  }

  /** The dot-separated parts of a `struct …` hint, or `None` when there is no match. */
  function HintParts(internalType: Option<string>): Option<seq<string>> {
    match StructHintCapture(internalType.GetOr(""))
    case None => None
    case Some(c) => Some(Split(c))
  }

  function IdentifierOfParts(parts: seq<string>, policy: NamePolicy): Option<Identifier>
    requires |parts| >= 1
  {
    if |parts| == 1 then Some(Identifier(parts[0], None))
    else if |parts| == 2 || policy == FirstTwoParts then Some(Identifier(parts[1], Some(parts[0])))
    else None
  }

  /** `isStructParameter` */
  predicate IsStructParameter(p: Parameter) {
    IsTupleType(p.typ)
  }

  /** The classifier proper; total, it never fails. */
  function Classify(p: Parameter, policy: NamePolicy): (t: Type)
    ensures t.Struct? <==> IsTupleType(p.typ)
    ensures t.rawType == p.typ
    ensures t.Struct? ==> t.components == p.ComponentsOrEmpty()
    ensures t.Struct? && HintParts(p.internalType).None? ==> t.identifier.None?
    ensures t.Struct? && HintParts(p.internalType).Some? ==>
      t.identifier == IdentifierOfParts(HintParts(p.internalType).value, policy)
  {
    if !IsStructParameter(p) then Elementary(p.typ)
    else
      match HintParts(p.internalType)
      case None => Struct(p.typ, p.ComponentsOrEmpty(), None)
      case Some(parts) => Struct(p.typ, p.ComponentsOrEmpty(), IdentifierOfParts(parts, policy))
  }

  /** `toType` of packages/abi-to-sol/src/parameters.ts. */
  function ToType(p: Parameter): (t: Type)
    ensures t.Struct? <==> IsTupleType(p.typ)
    ensures !IsTupleType(p.typ) ==> t == Elementary(p.typ)
    ensures t.Struct? ==> t.rawType == p.typ && t.components == p.ComponentsOrEmpty()
    ensures t.Struct? ==> (t.identifier.None? <==> HintParts(p.internalType).None?)
    ensures t.Struct? && HintParts(p.internalType).Some? ==>
      var parts := HintParts(p.internalType).value;
      t.identifier.value == if |parts| == 1 then Identifier(parts[0], None)
                            else Identifier(parts[1], Some(parts[0]))
  {
    Classify(p, FirstTwoParts)
  }

  /** `generateType` of packages/abi-to-sol/src/declarations/visitor.ts. */
  function GenerateType(p: Parameter): (t: Type)
    ensures t.Struct? <==> IsTupleType(p.typ)
    ensures !IsTupleType(p.typ) ==> t == Elementary(p.typ)
    ensures t.Struct? ==> t.rawType == p.typ && t.components == p.ComponentsOrEmpty()
    ensures t.Struct? ==>
      (t.identifier.None? <==> HintParts(p.internalType).None? || |HintParts(p.internalType).value| > 2)
    ensures t.Struct? && t.identifier.Some? ==>
      var parts := HintParts(p.internalType).value;
      t.identifier.value == if |parts| == 1 then Identifier(parts[0], None)
                            else Identifier(parts[1], Some(parts[0]))
  {
    Classify(p, AtMostTwoParts)
  }

  // ---------------------------------------------------------------------
  // What a well-formed hint means
  // ---------------------------------------------------------------------

  /** A name the compiler could write into a hint: non-empty, no `.` and no `[`. */
  predicate PlainName(s: string) {
    s != [] && '.' !in s && '[' !in s
  }

  predicate HintableIdentifier(id: Identifier) {
    PlainName(id.name) && (id.container.Some? ==> '.' !in id.container.value && '[' !in id.container.value)
  }

  /** The hint the compiler writes for a struct: `struct Name` or `struct Container.Name`. */
  function StructHint(id: Identifier): string {
    "struct " + QualifiedName(id)
  }

  /** `Container.Name`, or the bare `Name` outside any container. */
  function QualifiedName(id: Identifier): string {
    if id.container.Some? then id.container.value + "." + id.name else id.name
  }

  /** The parts a qualified name is written from. */
  function NameParts(id: Identifier): (parts: seq<string>)
    ensures |parts| >= 1
  {
    if id.container.Some? then [id.container.value, id.name] else [id.name]
  }

  /** The capture of `struct <q><suffix>` is `q` when `q` has no `[` and `suffix` is empty or starts with `[`. */
  lemma CaptureOfHint(q: string, suffix: string)
    requires q != [] && '[' !in q
    requires suffix == [] || suffix[0] == '['
    ensures StructHintCapture("struct " + q + suffix) == Some(q)
  {
    var s := "struct " + q + suffix;
    assert s[..7] == "struct " && s[7] == q[0];
    assert MatchesAt(s, 0);
    var c := StructHintCapture(s).value;
    var i: nat :| IsLeftmostMatch(s, i) && IsCaptureAt(s, i, c);
    assert i == 0;
    assert s[7..7 + |q|] == q;
    assert forall k :: 0 <= k < |q| ==> s[7 + k] == q[k];
    assert forall k :: 0 <= k < |c| ==> s[7 + k] == c[k];
    assert 7 + |q| == |s| || s[7 + |q|] == '[';
    assert |c| == |q|;
  }

  /**
   * Reading the identifier back from a hint that starts with `struct …`,
   * followed by nothing or by an array suffix, gives the identifier that was
   * written, under both policies.
   */
  lemma HintRoundTrip(id: Identifier, suffix: string, policy: NamePolicy)
    requires HintableIdentifier(id)
    requires suffix == [] || suffix[0] == '['
    ensures HintParts(Some(StructHint(id) + suffix)).Some?
    ensures IdentifierOfParts(HintParts(Some(StructHint(id) + suffix)).value, policy) == Some(id)
  {
    HintPartsOfHint(id, suffix);
  }

  /** The parts read out of a hint are the parts the qualified name was written from. */
  lemma HintPartsOfHint(id: Identifier, suffix: string)
    requires HintableIdentifier(id)
    requires suffix == [] || suffix[0] == '['
    ensures HintParts(Some(StructHint(id) + suffix)) == Some(NameParts(id))
  {
    HintCapturesQualifiedName(id, suffix);
    QualifiedNameSplits(id);
  }

  /** The regular expression captures exactly the qualified name out of a hint. */
  lemma HintCapturesQualifiedName(id: Identifier, suffix: string)
    requires HintableIdentifier(id)
    requires suffix == [] || suffix[0] == '['
    ensures StructHintCapture(StructHint(id) + suffix) == Some(QualifiedName(id))
  {
    var q := QualifiedName(id);
    assert q != [] && '[' !in q;
    assert StructHint(id) + suffix == "struct " + q + suffix;
    CaptureOfHint(q, suffix);
  }

  /** Splitting a qualified name at dots gives back its parts. */
  lemma QualifiedNameSplits(id: Identifier)
    requires HintableIdentifier(id)
    ensures Split(QualifiedName(id)) == NameParts(id)
  {
    var parts := NameParts(id);
    if id.container.Some? {
      assert parts[1..] == [id.name];
      assert Join(".", parts) == QualifiedName(id);
    }
    SplitUnique(parts, QualifiedName(id));
  }
}
