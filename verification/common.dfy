/**
 * Shared vocabulary of the ABI-to-Solidity struct resolver: the failure
 * wrappers, the ABI JSON input shapes (parameters and entries), struct
 * identifiers, and the small string helpers every stage uses.
 */
module Common {

  /** An optional value, for TypeScript's `field?: T`. */
  datatype Option<+T> = None | Some(value: T) {
    function GetOr(default: T): T {
      match this
      case Some(v) => v
      case None => default
    }
  }

  /** A thrown `Error` becomes a `Failure` carrying its message. */
  datatype Result<+T> = Success(value: T) | Failure(error: string) {
    predicate IsFailure() {
      Failure?
    }

    function PropagateFailure<U>(): Result<U>
      requires Failure?
    {
      Failure(error)
    }

    function Extract(): T
      requires Success?
    {
      value
    }
  }

  /**
   * `xs.map(f)` where `f` may throw: the first element whose `f` fails
   * decides the failure, otherwise every result in order.
   */
  function MapResult<A, B>(xs: seq<A>, f: A -> Result<B>): (r: Result<seq<B>>)
    ensures r.Success? <==> forall i :: 0 <= i < |xs| ==> f(xs[i]).Success?
    ensures r.Success? ==> |r.value| == |xs| && forall i :: 0 <= i < |xs| ==> r.value[i] == f(xs[i]).value
    ensures r.Failure? ==> exists i :: 0 <= i < |xs| && f(xs[i]).Failure? && f(xs[i]).error == r.error && forall j :: 0 <= j < i ==> f(xs[j]).Success?
  {
    if xs == [] then Success([])
    else
      match f(xs[0])
      case Failure(e) => Failure(e)
      case Success(y) =>
        var rest := MapResult(xs[1..], f);
        assert forall i :: 1 <= i < |xs| ==> xs[i] == xs[1..][i - 1];
        if rest.Failure? then
          var i :| 0 <= i < |xs[1..]| && f(xs[1..][i]).Failure? && f(xs[1..][i]).error == rest.error && forall j :: 0 <= j < i ==> f(xs[1..][j]).Success?;
          assert xs[i + 1] == xs[1..][i];
          Failure(rest.error)
        else Success([y] + rest.value)
  }

  /**
   * A struct's name and, when it is declared inside a contract or interface,
   * that container's name. Two identifiers are equal iff both fields are.
   */
  datatype Identifier = Identifier(name: string, container: Option<string>)

  /** The optional `components` field of an ABI parameter. */
  datatype Components = Absent | Present(items: seq<Parameter>)

  /**
   * One ABI JSON parameter (or tuple component): `type` is a primitive tag
   * or `tuple` followed by an optional array suffix, `internalType` is the
   * compiler's optional source-level type, e.g. `struct Foo.Bar[]`.
   */
  datatype Parameter = Parameter(
    name: string,
    typ: string,
    internalType: Option<string>,
    components: Components)
  {
    /** `parameter.components || []` */
    function ComponentsOrEmpty(): seq<Parameter> {
      if components.Present? then components.items else []
    }
  }

  /** The six kinds of ABI JSON entries; only functions have (optional) outputs. */
  datatype Entry =
    | FunctionEntry(inputs: seq<Parameter>, outputs: Option<seq<Parameter>>)
    | ConstructorEntry(inputs: seq<Parameter>)
    | EventEntry(inputs: seq<Parameter>)
    | ErrorEntry(inputs: seq<Parameter>)
    | FallbackEntry
    | ReceiveEntry

  /** What the collectors accept: a whole ABI, one entry, or one parameter. */
  datatype Node =
    | AbiNode(entries: seq<Entry>)
    | EntryNode(entry: Entry)
    | ParameterNode(parameter: Parameter)

  predicate StartsWith(s: string, prefix: string) {
    |prefix| <= |s| && s[..|prefix|] == prefix
  }

  /** `type.startsWith("tuple")`: the test that makes a parameter struct-shaped. */
  predicate IsTupleType(typ: string) {
    StartsWith(typ, "tuple")
  }

  /** Concatenation of a list of strings. */
  function Concat(ss: seq<string>): string {
    if ss == [] then "" else ss[0] + Concat(ss[1..])
  }

  /** JavaScript's `Array.prototype.join(sep)`. */
  function Join(sep: string, ss: seq<string>): string {
    if ss == [] then ""
    else if |ss| == 1 then ss[0]
    else ss[0] + sep + Join(sep, ss[1..])
  }

  lemma ConcatAppend(xs: seq<string>, ys: seq<string>)
    ensures Concat(xs + ys) == Concat(xs) + Concat(ys)
  {
    if xs != [] {
      assert (xs + ys)[1..] == xs[1..] + ys;
      ConcatAppend(xs[1..], ys);
    } else {
      assert xs + ys == ys;
    }
  }

  /** Every joined part is a contiguous piece of the joined string. */
  lemma JoinLength(sep: string, ss: seq<string>, i: nat)
    requires i < |ss|
    ensures |Join(sep, ss)| >= |ss[i]|
  {
    if i > 0 {
      JoinLength(sep, ss[1..], i - 1);
    }
  }

  function DigitChar(d: nat): char
    requires d < 10
  {
    "0123456789"[d]
  }

  /** Decimal rendering of a natural number, as in a JS template literal. */
  function NatToString(n: nat): (s: string)
    ensures |s| >= 1
    ensures n < 10 <==> |s| == 1
  {
    if n < 10 then [DigitChar(n)] else NatToString(n / 10) + [DigitChar(n % 10)]
  }

  lemma {:induction false} NatToStringInjective(a: nat, b: nat)
    requires NatToString(a) == NatToString(b)
    ensures a == b
  {
    if a >= 10 && b >= 10 {
      var sa, sb := NatToString(a), NatToString(b);
      assert sa[..|sa| - 1] == NatToString(a / 10);
      assert sb[..|sb| - 1] == NatToString(b / 10);
      NatToStringInjective(a / 10, b / 10);
      assert DigitChar(a % 10) == sa[|sa| - 1] == DigitChar(b % 10);
    }
  }

  /** The name `S_<n>` given to the n-th anonymous struct. */
  function SynthesizedName(n: nat): string {
    "S_" + NatToString(n)
  }

  lemma SynthesizedNameInjective(a: nat, b: nat)
    ensures SynthesizedName(a) == SynthesizedName(b) <==> a == b
  {
    if SynthesizedName(a) == SynthesizedName(b) {
      assert NatToString(a) == SynthesizedName(a)[2..];
      assert NatToString(b) == SynthesizedName(b)[2..];
      NatToStringInjective(a, b);
    }
  }
}
