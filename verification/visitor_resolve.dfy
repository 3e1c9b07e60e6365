/**
 * The post-pass of packages/abi-to-sol/src/declarations/visitor.ts that
 * turns collected candidates into declarations: `populateMissingIdentifiers`
 * names every anonymous candidate `S_n` with one counter, then
 * `populateSignatureDeclarations` and `populateComponents` give every
 * anonymous struct component the identifier of the first declaration under
 * its signature.
 */
module VisitorResolve {
  import opened Common
  import opened AssocList
  import opened Classifier
  import opened TupleSignature
  import opened VisitorMerge
  import opened VisitorCollect

  /** A struct declaration with its identifier; its components may still be anonymous. */
  datatype Declaration = Declaration(identifier: Identifier, components: seq<Component>)

  /** What `collectDeclarations` keeps after the post-pass. */
  datatype Catalogue = Catalogue(
    signatureDeclarations: AList<seq<Declaration>>,
    containerSignatures: AList<seq<string>>)

  // ---------------------------------------------------------------------
  // populateMissingIdentifiers: the S_n counter
  // ---------------------------------------------------------------------

  /** How many candidates lack an identifier. */
  function AnonymousCount(cs: seq<Candidate>): nat {
    if cs == [] then 0 else (if cs[0].identifier.None? then 1 else 0) + AnonymousCount(cs[1..])
  }

  lemma {:induction false} AnonymousCountConcat(xs: seq<Candidate>, ys: seq<Candidate>)
    ensures AnonymousCount(xs + ys) == AnonymousCount(xs) + AnonymousCount(ys)
    decreases |xs|
  {
    if xs == [] {
      assert xs + ys == ys;
    } else {
      assert (xs + ys)[1..] == xs[1..] + ys;
      AnonymousCountConcat(xs[1..], ys);
    }
  }

  /** `d` is what the naming step makes of `c`: same components, a named candidate keeps its identifier. */
  predicate Names(c: Candidate, d: Declaration) {
    && d.components == c.components
    && (c.identifier.Some? ==> d.identifier == c.identifier.value)
    && (c.identifier.None? ==> d.identifier.container.None?)
  }

  /**
   * The inner loop of `populateMissingIdentifiers` over one signature's
   * candidates, with the counter `n` threaded through: the counter advances
   * once per anonymous candidate.
   */
  function NameCandidates(cs: seq<Candidate>, n: nat): (r: (seq<Declaration>, nat))
    ensures |r.0| == |cs|
    ensures r.1 == n + AnonymousCount(cs)
    decreases |cs|
  {
    if cs == [] then ([], n)
    else
      var rest := NameCandidates(cs[1..], NextCounter(cs[0], n));
      ([NameOne(cs[0], n)] + rest.0, rest.1)
  }

  /** The declaration one candidate becomes when the counter stands at `n`. */
  function NameOne(c: Candidate, n: nat): Declaration {
    if c.identifier.Some? then Declaration(c.identifier.value, c.components)
    else Declaration(Identifier(SynthesizedName(n), None), c.components)
  }

  /** `index++` happens only for an anonymous candidate. */
  function NextCounter(c: Candidate, n: nat): nat {
    if c.identifier.Some? then n else n + 1
  }

  /**
   * Position `i` of the naming: a named candidate keeps its identifier, the
   * anonymous one is named after the number of anonymous candidates before it.
   */
  lemma {:induction false} NameCandidatesAt(cs: seq<Candidate>, n: nat, i: nat)
    requires i < |cs|
    ensures Names(cs[i], NameCandidates(cs, n).0[i])
    ensures cs[i].identifier.None? ==>
      NameCandidates(cs, n).0[i].identifier.name == SynthesizedName(n + AnonymousCount(cs[..i]))
    decreases i
  {
    if i > 0 {
      NameCandidatesAt(cs[1..], NextCounter(cs[0], n), i - 1);
      assert cs[..i] == [cs[0]] + cs[1..][..i - 1];
    }
  }

  /** Naming a concatenation names the first part, then the second with the counter where the first left it. */
  lemma {:induction false} NameCandidatesConcat(xs: seq<Candidate>, ys: seq<Candidate>, n: nat)
    ensures NameCandidates(xs + ys, n).0 ==
      NameCandidates(xs, n).0 + NameCandidates(ys, NameCandidates(xs, n).1).0
    ensures NameCandidates(xs + ys, n).1 == NameCandidates(ys, NameCandidates(xs, n).1).1
    decreases |xs|
  {
    if xs == [] {
      assert xs + ys == ys;
    } else {
      var n' := NextCounter(xs[0], n);
      var d := NameOne(xs[0], n);
      var zs := xs + ys;
      assert zs[0] == xs[0] && zs[1..] == xs[1..] + ys;
      NameCandidatesConcat(xs[1..], ys, n');
      var a := NameCandidates(xs[1..], n');
      var b := NameCandidates(ys, a.1);
      assert NameCandidates(zs, n).0 == [d] + (a.0 + b.0);
      assert NameCandidates(xs, n).0 == [d] + a.0;
    }
  }

  /** All names the counter synthesizes for one run are different from each other. */
  lemma SynthesizedNamesDistinct(cs: seq<Candidate>, n: nat, i: nat, j: nat)
    requires i < j < |cs| && cs[i].identifier.None? && cs[j].identifier.None?
    ensures NameCandidates(cs, n).0[i].identifier != NameCandidates(cs, n).0[j].identifier
  {
    NameCandidatesAt(cs, n, i);
    NameCandidatesAt(cs, n, j);
    AnonymousCountGrows(cs, i, j);
    SynthesizedNameInjective(n + AnonymousCount(cs[..i]), n + AnonymousCount(cs[..j]));
  }

  /** Passing an anonymous candidate raises the count of anonymous candidates seen. */
  lemma AnonymousCountGrows(cs: seq<Candidate>, i: nat, j: nat)
    requires i < j <= |cs| && cs[i].identifier.None?
    ensures AnonymousCount(cs[..i]) < AnonymousCount(cs[..j])
  {
    assert cs[..j] == cs[..i] + cs[i..j];
    AnonymousCountConcat(cs[..i], cs[i..j]);
    assert cs[i..j][0] == cs[i];
  }

  /**
   * The outer loop of `populateMissingIdentifiers`: signatures in insertion
   * order, each list in order, one counter for all of them.
   */
  function NameSignatures(sd: AList<seq<Candidate>>, n: nat): (r: (AList<seq<Declaration>>, nat))
    ensures Keys(r.0) == Keys(sd)
    ensures forall k :: 0 <= k < |sd| ==> |r.0[k].1| == |sd[k].1|
    ensures r.1 == n + AnonymousCount(Flatten(Values(sd)))
    ensures |Flatten(Values(r.0))| == |Flatten(Values(sd))|
    decreases |sd|
  {
    if sd == [] then ([], n)
    else
      var first := NameCandidates(sd[0].1, n);
      var rest := NameSignatures(sd[1..], first.1);
      var r := [(sd[0].0, first.0)] + rest.0;
      assert Values(sd) == [sd[0].1] + Values(sd[1..]);
      assert Values(r) == [first.0] + Values(rest.0);
      AnonymousCountConcat(sd[0].1, Flatten(Values(sd[1..])));
      (r, rest.1)
  }

  /** Across all signatures the naming is one run of the counter over the flattened candidates. */
  lemma {:induction false} NameSignaturesFlatten(sd: AList<seq<Candidate>>, n: nat)
    ensures Flatten(Values(NameSignatures(sd, n).0)) == NameCandidates(Flatten(Values(sd)), n).0
    decreases |sd|
  {
    if sd != [] {
      var first := NameCandidates(sd[0].1, n);
      var rest := NameSignatures(sd[1..], first.1);
      NameSignaturesFlatten(sd[1..], first.1);
      assert Values(sd) == [sd[0].1] + Values(sd[1..]);
      assert Values(NameSignatures(sd, n).0) == [first.0] + Values(rest.0);
      NameCandidatesConcat(sd[0].1, Flatten(Values(sd[1..])), n);
    }
  }

  /** Entry by entry, every candidate becomes a declaration that `Names` it. */
  lemma {:induction false} NameSignaturesAt(sd: AList<seq<Candidate>>, n: nat, k: nat, i: nat)
    requires k < |sd| && i < |sd[k].1|
    ensures Names(sd[k].1[i], NameSignatures(sd, n).0[k].1[i])
    decreases k
  {
    var first := NameCandidates(sd[0].1, n);
    if k == 0 {
      NameCandidatesAt(sd[0].1, n, i);
    } else {
      NameSignaturesAt(sd[1..], first.1, k - 1, i);
    }
  }

  /** Across all signatures, the counter never gives two anonymous candidates the same identifier. */
  lemma AllSynthesizedNamesDistinct(sd: AList<seq<Candidate>>, n: nat, i: nat, j: nat)
    requires i < j < |Flatten(Values(sd))|
    requires Flatten(Values(sd))[i].identifier.None? && Flatten(Values(sd))[j].identifier.None?
    ensures var named := Flatten(Values(NameSignatures(sd, n).0));
      named[i].identifier != named[j].identifier
  {
    NameSignaturesFlatten(sd, n);
    SynthesizedNamesDistinct(Flatten(Values(sd)), n, i, j);
  }

  // ---------------------------------------------------------------------
  // populateSignatureDeclarations / populateComponents: the back-fill
  // ---------------------------------------------------------------------

  /** A component is complete when a struct type carries its identifier. */
  predicate CompleteComponent(c: Component) {
    c.typ.Struct? ==> c.typ.identifier.Some?
  }

  /**
   * `populateComponents` for one component: elementary and identified ones
   * are kept; an anonymous struct takes the identifier of the first
   * declaration under its signature. Destructuring a missing list throws a
   * `TypeError`; an empty one gives the internal error.
   * DEVIATION: as written, the signature is computed from an unbound
   * `components`; the struct type's own components are meant and used here.
   */
  function PopulateComponent(c: Component, named: AList<seq<Declaration>>): (r: Result<Component>)
    ensures r.Success? ==> r.value.name == c.name && CompleteComponent(r.value)
    ensures CompleteComponent(c) ==> r == Success(c)
    ensures !CompleteComponent(c) ==>
      var ds := GetOr(named, Signature(c.typ.components), []);
      && (r.Failure? <==> ds == [])
      && (r.Success? ==> r.value.typ == c.typ.(identifier := Some(ds[0].identifier)))
  {
    if c.typ.Elementary? || c.typ.identifier.Some? then Success(c)
    else
      var signature := Signature(c.typ.components);
      match Get(named, signature)
      case None => Failure("TypeError: signatureDeclarations[signature] is not iterable")
      case Some(ds) =>
        if ds == [] then Failure("Internal error: signature not found in declarations")
        else Success(c.(typ := c.typ.(identifier := Some(ds[0].identifier))))
  }

  /** One declaration with its components back-filled; its identifier is kept. */
  function PopulateDeclaration(d: Declaration, named: AList<seq<Declaration>>): (r: Result<Declaration>)
    ensures r.Success? <==> forall i :: 0 <= i < |d.components| ==> PopulateComponent(d.components[i], named).Success?
    ensures r.Success? ==> r.value.identifier == d.identifier && |r.value.components| == |d.components|
    ensures r.Success? ==> forall i :: 0 <= i < |d.components| ==>
      r.value.components[i] == PopulateComponent(d.components[i], named).value
  {
    var cs :- MapResult(d.components, c => PopulateComponent(c, named));
    Success(Declaration(d.identifier, cs))
  }

  /** `populateSignatureDeclarations`: every list of `named`, against `named` itself. */
  function PopulateSignatureDeclarations(named: AList<seq<Declaration>>): (r: Result<AList<seq<Declaration>>>)
    ensures r.Success? <==> forall k, i :: 0 <= k < |named| && 0 <= i < |named[k].1| ==>
      PopulateDeclaration(named[k].1[i], named).Success?
    ensures r.Success? ==> Keys(r.value) == Keys(named)
    ensures r.Success? ==> forall k :: 0 <= k < |named| ==> |r.value[k].1| == |named[k].1|
    ensures r.Success? ==> forall k, i :: 0 <= k < |named| && 0 <= i < |named[k].1| ==>
      r.value[k].1[i] == PopulateDeclaration(named[k].1[i], named).value
  {
    MapResult(named, (e: (string, seq<Declaration>)) =>
      var ds :- MapResult(e.1, d => PopulateDeclaration(d, named));
      Success((e.0, ds)))
  }

  /** `populateMissingIdentifiers`: name from 0, then back-fill; container lists are kept. */
  function PopulateMissingIdentifiers(c: Collected): (r: Result<Catalogue>)
    ensures r.Success? ==> r.value.containerSignatures == c.containerSignatures
    ensures r.Success? ==> Keys(r.value.signatureDeclarations) == Keys(c.signatureDeclarations)
    ensures r.Success? ==> forall k :: 0 <= k < |c.signatureDeclarations| ==>
      |r.value.signatureDeclarations[k].1| == |c.signatureDeclarations[k].1|
  {
    var named := NameSignatures(c.signatureDeclarations, 0).0;
    var sd :- PopulateSignatureDeclarations(named);
    Success(Catalogue(sd, c.containerSignatures))
  }

  /** `collectDeclarations`: collect, then name and back-fill. */
  function CollectDeclarations(node: Node): Result<Catalogue> {
    PopulateMissingIdentifiers(Collect(node))
  }

  /**
   * `populateComponents` for one component as written: the signature of an
   * anonymous struct is computed from `components`, which is not bound in
   * that function, so reaching one throws.
   */
  function PopulateComponentAsWritten(c: Component, named: AList<seq<Declaration>>): (r: Result<Component>)
    ensures r.Failure? <==> c.typ.Struct? && c.typ.identifier.None?
    ensures r.Success? ==> r == PopulateComponent(c, named)
  {
    if c.typ.Elementary? || c.typ.identifier.Some? then Success(c)
    else Failure("ReferenceError: components is not defined")
  }

  /**
   * The discrepancy: an anonymous struct component whose signature has a
   * declaration fails as written, and is back-filled with that declaration's
   * identifier as intended.
   */
  lemma PopulateComponentAsWrittenThrows(c: Component, named: AList<seq<Declaration>>)
    requires c.typ.Struct? && c.typ.identifier.None?
    requires GetOr(named, Signature(c.typ.components), []) != []
    ensures PopulateComponentAsWritten(c, named).Failure?
    ensures PopulateComponent(c, named).Success?
    ensures PopulateComponent(c, named).value.typ.identifier ==
      Some(GetOr(named, Signature(c.typ.components), [])[0].identifier)
  {
  }
}
