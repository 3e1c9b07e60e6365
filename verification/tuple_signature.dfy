/**
 * The canonical, name-independent key of a tuple type.
 *
 * ASSUMPTION: the source obtains this key from an external library call
 * (`Codec.AbiData.Utils.abiTupleSignature`) whose text is not part of this
 * model. It is defined here as `(t1,t2,...)`, where a tuple component
 * contributes its own nested key followed by the array suffix of its type
 * (the part after `tuple`), and any other component contributes its raw type.
 * Component names and `internalType` hints take no part in it.
 */
module TupleSignature {
  import opened Common

  function Signature(components: seq<Parameter>): string
    decreases components, 1
  {
    "(" + Join(",", TypeSignatures(components)) + ")"
  }

  function TypeSignatures(components: seq<Parameter>): (r: seq<string>)
    ensures |r| == |components|
    decreases components, 0
  {
    if components == [] then []
    else [TypeSignature(components[0])] + TypeSignatures(components[1..])
  }

  function TypeSignature(c: Parameter): string
    decreases c
  {
    if !IsTupleType(c.typ) then c.typ
    else if c.components.Present? then Signature(c.components.items) + c.typ[5..]
    else "()" + c.typ[5..]
  }

  /** Two component lists with the same types, position by position, at every depth. */
  predicate SameShape(a: seq<Parameter>, b: seq<Parameter>)
    decreases a, 1
  {
    |a| == |b| && forall i :: 0 <= i < |a| ==> SameTypeShape(a[i], b[i])
  }

  predicate SameTypeShape(x: Parameter, y: Parameter)
    decreases x, 0
  {
    && x.typ == y.typ
    && (IsTupleType(x.typ) ==>
          && x.components.Present? == y.components.Present?
          && (x.components.Present? ==> SameShape(x.components.items, y.components.items)))
  }

  /** Renaming components, or changing their hints, leaves the key unchanged. */
  lemma {:induction false} SignatureNameIndependent(a: seq<Parameter>, b: seq<Parameter>)
    requires SameShape(a, b)
    ensures Signature(a) == Signature(b)
    decreases a, 1
  {
    TypeSignaturesNameIndependent(a, b);
  }

  lemma {:induction false} TypeSignaturesNameIndependent(a: seq<Parameter>, b: seq<Parameter>)
    requires SameShape(a, b)
    ensures TypeSignatures(a) == TypeSignatures(b)
    decreases a, 0
  {
    if a != [] {
      assert SameTypeShape(a[0], b[0]);
      if IsTupleType(a[0].typ) && a[0].components.Present? {
        SignatureNameIndependent(a[0].components.items, b[0].components.items);
      }
      assert SameShape(a[1..], b[1..]) by {
        forall i | 0 <= i < |a[1..]| ensures SameTypeShape(a[1..][i], b[1..][i]) {
          assert SameTypeShape(a[i + 1], b[i + 1]);
        }
      }
      TypeSignaturesNameIndependent(a[1..], b[1..]);
    }
  }

  /** The key of a tuple component is strictly shorter than its parent's key. */
  lemma NestedSignatureShorter(components: seq<Parameter>, i: nat)
    requires i < |components| && IsTupleType(components[i].typ)
    ensures |Signature(components[i].ComponentsOrEmpty())| < |Signature(components)|
  {
    var sigs := TypeSignatures(components);
    assert sigs[i] == TypeSignature(components[i]) by {
      TypeSignaturesAt(components, i);
    }
    JoinLength(",", sigs, i);
  }

  lemma TypeSignaturesAt(components: seq<Parameter>, i: nat)
    requires i < |components|
    ensures TypeSignatures(components)[i] == TypeSignature(components[i])
  {
    if i > 0 {
      TypeSignaturesAt(components[1..], i - 1);
    }
  }
}
