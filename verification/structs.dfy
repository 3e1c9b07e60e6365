/**
 * Completion of a parameter's type by signature lookup
 * (packages/abi-to-sol/src/structs.ts): a struct type without an identifier
 * borrows the identifier of the first known struct type with the same
 * tuple signature.
 */
module Structs {
  import opened Common
  import opened AssocList
  import opened Classifier
  import opened TupleSignature

  /** An entry of `signatureTypes`: a struct type whose identifier is known. */
  datatype CompleteStructType = CompleteStructType(
    rawType: string, components: seq<Parameter>, identifier: Identifier)

  /** `isCompleteType`: elementary, or a struct that carries an identifier. */
  predicate IsCompleteType(t: Type) {
    t.Elementary? || t.identifier.Some?
  }

  function ToCompleteType(p: Parameter, signatureTypes: AList<seq<CompleteStructType>>): (r: Result<Type>)
    ensures r.Success? ==> IsCompleteType(r.value)
    ensures IsCompleteType(ToType(p)) ==> r == Success(ToType(p))
    ensures !IsCompleteType(ToType(p)) ==>
      var candidates := GetOr(signatureTypes, Signature(p.ComponentsOrEmpty()), []);
      && (r.Failure? <==> candidates == [])
      && (r.Success? ==> r.value == ToType(p).(identifier := Some(candidates[0].identifier)))
  {
    var t := ToType(p);
    if IsCompleteType(t) then Success(t)
    else
      var signature := Signature(t.components);
      var candidates := GetOr(signatureTypes, signature, []);
      if candidates == [] then Failure("Unknown struct type with signature " + signature)
      else Success(t.(identifier := Some(candidates[0].identifier)))
  }

  /** A borrowed identifier belongs to a known struct type with the parameter's signature. */
  lemma BorrowedIdentifierIsKnown(p: Parameter, signatureTypes: AList<seq<CompleteStructType>>)
    requires ToCompleteType(p, signatureTypes).Success?
    requires !IsCompleteType(ToType(p))
    ensures exists m :: m in GetOr(signatureTypes, Signature(p.ComponentsOrEmpty()), [])
                   && Some(m.identifier) == ToCompleteType(p, signatureTypes).value.identifier
  {
    var candidates := GetOr(signatureTypes, Signature(p.ComponentsOrEmpty()), []);
    assert candidates[0] in candidates;
  }
}
