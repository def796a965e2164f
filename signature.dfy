/**
  The signature analyzer: the libffi argument slots needed to call a method
  through its COM vtable, derived from the method's signature. Only the part of
  the signature the tool inspects is kept: whether it declares parameters, and
  whether it has a return type and that type is a single-dimensional array.
 */
module SignatureAnalyzer {
  import opened Common

  /** The return type of a method, as far as the tool looks at it (`Type().is_szarray()`). */
  datatype ReturnSig = ReturnSig(isSzArray: bool)

  /** `method_signature`: `has_params()` and the optional `return_signature()`. */
  datatype MethodSig = MethodSig(hasParams: bool, ret: Option<ReturnSig>)

  const NotImplemented: Error := Invalid("not implemented")

  /** The signatures the tool can call: no parameters, and no array return. */
  predicate Supported(sig: MethodSig)
  {
    !sig.hasParams && !(sig.ret.Some? && sig.ret.value.isSzArray)
  }

  /** `get_method_ffi_types`: the receiver slot, then one out-pointer slot when the method returns a value. */
  function GetMethodFfiTypes(sig: MethodSig): (r: Result<seq<FfiType>>)
    ensures r.Ok? <==> Supported(sig)
    ensures r.Err? ==> r.error == NotImplemented
    ensures r.Ok? ==> |r.value| == (if sig.ret.Some? then 2 else 1)
    ensures r.Ok? ==> forall k :: 0 <= k < |r.value| ==> r.value[k] == Pointer
  {
    var argTypes := [Pointer];
    if sig.hasParams then Err(NotImplemented)
    else if sig.ret.Some? then
      if sig.ret.value.isSzArray then Err(NotImplemented) else Ok(argTypes + [Pointer])
    else Ok(argTypes)
  }

  /** `get_arg_types`, the older twin: the receiver slot is pushed before the signature is read. */
  method GetArgTypes(sig: MethodSig) returns (r: Result<seq<FfiType>>)
    ensures r == GetMethodFfiTypes(sig)
  {
    var argTypes: seq<FfiType> := [];
    argTypes := argTypes + [Pointer];
    assert argTypes == [Pointer];
    if sig.hasParams {
      return Err(NotImplemented);
    }
    if sig.ret.Some? {
      if sig.ret.value.isSzArray {
        return Err(NotImplemented);
      }
      argTypes := argTypes + [Pointer];
    }
    r := Ok(argTypes);
  }

  /** The slot list depends only on whether a value is returned, never on which
      type it is, so unrelated methods share one cached call descriptor. */
  lemma ShapeIsStructural(a: MethodSig, b: MethodSig)
    requires Supported(a) && Supported(b)
    requires a.ret.Some? == b.ret.Some?
    ensures GetMethodFfiTypes(a) == GetMethodFfiTypes(b)
  {
    var ra, rb := GetMethodFfiTypes(a).value, GetMethodFfiTypes(b).value;
    assert |ra| == |rb|;
    assert forall k :: 0 <= k < |ra| ==> ra[k] == rb[k];
  }
}
