/**
  The argument array `invoke` hands to `ffi_call`. The call itself (reading the
  vtable pointer, calling through the slot at `offset`, checking the `HRESULT`)
  is foreign code and is not modelled; only the layout of the array is.
 */
module Invoker {

  /** An element of `args`: the address of the local `vtable` (the receiver, the
      interface pointer itself), or the address of `parameters[index]`. */
  datatype ArgRef = VtableWord | ParameterAt(index: nat)

  /** The loop of `invoke` that fills `args`: the receiver first, then one entry
      per parameter, in order. */
  method InvokeArguments<P>(parameters: seq<P>) returns (args: seq<ArgRef>)
    ensures |args| == |parameters| + 1
    ensures args[0] == VtableWord
    ensures forall k :: 0 <= k < |parameters| ==> args[k + 1] == ParameterAt(k)
  {
    args := [VtableWord];
    var i := 0;
    while i < |parameters|
      invariant i <= |parameters| && |args| == i + 1
      invariant args[0] == VtableWord
      invariant forall k :: 0 <= k < i ==> args[k + 1] == ParameterAt(k)
    {
      args := args + [ParameterAt(i)];
      i := i + 1;
    }
  }
}
