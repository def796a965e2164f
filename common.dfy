/**
  Values shared by the components of the dynamic-invocation tool: optional and
  failing results, the errors the tool throws, and the handful of libffi type
  and calling-convention descriptors it uses.
 */
module Common {

  datatype Option<+T> = None | Some(value: T)

  /** A result or the exception the C++ code would have thrown instead. */
  datatype Result<+T> = Ok(value: T) | Err(error: Error)

  /** The exceptions thrown by the tool. */
  datatype Error =
    | Invalid(message: string)   // xlang::throw_invalid(message)
    | OutOfRange(what: string)   // std::out_of_range{what}

  /** The libffi type descriptors the tool refers to (`ffi_type_pointer`, `ffi_type_sint32`).
      Each stands for one static `ffi_type` object, so comparing kinds is comparing those addresses. */
  datatype FfiType = Pointer | SInt32

  /** The calling conventions the tool asks libffi for (only `FFI_STDCALL`). */
  datatype Abi = Stdcall

  /** The outcome codes of `ffi_prep_cif`. */
  datatype FfiStatus = FfiOk | FfiBadTypedef | FfiBadAbi | FfiBadArgType

  /** The items with `sep` between each two: the list a `separator` writes, and
      the dotted name that joining namespace segments gives. */
  function JoinWith(items: seq<string>, sep: string): string
  {
    if |items| == 0 then ""
    else if |items| == 1 then items[0]
    else JoinWith(items[..|items| - 1], sep) + sep + items[|items| - 1]
  }

  /** Joining from the front: the first item, the separator, then the rest joined. */
  lemma {:induction false} JoinWithCons(first: string, rest: seq<string>, sep: string)
    requires |rest| >= 1
    ensures JoinWith([first] + rest, sep) == first + sep + JoinWith(rest, sep)
    decreases |rest|
  {
    var items := [first] + rest;
    if |rest| > 1 {
      var n := |rest| - 1;
      assert items[..|items| - 1] == [first] + rest[..n];
      JoinWithCons(first, rest[..n], sep);
    } else {
      assert items[..|items| - 1] == [first];
    }
  }
}
