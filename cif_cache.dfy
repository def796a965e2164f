/**
  The call-descriptor cache (`cif_cache` and `get_cif`): one prepared libffi
  call interface per distinct slot list, built on first use and shared by every
  later call with an equal slot list.

  `ffi_prep_cif` is a parameter (`PrepCif`): it is given the convention, the
  slot count, the return type and the slot list, and answers with a status.
  What it computes besides the status (stack size, flags) is not modelled.
 */
module CallDescriptorCache {
  import opened Common

  /** `ffi_prep_cif(&cif, abi, nargs, rtype, atypes)`, reduced to its status. */
  type PrepCif = (Abi, nat, FfiType, seq<FfiType>) -> FfiStatus

  const PrepFailure: Error := Invalid("ffi_prep_cif failure")

  /** A prepared `ffi_cif`. Its fields never change once it is built, and callers
      hold it by address, so it is an object: two descriptors are the same one
      exactly when they are the same reference. */
  class Cif {
    const abi: Abi
    const nargs: nat
    const rtype: FfiType
    /** The cache's own copy of the slot list the descriptor points into. */
    const argTypes: seq<FfiType>

    constructor (abi: Abi, nargs: nat, rtype: FfiType, argTypes: seq<FfiType>)
      ensures this.abi == abi && this.nargs == nargs && this.rtype == rtype && this.argTypes == argTypes
    {
      this.abi := abi;
      this.nargs := nargs;
      this.rtype := rtype;
      this.argTypes := argTypes;
    }
  }

  /** What `get_cif` prepares for a slot list: `FFI_STDCALL`, one argument per slot,
      those slots, and an `HRESULT` (`sint32`) return. */
  ghost predicate Describes(cif: Cif, key: seq<FfiType>)
  {
    cif.abi == Stdcall && cif.nargs == |key| && cif.argTypes == key && cif.rtype == SInt32
  }

  /** `cif_cache`: the descriptors by slot list, compared by content. */
  class CifCache {
    var entries: map<seq<FfiType>, Cif>
    /** How many times `ffi_prep_cif` has been called. */
    ghost var prepCalls: nat

    ghost predicate Valid()
      reads this
    {
      forall key :: key in entries ==> Describes(entries[key], key)
    }

    constructor ()
      ensures Valid() && entries == map[] && prepCalls == 0
    {
      entries := map[];
      prepCalls := 0;
    }

    /** `get_cif`: the descriptor stored under `argTypes`, prepared and stored first
        if there is none yet. A failed preparation throws and stores nothing. */
    method GetCif(argTypes: seq<FfiType>, prep: PrepCif) returns (r: Result<Cif>)
      requires Valid()
      modifies this
      ensures Valid()
      ensures argTypes in old(entries) ==>
        r == Ok(old(entries)[argTypes]) && entries == old(entries) && prepCalls == old(prepCalls)
      ensures argTypes !in old(entries) ==> prepCalls == old(prepCalls) + 1
      ensures argTypes !in old(entries) && prep(Stdcall, |argTypes|, SInt32, argTypes) != FfiOk ==>
        r == Err(PrepFailure) && entries == old(entries)
      ensures argTypes !in old(entries) && prep(Stdcall, |argTypes|, SInt32, argTypes) == FfiOk ==>
        r.Ok? && fresh(r.value) && entries == old(entries)[argTypes := r.value]
      ensures r.Ok? ==> argTypes in entries && r.value == entries[argTypes] && Describes(r.value, argTypes)
    {
      if argTypes !in entries {
        var copy := argTypes;
        prepCalls := prepCalls + 1;
        var status := prep(Stdcall, |copy|, SInt32, copy);
        if status != FfiOk {
          return Err(PrepFailure);
        }
        var cif := new Cif(Stdcall, |copy|, SInt32, copy);
        entries := entries[argTypes := cif];
      }
      r := Ok(entries[argTypes]);
    }
  }

  /** Two requests with equal slot lists, as for two methods of the same shape:
      `ffi_prep_cif` runs at most once, and both get the very same descriptor. */
  method SharedDescriptor(cache: CifCache, first: seq<FfiType>, second: seq<FfiType>, prep: PrepCif)
    returns (a: Result<Cif>, b: Result<Cif>)
    requires cache.Valid()
    requires first == second
    modifies cache
    ensures cache.Valid()
    ensures b == a
    ensures a.Ok? ==> cache.prepCalls <= old(cache.prepCalls) + 1
    ensures first in old(cache.entries) ==> cache.prepCalls == old(cache.prepCalls)
    ensures |cache.entries.Keys| <= |old(cache.entries).Keys| + 1
  {
    a := cache.GetCif(first, prep);
    b := cache.GetCif(second, prep);
  }
}
