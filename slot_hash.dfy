/**
  `std::hash<std::vector<ffi_type const*>>`: the hash the call-descriptor cache
  uses for its slot-list keys. `size_t` is taken to be 64 bits wide, so every
  operation wraps modulo 2^64; the hash of a single `ffi_type` address is a
  parameter (`hasher`), since it is the standard library's pointer hash.
 */
module SlotHash {
  import opened Common

  /** The constant added at each step (the 32-bit golden-ratio constant). */
  const GoldenRatio: bv64 := 0x9e3779b9

  /** `vec.size()` as a `size_t`. */
  function SizeT(n: nat): bv64
  {
    (n % 0x1_0000_0000_0000_0000) as bv64
  }

  /** One step of the loop: `seed ^= h + 0x9e3779b9 + (seed << 6) + (seed >> 2)`. */
  function Mix(seed: bv64, h: bv64): bv64
  {
    seed ^ (h + GoldenRatio + (seed << 6) + (seed >> 2))
  }

  /** The left fold of `Mix` over the element hashes, in vector order. */
  function Fold(seed: bv64, vec: seq<FfiType>, hasher: FfiType -> bv64): bv64
    decreases |vec|
  {
    if vec == [] then seed else Fold(Mix(seed, hasher(vec[0])), vec[1..], hasher)
  }

  /** The hash of a slot list: the fold seeded with its length. */
  function Hash(vec: seq<FfiType>, hasher: FfiType -> bv64): bv64
  {
    Fold(SizeT(|vec|), vec, hasher)
  }

  /** Folding over a concatenation folds over each part in turn. */
  lemma {:induction false} FoldAppend(seed: bv64, a: seq<FfiType>, b: seq<FfiType>, hasher: FfiType -> bv64)
    ensures Fold(seed, a + b, hasher) == Fold(Fold(seed, a, hasher), b, hasher)
    decreases |a|
  {
    if a != [] {
      assert (a + b)[0] == a[0];
      assert (a + b)[1..] == a[1..] + b;
      FoldAppend(Mix(seed, hasher(a[0])), a[1..], b, hasher);
    } else {
      assert a + b == b;
    }
  }

  /** The hash of a list grown by one slot: the old elements folded from the new
      length, then one more step for the new slot. */
  lemma HashSnoc(vec: seq<FfiType>, t: FfiType, hasher: FfiType -> bv64)
    ensures Hash(vec + [t], hasher) == Mix(Fold(SizeT(|vec| + 1), vec, hasher), hasher(t))
  {
    FoldAppend(SizeT(|vec| + 1), vec, [t], hasher);
  }

  /** `operator()`: the loop over the elements, updating `seed` in place. */
  method HashVector(vec: seq<FfiType>, hasher: FfiType -> bv64) returns (seed: bv64)
    ensures seed == Hash(vec, hasher)
  {
    seed := SizeT(|vec|);
    var i := 0;
    while i < |vec|
      invariant i <= |vec|
      invariant Fold(seed, vec[i..], hasher) == Hash(vec, hasher)
    {
      assert vec[i..][1..] == vec[i + 1..];
      seed := Mix(seed, hasher(vec[i]));
      i := i + 1;
    }
  }
}
