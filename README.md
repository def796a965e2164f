# Dynamic WinRT invocation: namespace index, call shapes and descriptor cache

This project models the sequential core of the `foo` tool in `src/tool/foo/main.cpp`. The tool reads
Windows metadata and calls WinRT methods through libffi, without generated bindings. The model covers:

- **The namespace index** (`namespace_index.dfy`). `get_namespace_map` turns the flat dotted namespace
  names reported by the metadata cache into a tree of `winrt_ns` nodes. `find_ns` and `get_ns` look
  up a dotted name in that tree. Namespace members are an opaque type parameter `M`. A
  default-constructed members value is the parameter `empty`.
- **The signature analyzer** (`signature.dfy`). `get_method_ffi_types` and its twin `get_arg_types`
  turn a method signature into the list of libffi argument slots. A signature is abstracted to
  "has parameters" and "optional return, possibly an `szarray`".
- **The slot-list hash** (`slot_hash.dfy`). This is the `std::hash<std::vector<ffi_type const*>>`
  specialisation, in 64-bit wrap-around arithmetic (`bv64`).
- **The call-descriptor cache** (`cif_cache.dfy`). `get_cif` memoises one prepared `ffi_cif` per slot
  list. `ffi_prep_cif` is an abstract function that returns a status.
- **The argument array of `invoke`** (`invoke.dfy`). Only its layout is modelled: the receiver first,
  then the parameters in order.
- **`separator`** (`separator.dfy`). A one-bit state machine. The model also covers the loop that uses
  it to write a generic type's argument list.

`common.dfy` holds the shared values: `Option`, `Result`, the two exception kinds the tool throws
(`xlang::throw_invalid` and `std::out_of_range`), the libffi types `ffi_type_pointer` and
`ffi_type_sint32`, `FFI_STDCALL`, and `ffi_prep_cif`'s status codes. It also defines `JoinWith`,
which puts a separator between items. The namespace lemmas use it with `"."` and the separator
loop uses it with `", "`.

Assumptions about code that `main.cpp` calls but does not define:

- `get_dotted_name_segments` (from `helpers.h`, which is not part of this model) is modelled as `Split`.
  It splits on every `'.'`, keeps empty pieces, and always yields at least one segment. With this
  reading, `find_ns` resolves a name along exactly the segments the builder created
  (`FindNsIsLookup`). It also means the builder never dereferences a null `curns`.
- The metadata cache reports namespaces from a `std::map`, so their names are distinct
  (`DistinctNames`). `Build` and `GetNamespaceMap` accept any list and let the last entry win. Only
  the name-level lemmas assume distinct names.
- `size_t` is 64 bits wide. The element hash `std::hash<ffi_type const*>` is a parameter.

Where the design description and the code differ, the model follows the code:

- A missing namespace makes `get_ns` throw `std::out_of_range` carrying the queried name, not a
  dedicated not-found error.
- The cache is an unsynchronised global. Nothing in the code makes it safe for concurrent callers.
- `invoke` checks the call's `HRESULT` with `winrt::check_hresult`, which fails only on negative
  codes, not on every nonzero code. This check is outside the model (see below).
- A proper prefix of a reported name that was never reported itself (for example `A.B` when only
  `A.B.C` is reported) is created by `operator[]` during the build, so `find_ns` finds it with
  default (empty) members instead of reporting it as not found (`UnreportedAncestor`).

## Model

| member | source | states |
|---|---|---|
| `NamespaceIndex.DotPos` | src/tool/foo/main.cpp:45 | `ns.find('.', 0)`: the result is the first dot's index, or the length (`npos`) when there is no dot; no earlier character is a dot |
| `NamespaceIndex.FindNsSingleSegment` | src/tool/foo/main.cpp:45-56 | a name without a dot resolves to that key's members at this level if the key is present, and to null otherwise; it never descends |
| `NamespaceIndex.FindNsDotted` | src/tool/foo/main.cpp:58-69 | for `head.rest` with an undotted `head`, only `head` is looked up at this level; if absent the result is null, otherwise `rest` is resolved in that node's sub-namespaces |
| `NamespaceIndex.FindNs` | src/tool/foo/main.cpp:43-70 | `find_ns` itself; it has no contract of its own. Its behaviour is stated by `FindNsSingleSegment`, `FindNsDotted` and `FindNsIsLookup` |
| `NamespaceIndex.GetNs` | src/tool/foo/main.cpp:72-81 | `get_ns` succeeds exactly when `find_ns` is non-null and returns the same members; otherwise it fails with `out_of_range` carrying the queried name |
| `NamespaceIndex.Split` | src/tool/foo/main.cpp:113 | the segments of a name: at least one, none containing a dot |
| `NamespaceIndex.JoinSplit` | src/tool/foo/main.cpp:113 | joining the segments of a name with dots gives the name back, so distinct names have distinct segment lists |
| `NamespaceIndex.SplitJoin` | src/tool/foo/main.cpp:113 | splitting dot-free segments joined with dots gives the segments back |
| `NamespaceIndex.SplitInjective` | src/tool/foo/main.cpp:113 | two names with the same segments are the same name |
| `NamespaceIndex.DotPosDotted` | src/tool/foo/main.cpp:45-60 | in `head.rest` with an undotted `head`, the first dot is right after `head` |
| `NamespaceIndex.FindNsIsLookup` | src/tool/foo/main.cpp:43-70 | `find_ns` on a name is the walk along that name's segments, one tree level per segment |
| `NamespaceIndex.NodeAtAppend` | src/tool/foo/main.cpp:58-69 | resolving `p + r` is resolving `p` and then `r` below the single node found at `p`; a missing node at `p` means null |
| `NamespaceIndex.Child` | src/tool/foo/main.cpp:115 | `(*nsmap)[s]`, the existing node or a default-constructed one; it has no contract of its own. Its effect on lookups is stated by `InsertLookup` |
| `NamespaceIndex.Insert` | src/tool/foo/main.cpp:110-120 | one pass of the outer loop as a value; it has no contract of its own. What every path resolves to afterwards is stated by `InsertLookup` |
| `NamespaceIndex.InsertLookup` | src/tool/foo/main.cpp:113-120 | after inserting one path, the path resolves to the new members; a proper prefix that did not exist resolves to a default node; every other path, including every other reported name, resolves as before |
| `NamespaceIndex.Build` | src/tool/foo/main.cpp:104-124 | the tree the builder returns, as a value; it has no contract of its own. Its lookups are stated by `BuildLookupNone`, `BuildLookupReported`, `BuildLookupDefault` and `BuildResolves`, and `GetNamespaceMap` is proved to return it |
| `NamespaceIndex.BuildLookupNone` | src/tool/foo/main.cpp:104-124 | in the built tree a segment path resolves to null exactly when it is not a prefix of any reported name's segments |
| `NamespaceIndex.BuildLookupReported` | src/tool/foo/main.cpp:104-124 | in the built tree each reported name's segments resolve to the members reported with it |
| `NamespaceIndex.BuildLookupDefault` | src/tool/foo/main.cpp:104-124 | a segment path that was never reported resolves to null or to default members |
| `NamespaceIndex.BuildResolves` | src/tool/foo/main.cpp:104-124 | build/lookup round trip by name: `find_ns` returns each reported namespace's own members; it returns null exactly when no reported name lies at or below the queried name; an unreported name resolves to null or default members |
| `NamespaceIndex.UnreportedAncestor` | src/tool/foo/main.cpp:113-118 | an intermediate namespace that was never reported is found, with default (empty) members, not null |
| `NamespaceIndex.GetNsAfterBuild` | src/tool/foo/main.cpp:72-81 | on the built tree, `get_ns` returns a reported namespace's members; for a name with no reported namespace at or below it, it fails with `out_of_range` naming it |
| `NamespaceIndex.SharedIntermediateNode` | src/tool/foo/main.cpp:113-118 | two reported names under a common proper prefix go through one existing node at that prefix, and each resolves below it to its own members |
| `NamespaceIndex.WalkLevels` | src/tool/foo/main.cpp:110-118 | the walk with `operator[]` visits, for each segment, the level reached through the earlier segments, with missing nodes created as default ones |
| `NamespaceIndex.InsertNamespace` | src/tool/foo/main.cpp:110-120 | the inner loop for one name gives the tree with that name's path created and its last node's members set |
| `NamespaceIndex.GetNamespaceMap` | src/tool/foo/main.cpp:104-124 | the loop over reported namespaces returns the tree whose lookups the `Build*` lemmas describe |
| `SignatureAnalyzer.GetMethodFfiTypes` | src/tool/foo/main.cpp:181-202 | succeeds exactly for methods without parameters and without an `szarray` return, and otherwise throws "not implemented"; on success every slot is a pointer (slot 0 is the receiver), with 1 slot without a return and 2 with one |
| `SignatureAnalyzer.GetArgTypes` | src/tool/foo/main.cpp:153-179 | `get_arg_types` gives the same result or error as `get_method_ffi_types` on every signature |
| `SignatureAnalyzer.ShapeIsStructural` | src/tool/foo/main.cpp:181-202 | two supported methods that agree on whether they return a value get the same slot list, whatever their types |
| `SlotHash.Mix` | src/tool/foo/main.cpp:215 | one step `seed ^= h + 0x9e3779b9 + (seed << 6) + (seed >> 2)` in 64-bit arithmetic; it has no contract of its own. `HashVector` is proved to apply it once per element |
| `SlotHash.Fold` | src/tool/foo/main.cpp:213-216 | the left fold of `Mix` over the element hashes in order; it has no contract of its own. Its behaviour on concatenations is stated by `FoldAppend` |
| `SlotHash.Hash` | src/tool/foo/main.cpp:208-219 | the fold seeded with the vector's length; it has no contract of its own. `HashVector` is proved to compute it, and `HashSnoc` states how it changes when a slot is appended |
| `SlotHash.FoldAppend` | src/tool/foo/main.cpp:213-216 | folding the mixing step over a concatenation folds over each part in turn |
| `SlotHash.HashSnoc` | src/tool/foo/main.cpp:212-216 | the hash of a list grown by one slot is the old elements folded from the new length, then one more mixing step |
| `SlotHash.HashVector` | src/tool/foo/main.cpp:208-219 | the loop returns the left fold of `seed ^= h(t) + 0x9e3779b9 + (seed << 6) + (seed >> 2)` over the elements in order, seeded with the length, modulo 2^64 |
| `CallDescriptorCache.CifCache.constructor` | src/tool/foo/main.cpp:223 | the cache starts empty |
| `CallDescriptorCache.Cif.constructor` | src/tool/foo/main.cpp:231-233 | a descriptor records its convention, slot count, return type and its own copy of the slot list |
| `CallDescriptorCache.CifCache.GetCif` | src/tool/foo/main.cpp:225-240 | on a hit, returns the stored descriptor and changes nothing; on a miss, calls `ffi_prep_cif` once; on failure it throws "ffi_prep_cif failure" and leaves the cache unchanged; on success it adds exactly one new descriptor under the key; every stored descriptor is `FFI_STDCALL` with `nargs` equal to the key length, its own copy of the key and a `sint32` return |
| `CallDescriptorCache.SharedDescriptor` | src/tool/foo/main.cpp:225-240 | two requests with equal slot lists get the very same descriptor (or the same error); a successful pair runs `ffi_prep_cif` at most once, and the cache grows by at most one entry |
| `Invoker.InvokeArguments` | src/tool/foo/main.cpp:245-253 | the argument array is first the address of the local `vtable`, which holds the receiver's interface pointer (`winrt::get_abi(instance)`), then the address of each parameter in order |
| `Separators.Writer.Write` | src/tool/foo/main.cpp:31 | `w.write(s)` appends `s` to the text written so far and changes nothing else |
| `Separators.Separator.constructor` | src/tool/foo/main.cpp:17-21 | a new separator writes ", " and has not been called yet |
| `Separators.Separator.Call` | src/tool/foo/main.cpp:23-33 | the first call writes nothing, every later call writes the separator, and afterwards `first` is false |
| `Separators.Separator.CallTimes` | src/tool/foo/main.cpp:23-33 | after `n` calls from state `first`, the separator has been written `n - 1` times (fresh) or `n` times, and `first` is false for `n >= 1` |
| `Separators.WriteGenericArgs` | src/tool/foo/main.cpp:323-330 | the argument list is written as "<", the arguments separated by ", ", then ">" |

## Left out

- `invoke` (src/tool/foo/main.cpp:242-257): the call through `ffi_call` into the vtable slot at
  `offset` is foreign code, and the `HRESULT` check (`winrt::check_hresult`) is WinRT runtime code.
  Only the layout of the argument array is modelled.
- `get_system_metadata`: directory enumeration, which is I/O.
- `get_guid`: the metadata reader's custom-attribute API, which is not part of this model.
- `get_activation_factory`, `winrt::init_apartment` and `as(...)`: WinRT runtime calls.
- `write_type_name`: its text output depends on the signature dispatch of the metadata reader.
  Only its generic-argument list loop is modelled (`WriteGenericArgs`), with each argument's text
  given as a string.
- `main`: demo orchestration and `printf` output.
- `ffi_prep_cif`: only its status is modelled. The stack size and flags it computes are not.
- The parsing of method signatures, which lives in the metadata reader, is not modelled.
- The buckets of `std::unordered_map` are not modelled. The cache is a map keyed by slot-list
  content, and `HashVector` models the hash on its own.
- `NamespaceIndex.InsertNamespace`: the source walks down with pointers (`nsmap`, `curns`) into
  nested maps and updates them in place. Dafny values have no interior pointers, so the model
  walks down and then writes each level back into its parent. The resulting tree is the same.
- `SlotHash.HashVector`: 32-bit builds, where `size_t` is 32 bits, are not modelled.
- Map keys are `std::string_view`s into the metadata cache's strings. Their lifetime is not modelled.
- Concurrency: the tool is single-threaded, and `cif_cache` is an unsynchronised global.
