# rkyv relative pointers, modelled in Dafny

rkyv archives hold pointers that do not store absolute addresses. Each one stores the
byte distance from its own location to its referent, so the archive can be mapped at
any address and still be used in place. This project models the core of
`rkyv::rel_ptr`:

- `signed_offset`: the overflow-checked signed distance between two archive
  positions (`MachineWord`, `Offsets`).
- The `Offset` implementations that `impl_offset!` generates for
  `i8`/`i16`/`i32`/`i64`/`u8`/`u16`/`u32`/`u64`: `between` narrows the distance into
  the storage width and `to_isize` widens it back (`Offsets`).
- `RawRelPtr<O>`: one offset slot, written in place by `emplace` and resolved by
  `offset()` and `as_ptr()` (`RawRelPtrs`).
- `RelPtr<T, O>`: a raw pointer plus the archived metadata of a possibly unsized
  referent, written by `resolve_emplace` (`RelPtrs`).

The target is fixed at 64 bits. `usize` is `[0, 2^64)` and `isize` is
`[-2^63, 2^63 - 1]`. `overflowing_sub` and the two `as` casts are written out as
arithmetic modulo 2^64. The ranges of the eight storage widths are defined from their
bit counts, exactly as Rust defines its primitive integer types.

Addresses are unbounded integers. A pointer's own address is the `base` constant of its
class, which stands for `base()` and `base_mut()`. `as_mut_ptr()` resolves to the same
address as `as_ptr()`. The out-parameter `&mut MaybeUninit<Self>` is a class instance,
and its fields are either `Uninit` or `Init(v)`. `emplace` and `resolve_emplace` are
static methods that write into that instance.

The referent type `T` supplies three things that this model takes as parameters:

- its archived metadata, the type parameter `M` of `RelPtr`;
- `resolve_metadata`, a function argument of `ResolveEmplace`;
- `pointer_metadata`, a function argument of `AsPtr`.

`ptr_meta::from_raw_parts` is the constructor of the `FatPtr` datatype.

One point is stated more precisely than the component's prose. `to_isize` is
`self as isize`. For `u64` that cast wraps every value above `isize::MAX`, so widening is
lossless only for offsets that `between` produced. The model keeps the wrap
(`Offsets.ToIsize`) and proves the round trip for those offsets
(`Offsets.BetweenRoundTrip`).

## Model

| member | source | states |
|---|---|---|
| `MachineWord.OverflowingSub` | rkyv/src/rel_ptr/mod.rs:61 | the wrapped difference has the same 64 bits as `a - b`; the flag is set exactly when `a < b` |
| `MachineWord.UsizeAsIsize` | rkyv/src/rel_ptr/mod.rs:63 | `x as isize` keeps the 64 bits and is negative exactly when `x > isize::MAX` |
| `MachineWord.IsizeAsUsize` | rkyv/src/rel_ptr/mod.rs:62 | `x as usize` keeps the 64 bits and exceeds `isize::MAX` exactly when `x < 0` |
| `MachineWord.CastsRoundTrip` | rkyv/src/rel_ptr/mod.rs:62-63 | the two casts are inverse bijections |
| `MachineWord.WordConstantsAreBitRanges` | rkyv/src/rel_ptr/mod.rs:107-108 | on the 64-bit target the `usize`/`isize` constants are the 64-bit unsigned and signed ranges |
| `Offsets.SignedOffset` | rkyv/src/rel_ptr/mod.rs:60-67 | `Ok` exactly when the mathematical `to - from` lies in `isize`, and then its value is `to - from`; otherwise `Err(IsizeOverflow)` |
| `Offsets.SignedOffsetDocumentedExamples` | rkyv/src/rel_ptr/mod.rs:50-57 | the eight documented cases, including that `isize::MIN` is reachable backwards and one step further is not |
| `Offsets.WidthBounds` | rkyv/src/rel_ptr/mod.rs:103-114 | the bit-defined range of each width is that of the primitive type (`i8` is -128..127, `u64` is 0..2^64-1, ...) |
| `Offsets.WidthsWidenIntoIsize` | rkyv/src/rel_ptr/mod.rs:95-97 | every width except `u64` fits inside `isize`; `u64` reaches up to `usize::MAX` |
| `Offsets.TryNarrow` | rkyv/src/rel_ptr/mod.rs:91 | `try_from` succeeds exactly when the distance is in the width's range, keeps the value, and otherwise maps to `ExceedsStorageRange` |
| `Offsets.Between` | rkyv/src/rel_ptr/mod.rs:87-92 | `Ok` exactly when the distance fits both `isize` and the width, holding `to - from`; the error is `IsizeOverflow` exactly when the distance does not fit `isize`, otherwise `ExceedsStorageRange` |
| `Offsets.ToIsize` | rkyv/src/rel_ptr/mod.rs:95-98 | `self as isize` keeps the bits and is exact for every stored value that fits `isize` |
| `Offsets.BetweenRoundTrip` | rkyv/src/rel_ptr/mod.rs:87-98 | widening an offset built by `between` gives back exactly `to - from`, so `from + offset == to` |
| `Offsets.UnsignedRejectsBackward` | rkyv/src/rel_ptr/mod.rs:109-114 | for `u8`/`u16`/`u32`/`u64`, `between` fails whenever `to < from` |
| `Offsets.ErrorKindsAreActionable` | rkyv/src/rel_ptr/mod.rs:19-26 | `ExceedsStorageRange` for one width means `i64` succeeds; `IsizeOverflow` for one width means every width fails with `IsizeOverflow` |
| `Offsets.BetweenExamples` | rkyv/src/rel_ptr/mod.rs:87-92 | `i8` from 100 to 150 is `Ok(50)`; from 100 to 400 is `ExceedsStorageRange`; `u8` backwards is `ExceedsStorageRange`; a distance of `isize::MAX + 1` is `IsizeOverflow` for every width |
| `RawRelPtrs.RawRelPtr.constructor` | rkyv/src/rel_ptr/mod.rs:129-132 | an uninitialised slot of offset type `O` at a given address |
| `RawRelPtrs.RawRelPtr.Emplace` | rkyv/src/rel_ptr/mod.rs:142-147 | on success the slot holds `between(from, to)`, and `offset()` is `to - from` and `as_ptr()` is `base + (to - from)`; on error it returns `between`'s error and leaves the slot unwritten |
| `RawRelPtrs.RawRelPtr.Offset` | rkyv/src/rel_ptr/mod.rs:163-165 | the stored offset widened to `isize`, equal to the stored value whenever that fits |
| `RawRelPtrs.RawRelPtr.AsPtr` | rkyv/src/rel_ptr/mod.rs:169-182 | the resolved address lies `offset()` bytes from the pointer's own address |
| `RawRelPtrs.PositionIndependence` | rkyv/src/rel_ptr/mod.rs:149-173 | a pointer emplaced for positions `from` and `to` and placed at address `from + s` resolves to `to + s`, for every shift `s` |
| `RelPtrs.RelPtr.constructor` | rkyv/src/rel_ptr/mod.rs:212-216 | an uninitialised `RelPtr` whose `raw_ptr` field sits at its field offset |
| `RelPtrs.RelPtr.ResolveEmplace` | rkyv/src/rel_ptr/mod.rs:228-240 | emplaces the raw pointer at `from + fp`; on error returns it with neither field written; otherwise writes the metadata resolved for `value` at `from + fp'`, and with `out` at `from` the pointer resolves to `to` |
| `RelPtrs.RelPtr.Base` | rkyv/src/rel_ptr/mod.rs:244-252 | the raw pointer's base, the address of the `raw_ptr` field |
| `RelPtrs.RelPtr.Offset` | rkyv/src/rel_ptr/mod.rs:256-258 | delegates to the raw pointer, and adding it to `base()` gives the raw pointer's target |
| `RelPtrs.RelPtr.Metadata` | rkyv/src/rel_ptr/mod.rs:262-264 | returns the stored metadata |
| `RelPtrs.RelPtr.AsPtr` | rkyv/src/rel_ptr/mod.rs:268-280 | the address is the raw pointer's `as_ptr()` (`base() + offset()`), and the shape is `pointer_metadata` of the stored metadata |
| `RelPtrs.ResolvedPointerRoundTrip` | rkyv/src/rel_ptr/mod.rs:228-270 | a `RelPtr` written for `from`/`to` with metadata `m` and placed at `from + s` yields the reference `(to + s, pointer_metadata(m))` |

## Left out

- Raw pointers are not modelled. This covers `self as *const Self`, `pointer::offset`, `MaybeUninit::as_mut_ptr` and `ptr::addr_of_mut!`. Addresses are unbounded integers, so the undefined behaviour of a `pointer::offset` that overflows is not modelled.
- `ArchiveUnsized::resolve_metadata`, `ArchivePointee::pointer_metadata` and `ptr_meta::from_raw_parts` are left abstract. Their bodies belong to the referent types. The first two are function parameters, and the last is the `FatPtr` constructor.
- The `to_archived!` macro and `Archived<T>` are taken as the identity. Their byte order is not part of this model.
- `#[cfg(target_pointer_width)]` gating is not modelled. The model fixes a 64-bit target, where all eight widths exist.
- `Display`, `Debug` and `std::error::Error` are not modelled. They only format output.
- `PhantomPinned` and `PhantomData` are not modelled. They carry no data.
- `RelPtrError` is not modelled. Nothing in the file uses it.
- The `validation` submodule is not part of this model.
- Concurrent emplacement by several writers is not modelled.
- The safety preconditions are not requirements in the model. One is "`out` is located at `from`" and the other is "`metadata_resolver` belongs to `value`". The model states what follows when they hold (`Emplace`, `ResolveEmplace`, `PositionIndependence`, `ResolvedPointerRoundTrip`).
- RelPtrs.RelPtr.ResolveEmplace: it requires `from + fp` to fit in `usize`, for both field offsets. In the source, an overflowing `from + fp` panics in debug builds and wraps in release builds.
