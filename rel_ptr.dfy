/** `RelPtr<T, O>`: a `RawRelPtr<O>` together with the archived metadata of a possibly
    unsized referent `T`. The metadata type `M` and the capabilities that produce and
    interpret it (`resolve_metadata`, `pointer_metadata`) belong to the referent's
    type and are parameters here. */
module RelPtrs {
  import opened MachineWord
  import opened Offsets
  import opened RawRelPtrs

  /** `*const T` for a possibly unsized `T`, as `ptr_meta::from_raw_parts` builds it:
      an address and the pointer metadata. */
  datatype FatPtr<P> = FatPtr(address: int, metadata: P)

  class RelPtr<M> {
    /** The address of the whole `RelPtr`. */
    const base: int
    /** Where the `raw_ptr` field sits inside the struct (`out_field!(out.raw_ptr)`). */
    const rawPtrField: nat
    /** Where the `metadata` field sits inside the struct (`out_field!(out.metadata)`). */
    const metadataField: nat
    /** The `raw_ptr` field. */
    const rawPtr: RawRelPtr
    /** The `metadata` field; `Uninit` until `ResolveEmplace` writes it. */
    var metadata: MaybeUninit<M>

    /** The `raw_ptr` field lives `rawPtrField` bytes into the struct. */
    predicate Layout() {
      rawPtr.base == base + rawPtrField
    }

    /** An uninitialised `RelPtr` at address `base` whose offset type is `width`. */
    constructor (width: Width, base: int, rawPtrField: nat, metadataField: nat)
      ensures this.base == base && this.rawPtrField == rawPtrField && this.metadataField == metadataField
      ensures Layout() && fresh(rawPtr) && rawPtr.width == width && rawPtr.Valid()
      ensures rawPtr.offset == Uninit && metadata == Uninit
    {
      this.base := base;
      this.rawPtrField := rawPtrField;
      this.metadataField := metadataField;
      rawPtr := new RawRelPtr(width, base + rawPtrField);
      metadata := Uninit;
    }

    /** `RelPtr::resolve_emplace(from, to, value, metadata_resolver, out)`: emplaces the
        raw pointer at `from` plus its field offset; on failure returns that error
        before any metadata is resolved; otherwise writes the metadata resolved for
        `value` at `from` plus the metadata field offset. */
    static method ResolveEmplace<V, R>(from: Usize, to: Usize, value: V, metadataResolver: R,
                                       resolveMetadata: (V, Usize, R) -> M, out: RelPtr<M>)
      returns (r: Result<()>)
      requires from + out.rawPtrField <= USIZE_MAX && from + out.metadataField <= USIZE_MAX
      requires out.rawPtr.Valid()
      modifies out, out.rawPtr
      ensures out.rawPtr.Valid()
      ensures r.Err? <==> Between(out.rawPtr.width, from + out.rawPtrField, to).Err?
      ensures r.Err? ==> r.error == Between(out.rawPtr.width, from + out.rawPtrField, to).error
      ensures r.Err? ==> out.metadata == old(out.metadata) && out.rawPtr.offset == old(out.rawPtr.offset)
      ensures r.Ok? ==> out.rawPtr.offset == Init(Between(out.rawPtr.width, from + out.rawPtrField, to).value)
      ensures r.Ok? ==> out.metadata == Init(resolveMetadata(value, from + out.metadataField, metadataResolver))
      ensures r.Ok? && out.Layout() && out.base == from ==> out.rawPtr.AsPtr() == to
    {
      r := RawRelPtr.Emplace(from + out.rawPtrField, to, out.rawPtr);
      if r.IsFailure() {
        return;
      }
      out.metadata := Init(resolveMetadata(value, from + out.metadataField, metadataResolver));
    }

    /** `base()`: the raw pointer's base, the address of the `raw_ptr` field. */
    function Base(): (a: int)
      ensures Layout() ==> a == base + rawPtrField
    {
      rawPtr.base
    }

    /** `offset()`: the raw pointer's offset. */
    function Offset(): (d: Isize)
      reads rawPtr
      requires rawPtr.offset.Init?
      ensures d == rawPtr.Offset()
      ensures Base() + d == rawPtr.AsPtr()
    {
      rawPtr.Offset()
    }

    /** `metadata()`: the stored archived metadata. */
    function Metadata(): (m: M)
      reads this
      requires metadata.Init?
      ensures Init(m) == metadata
    {
      metadata.value
    }

    /** `as_ptr()` (and `as_mut_ptr()`): the raw pointer's address combined with the
        pointer metadata that `pointerMetadata` (`T::pointer_metadata`) derives from the
        stored metadata. */
    function AsPtr<P>(pointerMetadata: M -> P): (p: FatPtr<P>)
      reads this, rawPtr
      requires rawPtr.offset.Init? && metadata.Init?
      ensures p.address == rawPtr.AsPtr() && p.address == Base() + Offset()
      ensures p.metadata == pointerMetadata(Metadata())
    {
      FatPtr(rawPtr.AsPtr(), pointerMetadata(metadata.value))
    }
  }

  /** The typed round trip, position-independently: a `RelPtr` written for positions
      `from` and `to` with the metadata resolved for its value, and found at address
      `from + s`, yields a reference to address `to + s` whose pointer metadata is the
      one derived from that same metadata. */
  lemma ResolvedPointerRoundTrip<M, P>(p: RelPtr<M>, from: Usize, to: Usize, s: int, m: M, pointerMetadata: M -> P)
    requires p.Layout() && from + p.rawPtrField <= USIZE_MAX
    requires Between(p.rawPtr.width, from + p.rawPtrField, to).Ok?
    requires p.rawPtr.offset == Init(Between(p.rawPtr.width, from + p.rawPtrField, to).value)
    requires p.metadata == Init(m)
    requires p.base == from + s
    ensures p.AsPtr(pointerMetadata) == FatPtr(to + s, pointerMetadata(m))
  {
  }
}
