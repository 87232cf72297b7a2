/** `RawRelPtr<O>`: an untyped pointer that stores one offset and resolves it against
    its own address. Addresses are integers; the pointer's own address is its `base`. */
module RawRelPtrs {
  import opened MachineWord
  import opened Offsets

  /** `MaybeUninit<T>`: a caller-owned slot that is still uninitialised or holds a `T`. */
  datatype MaybeUninit<+T> = Uninit | Init(value: T)

  class RawRelPtr {
    /** The offset type `O`. */
    const width: Width
    /** The pointer's own address (`self as *const Self`): what `base()` returns and
        the zero point its offset is added to. */
    const base: int
    /** The `offset` field; `Uninit` until `Emplace` writes it. */
    var offset: MaybeUninit<Offset>

    /** A written offset has the pointer's offset type. */
    ghost predicate Valid()
      reads this
    {
      offset.Init? ==> offset.value.width == width
    }

    /** An uninitialised slot for a pointer with offset type `width` at address `base`. */
    constructor (width: Width, base: int)
      ensures this.width == width && this.base == base && offset == Uninit
      ensures Valid()
    {
      this.width := width;
      this.base := base;
      offset := Uninit;
    }

    /** `RawRelPtr::emplace(from, to, out)`: writes `Offset::between(from, to)` into
        `out`, or returns its error and leaves `out` unwritten. */
    static method Emplace(from: Usize, to: Usize, out: RawRelPtr) returns (r: Result<()>)
      requires out.Valid()
      modifies out
      ensures out.Valid()
      ensures r.Err? <==> Between(out.width, from, to).Err?
      ensures r.Err? ==> r.error == Between(out.width, from, to).error && out.offset == old(out.offset)
      ensures r.Ok? ==> out.offset == Init(Between(out.width, from, to).value)
      ensures r.Ok? ==> out.Offset() == to - from && out.AsPtr() == out.base + (to - from)
    {
      var offset :- Between(out.width, from, to);
      out.offset := Init(offset);
      r := Ok(());
    }

    /** `offset()`: the stored offset widened to `isize`; exact whenever the stored
        value fits `isize`. */
    function Offset(): (d: Isize)
      reads this
      requires offset.Init?
      ensures offset.value.value <= ISIZE_MAX ==> d == offset.value.value
    {
      ToIsize(offset.value)
    }

    /** `as_ptr()` (and `as_mut_ptr()`): the referent's address, `offset()` bytes
        away from the pointer's own address. */
    function AsPtr(): (a: int)
      reads this
      requires offset.Init?
      ensures a - base == Offset()
    {
      base + Offset()
    }
  }

  /** Position independence: a pointer emplaced for positions `from` and `to`,
      found at address `from + s` once the archive is placed, resolves to `to + s`. */
  lemma PositionIndependence(p: RawRelPtr, from: Usize, to: Usize, s: int)
    requires Between(p.width, from, to).Ok?
    requires p.offset == Init(Between(p.width, from, to).value)
    requires p.base == from + s
    ensures p.AsPtr() == to + s
  {
  }
}
