/** The offset arithmetic of rkyv's relative pointers: the overflow-checked signed
    distance between two archive positions (`signed_offset`), and the family of
    fixed-width offsets that narrow that distance into storage (`Offset::between`)
    and widen it back (`Offset::to_isize`). */
module Offsets {
  import opened MachineWord

  /** The two ways an offset can fail to be built. */
  datatype OffsetError =
    | IsizeOverflow        // the distance does not fit `isize` at all
    | ExceedsStorageRange  // the distance fits `isize` but not the chosen offset width

  /** `Result<T, OffsetError>`, usable with `:-` the way the source uses `?`. */
  datatype Result<+T> = Ok(value: T) | Err(error: OffsetError) {
    predicate IsFailure() {
      Err?
    }

    function PropagateFailure<U>(): Result<U>
      requires Err?
    {
      Err(error)
    }

    function Extract(): T
      requires Ok?
    {
      value
    }
  }

  /** `signed_offset(from, to)`: the distance `to - from` as an `isize`, reported as
      `IsizeOverflow` instead of wrapping. It is computed the way the source does,
      from the wrapped difference and the wrap flag; its contract ties it to the
      mathematical difference. */
  function SignedOffset(from: Usize, to: Usize): (r: Result<Isize>)
    ensures r.Ok? <==> InIsize(to - from)
    ensures r.Ok? ==> r.value == to - from
    ensures r.Err? ==> r.error == IsizeOverflow
  {
    var (result, overflow) := OverflowingSub(to, from);
    if (!overflow && result <= IsizeAsUsize(ISIZE_MAX)) || (overflow && result >= IsizeAsUsize(ISIZE_MIN)) then
      Ok(UsizeAsIsize(result))
    else
      Err(IsizeOverflow)
  }

  /** The examples documented on `signed_offset`, including the two's-complement
      asymmetry: `isize::MIN` is reachable going backwards, one step past it is not. */
  lemma SignedOffsetDocumentedExamples()
    ensures SignedOffset(0, 1) == Ok(1)
    ensures SignedOffset(1, 0) == Ok(-1)
    ensures SignedOffset(0, ISIZE_MAX) == Ok(ISIZE_MAX)
    ensures SignedOffset(ISIZE_MAX, 0) == Ok(-ISIZE_MAX)
    ensures SignedOffset(0, ISIZE_MAX + 1) == Err(IsizeOverflow)
    ensures SignedOffset(ISIZE_MAX + 1, 0) == Ok(ISIZE_MIN)
    ensures SignedOffset(0, ISIZE_MAX + 2) == Err(IsizeOverflow)
    ensures SignedOffset(ISIZE_MAX + 2, 0) == Err(IsizeOverflow)
  {
  }

  /** The storage widths `impl_offset!` is instantiated for on a 64-bit target;
      the type parameter `O` of a relative pointer picks one of them. */
  datatype Width = I8 | I16 | I32 | I64 | U8 | U16 | U32 | U64 {

    predicate IsSigned() {
      I8? || I16? || I32? || I64?
    }

    /** The number of bits of the width's primitive integer type. */
    function Bits(): nat {
      match this
      case I8 | U8 => 8
      case I16 | U16 => 16
      case I32 | U32 => 32
      case I64 | U64 => 64
    }

    /** The least value of the width's primitive integer type: -2^(bits-1) or 0. */
    function Min(): int {
      if IsSigned() then -Pow2(Bits() - 1) else 0
    }

    /** The greatest value of the width's primitive integer type: 2^(bits-1)-1 or 2^bits-1. */
    function Max(): int {
      if IsSigned() then Pow2(Bits() - 1) - 1 else Pow2(Bits()) - 1
    }

    predicate Contains(x: int) {
      Min() <= x <= Max()
    }
  }

  /** The bit-defined ranges are those of Rust's primitive integer types. */
  lemma WidthBounds(w: Width)
    ensures w == I8 ==> w.Min() == -0x80 && w.Max() == 0x7F
    ensures w == I16 ==> w.Min() == -0x8000 && w.Max() == 0x7FFF
    ensures w == I32 ==> w.Min() == -0x8000_0000 && w.Max() == 0x7FFF_FFFF
    ensures w == I64 ==> w.Min() == ISIZE_MIN && w.Max() == ISIZE_MAX
    ensures w == U8 ==> w.Min() == 0 && w.Max() == 0xFF
    ensures w == U16 ==> w.Min() == 0 && w.Max() == 0xFFFF
    ensures w == U32 ==> w.Min() == 0 && w.Max() == 0xFFFF_FFFF
    ensures w == U64 ==> w.Min() == 0 && w.Max() == USIZE_MAX
  {
    Pow2Table();
  }

  /** Every width but `u64` widens into `isize` without loss; `u64` is the one width
      whose upper half lies beyond `isize::MAX`. */
  lemma WidthsWidenIntoIsize(w: Width)
    ensures w != U64 <==> InIsize(w.Min()) && InIsize(w.Max())
    ensures w == U64 ==> w.Min() == 0 && w.Max() == USIZE_MAX
  {
    WidthBounds(w);
  }

  /** A stored offset: a value of the width's primitive integer type. */
  datatype RawOffset = RawOffset(width: Width, value: int)
  type Offset = o: RawOffset | o.width.Contains(o.value) witness RawOffset(I8, 0)

  /** `<$ty>::try_from(d)` for an `isize` `d`, with every failure mapped to
      `ExceedsStorageRange`. */
  function TryNarrow(w: Width, d: Isize): (r: Result<Offset>)
    ensures r.Ok? <==> w.Contains(d)
    ensures r.Ok? ==> r.value.width == w && r.value.value == d
    ensures r.Err? ==> r.error == ExceedsStorageRange
  {
    if w.Contains(d) then Ok(RawOffset(w, d)) else Err(ExceedsStorageRange)
  }

  /** `Offset::between(from, to)` for the width `w`: the signed distance, checked
      first against `isize` and then against the width. */
  function Between(w: Width, from: Usize, to: Usize): (r: Result<Offset>)
    ensures r.Ok? <==> InIsize(to - from) && w.Contains(to - from)
    ensures r.Ok? ==> r.value == RawOffset(w, to - from)
    ensures r.Err? ==> (r.error == IsizeOverflow <==> !InIsize(to - from))
  {
    var d :- SignedOffset(from, to);
    TryNarrow(w, d)
  }

  /** `Offset::to_isize`: `self as isize`. Every width but `u64` is widened exactly;
      a `u64` above `isize::MAX` would wrap, which never happens to an offset that
      `Between` produced (see `BetweenRoundTrip`). */
  function ToIsize(o: Offset): (r: Isize)
    ensures SameBits(r, o.value)
    ensures o.value <= ISIZE_MAX ==> r == o.value
  {
    WidthsWidenIntoIsize(o.width);
    if o.width == U64 then UsizeAsIsize(o.value) else o.value
  }

  /** Narrowing then widening gives back the exact distance, for every width. */
  lemma BetweenRoundTrip(w: Width, from: Usize, to: Usize)
    requires Between(w, from, to).Ok?
    ensures ToIsize(Between(w, from, to).value) == to - from
    ensures from + ToIsize(Between(w, from, to).value) == to
  {
  }

  /** An unsigned width can only point forwards: a negative distance never converts. */
  lemma UnsignedRejectsBackward(w: Width, from: Usize, to: Usize)
    requires !w.IsSigned() && to < from
    ensures Between(w, from, to).Err?
  {
  }

  /** The two errors are distinct in what they ask of the caller:
      `ExceedsStorageRange` is cured by a wider width (`i64` always suffices),
      `IsizeOverflow` by no width at all. */
  lemma ErrorKindsAreActionable(w: Width, other: Width, from: Usize, to: Usize)
    ensures Between(w, from, to) == Err(ExceedsStorageRange) ==> Between(I64, from, to).Ok?
    ensures Between(w, from, to) == Err(IsizeOverflow) ==> Between(other, from, to) == Err(IsizeOverflow)
  {
    WidthBounds(I64);
  }

  /** Worked cases for the 8-bit signed width (range -128..127) and for a distance
      no width can hold. */
  lemma BetweenExamples(w: Width)
    ensures Between(I8, 100, 150) == Ok(RawOffset(I8, 50))
    ensures Between(I8, 100, 400) == Err(ExceedsStorageRange)
    ensures Between(U8, 150, 100) == Err(ExceedsStorageRange)
    ensures Between(w, 0, ISIZE_MAX + 1) == Err(IsizeOverflow)
  {
    WidthBounds(I8);
    WidthBounds(U8);
  }
}
