/** The value-level helpers of instructor/src/utils.rs (`Length::new`, `Length::with_offset`,
    `usize::saturating_add_signed`, `u24::new`, `u24::try_from`) and the budgeted buffer `Limit`. */
module Utils {
  import opened Errors
  import opened Ints
  import opened Types
  import Buffers

  /** `usize::saturating_add_signed`: a + off, clamped to `0..=usize::MAX`. */
  function SatAddSigned(a: nat, off: int): (r: nat)
    requires a <= USIZE_MAX
    ensures r <= USIZE_MAX
    ensures 0 <= a + off <= USIZE_MAX ==> r == a + off
    ensures a + off < 0 ==> r == 0
    ensures a + off > USIZE_MAX ==> r == USIZE_MAX
  {
    if a + off < 0 then 0 else if a + off > USIZE_MAX then USIZE_MAX else a + off
  }

  /** `Length::<T, OFFSET>::new(len)`: `T::try_from(len)`, so it fails with `InvalidValue` exactly
      when len does not fit in T, and otherwise holds len. */
  function LengthNew(k: IntKind, len: nat): (r: Result<Value, Error>)
    requires len <= USIZE_MAX
    ensures r.Ok? <==> InRange(k, len)
    ensures r.Ok? ==> r.value == LengthV(len)
    ensures r.Err? ==> r.error == InvalidValue
  {
    if InRange(k, len) then Ok(LengthV(len)) else Err(InvalidValue)
  }

  /** `Length::<T, OFFSET>::with_offset(len)`: `new(len.saturating_add_signed(-OFFSET))`. Negating
      OFFSET overflows for `isize::MIN`, so OFFSET must be above it. The stored length is
      len - OFFSET, clamped to 0 below and to `usize::MAX` above; it fails with `InvalidValue`
      exactly when that clamped length does not fit T. */
  function WithOffset(k: IntKind, offset: int, len: nat): (r: Result<Value, Error>)
    requires len <= USIZE_MAX && ISIZE_MIN < offset <= ISIZE_MAX
    ensures r.Ok? ==> HasType(r.value, LengthOf(k, offset))
    ensures r.Err? ==> r.error == InvalidValue
    ensures len < offset ==> r == Ok(LengthV(0))
    ensures 0 <= len - offset <= USIZE_MAX ==>
              (r.Ok? <==> InRange(k, len - offset)) && (r.Ok? ==> r.value == LengthV(len - offset))
    ensures len - offset > USIZE_MAX ==>
              (r.Ok? <==> InRange(k, USIZE_MAX)) && (r.Ok? ==> r.value == LengthV(USIZE_MAX))
  {
    LengthNew(k, SatAddSigned(len, -offset))
  }

  /** A length built by `with_offset(n)` passes the decoder's framing check
      `remaining == value + OFFSET` for n remaining bytes, unless `n - OFFSET` had to be clamped. */
  lemma WithOffsetFrames(k: IntKind, offset: int, n: nat)
    requires n <= USIZE_MAX && ISIZE_MIN < offset <= ISIZE_MAX
    requires 0 <= n - offset <= USIZE_MAX
    requires WithOffset(k, offset, n).Ok?
    ensures WithOffset(k, offset, n).value.len == n - offset
    ensures SatAddSigned(WithOffset(k, offset, n).value.len, offset) == n
  {
  }

  /** `u24::new`: asserts the value is at most `u24::MAX`. */
  function U24New(v: nat): (r: Value)
    requires v <= U24_MAX
    ensures HasType(r, U24) && r.u == v
  {
    U24V(v)
  }

  /** `u24::try_from(u32)`: rejects exactly the values above `u24::MAX`. */
  function U24TryFrom(v: nat): (r: Option<Value>)
    requires v < 0x1_0000_0000
    ensures r.Some? <==> v <= U24_MAX
    ensures r.Some? ==> r.value == U24New(v)
  {
    if v > U24_MAX then None else Some(U24V(v))
  }

  /** `Limit::skip(n)` as a value: fails with `TooShort` when the budget is below n, otherwise
      lowers the budget by n and leaves the inner buffer exactly where it was. */
  function LimitSkip(src: Buffers.Source, n: nat): (r: Result<Buffers.Source, Error>)
    requires src.Limited?
    ensures r.Err? <==> src.budget < n
    ensures r.Err? ==> r.error == TooShort
    ensures r.Ok? ==> r.value.Limited? && r.value.budget == src.budget - n && r.value.inner == src.inner
  {
    if src.budget < n then Err(TooShort) else Ok(Buffers.Limited(src.budget - n, src.inner))
  }

  /** Because `Limit::skip` leaves the inner cursor where it was, the next read after skipping n
      bytes hands out the very bytes that were skipped, where a skip should have passed over them. */
  lemma LimitSkipRereads(budget: nat, rest: seq<Byte>, n: nat)
    requires 2 * n <= budget && n <= |rest|
    ensures LimitSkip(Buffers.Limited(budget, Buffers.Cursor(rest)), n).Ok?
    ensures Buffers.CopyOut(LimitSkip(Buffers.Limited(budget, Buffers.Cursor(rest)), n).value, n).Ok?
    ensures Buffers.CopyOut(LimitSkip(Buffers.Limited(budget, Buffers.Cursor(rest)), n).value, n).value.0
            == rest[..n]
  {
  }

  /** A concrete case: four bytes under a budget of four; skipping two and reading two yields the
      first two bytes again, not the last two. */
  lemma LimitSkipExample()
    ensures var after := LimitSkip(Buffers.Limited(4, Buffers.Cursor([1, 2, 3, 4])), 2).value;
            Buffers.CopyOut(after, 2) == Ok(([1, 2], Buffers.Limited(0, Buffers.Cursor([3, 4]))))
  {
    var rest: seq<Byte> := [1, 2, 3, 4];
    assert rest[..2] == [1, 2] && rest[2..] == [3, 4];
  }

  /** `skip(n)` as a skip should behave: the budget check first, then the inner buffer passes over
      n bytes (failing as a read of n bytes would), and the budget drops by n. */
  function LimitSkipAdvancing(src: Buffers.Source, n: nat): (r: Result<Buffers.Source, Error>)
    requires src.Limited? && Buffers.Readable(src)
    ensures r.Err? ==> r.error == TooShort
    ensures r.Ok? ==> r.value.Limited? && r.value.budget == src.budget - n && Buffers.Readable(r.value)
  {
    if src.budget < n then Err(TooShort)
    else
      match Buffers.CopyOut(src.inner, n)
      case Err(e) => Err(e)
      case Ok((_, inner')) => Ok(Buffers.Limited(src.budget - n, inner'))
  }

  /** Over a cursor, the advancing skip fails exactly when fewer than n bytes remain, lowers
      `remaining()` by n, and skipping n then reading m is reading n + m and dropping the first n. */
  lemma LimitSkipAdvancingReads(budget: nat, rest: seq<Byte>, n: nat, m: nat)
    ensures var src := Buffers.Limited(budget, Buffers.Cursor(rest));
            && (LimitSkipAdvancing(src, n).Err? <==> Buffers.Remaining(src) < n)
            && (LimitSkipAdvancing(src, n).Ok? ==>
                  && Buffers.Remaining(LimitSkipAdvancing(src, n).value) == Buffers.Remaining(src) - n
                  && (Buffers.CopyOut(LimitSkipAdvancing(src, n).value, m).Ok?
                      <==> Buffers.CopyOut(src, n + m).Ok?)
                  && (Buffers.CopyOut(src, n + m).Ok? ==>
                        Buffers.CopyOut(LimitSkipAdvancing(src, n).value, m).value
                          == (Buffers.CopyOut(src, n + m).value.0[n..], Buffers.CopyOut(src, n + m).value.1)))
  {
    if n <= budget && n <= |rest| && n + m <= budget && n + m <= |rest| {
      assert rest[..n + m][n..] == rest[n..][..m];
      assert rest[n..][m..] == rest[n + m..];
    }
  }

  /** A budgeted view of a byte cursor. */
  class Limit {
    const buffer: Buffers.ByteCursor
    var remaining: nat

    ghost predicate Valid()
      reads this, buffer
    {
      buffer.Valid()
    }

    /** The limit as a `Source`. */
    function Model(): Buffers.Source
      reads this, buffer
      requires Valid()
    {
      Buffers.Limited(remaining, Buffers.Cursor(buffer.Rest()))
    }

    constructor (buffer: Buffers.ByteCursor, remaining: nat)
      requires buffer.Valid()
      ensures Valid() && this.buffer == buffer && this.remaining == remaining
    {
      this.buffer := buffer;
      this.remaining := remaining;
    }

    /** `remaining()`: the smaller of the budget and the inner buffer's count. */
    function Remaining(): (n: nat)
      reads this, buffer
      requires Valid()
      ensures n == Buffers.Remaining(Model())
      ensures n <= remaining && n <= |buffer.Rest()|
    {
      if remaining < buffer.Remaining() then remaining else buffer.Remaining()
    }

    /** `try_copy_to_slice`: `TooShort` with no effect when the budget is below the slice's length;
        an inner failure leaves the budget unchanged; success lowers the budget by the length. */
    method TryCopyToSlice(buf: array<Byte>, lo: nat, hi: nat) returns (r: Result<(), Error>)
      requires Valid() && lo <= hi <= buf.Length
      modifies this, buffer, buf
      ensures Valid() && buffer.data == old(buffer.data)
      ensures r.Ok? <==> Buffers.CopyOut(old(Model()), hi - lo).Ok?
      ensures r.Err? ==> (r.error == TooShort && remaining == old(remaining)
                          && buffer.pos == old(buffer.pos) && buf[..] == old(buf[..]))
      ensures r.Ok? ==> (buf[lo..hi], Model()) == Buffers.CopyOut(old(Model()), hi - lo).value
      ensures r.Ok? ==> buf[..lo] == old(buf[..lo]) && buf[hi..] == old(buf[hi..])
    {
      if remaining < hi - lo {
        return Err(TooShort);
      }
      r := buffer.TryCopyToSlice(buf, lo, hi);
      if r.Err? {
        return;
      }
      remaining := remaining - (hi - lo);
    }

    /** `skip(n)`: as `LimitSkip`; the inner buffer is not advanced. */
    method Skip(n: nat) returns (r: Result<(), Error>)
      requires Valid()
      modifies this
      ensures Valid()
      ensures r.Ok? <==> LimitSkip(old(Model()), n).Ok?
      ensures r.Err? ==> r.error == TooShort && remaining == old(remaining)
      ensures r.Ok? ==> Model() == LimitSkip(old(Model()), n).value
    {
      if remaining < n {
        return Err(TooShort);
      }
      remaining := remaining - n;
      r := Ok(());
    }
  }
}
