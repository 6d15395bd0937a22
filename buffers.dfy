/** The read side (`Buffer`, instructor/src/buffer.rs) and the write side (`BufferMut`) of the codec.
    The three `Buffer` implementations of the crate are the cases of `Source`: a byte cursor (the
    impl for `bytes::Buf`, buffer.rs:34-46), a bitfield register (`BitBuffer`, bitfield.rs:82-100)
    and a budgeted wrapper (`Limit`, utils.rs:100-121). The byte cursor is also given as a class. */
module Buffers {
  import opened Errors
  import opened Ints
  import opened BitStorage

  /** A readable buffer, as a value: what one `try_copy_to_slice` leaves behind is another `Source`. */
  datatype Source =
    | Cursor(rest: seq<Byte>)
    | Bits(storage: Storage, reg: nat, start: nat, end: nat, remaining: nat)
    | Limited(budget: nat, inner: Source)

  /** A bitfield register is read only with a range `extract` accepts. */
  predicate Readable(src: Source) {
    match src
    case Cursor(_) => true
    case Bits(s, _, start, end, _) => ValidRange(s, start, end)
    case Limited(_, inner) => Readable(inner)
  }

  /** `remaining()`: the unread bytes of a cursor; the count a `BitBuffer` recorded from its source;
      for a `Limit`, the smaller of its budget and its inner buffer's count. */
  function Remaining(src: Source): nat {
    match src
    case Cursor(rest) => |rest|
    case Bits(_, _, _, _, remaining) => remaining
    case Limited(budget, inner) => if budget < Remaining(inner) then budget else Remaining(inner)
  }

  /** Sources whose reads consume bytes: byte cursors, possibly behind limits. */
  predicate Consuming(src: Source) {
    match src
    case Cursor(_) => true
    case Bits(_, _, _, _, _) => false
    case Limited(_, inner) => Consuming(inner)
  }

  /** `try_copy_to_slice` of n bytes: the bytes copied and the buffer afterwards, or `TooShort`.
      A cursor hands out its next n bytes; a register hands out the last n bytes of the extracted
      window and stays as it is; a limit checks its budget before asking the inner buffer and
      charges the budget only on success. */
  function CopyOut(src: Source, n: nat): (r: Result<(seq<Byte>, Source), Error>)
    requires Readable(src)
    ensures r.Err? ==> r.error == TooShort
    ensures r.Ok? ==> |r.value.0| == n && Readable(r.value.1)
    ensures r.Ok? ==> Consuming(r.value.1) == Consuming(src)
  {
    match src
    case Cursor(rest) =>
      if |rest| < n then Err(TooShort) else Ok((rest[..n], Cursor(rest[n..])))
    case Bits(s, reg, start, end, _) =>
      var own := Extract(s, reg, start, end);
      if |own| < n then Err(TooShort) else Ok((own[|own| - n..], src))
    case Limited(budget, inner) =>
      if budget < n then Err(TooShort)
      else
        match CopyOut(inner, n)
        case Err(e) => Err(e)
        case Ok((bs, inner')) => Ok((bs, Limited(budget - n, inner')))
  }

  /** On a consuming source, a copy fails exactly when fewer than n bytes remain; when it succeeds
      the remaining count drops by exactly n. */
  lemma {:induction false} CopyOutRemaining(src: Source, n: nat)
    requires Readable(src) && Consuming(src)
    ensures CopyOut(src, n).Err? <==> Remaining(src) < n
    ensures CopyOut(src, n).Ok? ==> Remaining(CopyOut(src, n).value.1) == Remaining(src) - n
  {
    if src.Limited? {
      CopyOutRemaining(src.inner, n);
    }
  }

  /** A cursor over `a + b` hands out a, leaving b. */
  lemma CopyOutPrefix(a: seq<Byte>, b: seq<Byte>)
    ensures CopyOut(Cursor(a + b), |a|) == Ok((a, Cursor(b)))
  {
    assert (a + b)[..|a|] == a;
    assert (a + b)[|a|..] == b;
  }

  /** A register read fails exactly when more bytes are asked for than the register has, and never
      changes the source; the bytes are the low bytes of the big-endian window. */
  lemma CopyOutBits(s: Storage, reg: nat, start: nat, end: nat, remaining: nat, n: nat)
    requires ValidRange(s, start, end)
    ensures CopyOut(Bits(s, reg, start, end, remaining), n).Err? <==> s.Width() < n
    ensures CopyOut(Bits(s, reg, start, end, remaining), n).Ok? ==>
      CopyOut(Bits(s, reg, start, end, remaining), n).value
        == (Extract(s, reg, start, end)[s.Width() - n..], Bits(s, reg, start, end, remaining))
  {
  }

  /** The byte cursor over a `bytes::Buf`: the bytes it was built from and how far it has read. */
  class ByteCursor {
    var data: seq<Byte>
    var pos: nat

    ghost predicate Valid()
      reads this
    {
      pos <= |data|
    }

    constructor (bytes: seq<Byte>)
      ensures Valid() && data == bytes && pos == 0
    {
      data := bytes;
      pos := 0;
    }

    /** The unread bytes. */
    function Rest(): seq<Byte>
      reads this
      requires Valid()
    {
      data[pos..]
    }

    /** `remaining()`: the exact number of unread bytes. */
    function Remaining(): (n: nat)
      reads this
      requires Valid()
      ensures n == |Rest()|
    {
      |data| - pos
    }

    /** `try_copy_to_slice` into `buf[lo..hi]`: fails with `TooShort`, touching nothing, when fewer
        bytes remain than the slice holds; otherwise fills the slice with the next bytes and advances
        past them. The cursor then stands where `CopyOut` says. */
    method TryCopyToSlice(buf: array<Byte>, lo: nat, hi: nat) returns (r: Result<(), Error>)
      requires Valid() && lo <= hi <= buf.Length
      modifies this, buf
      ensures Valid() && data == old(data)
      ensures r.Ok? <==> CopyOut(Cursor(old(Rest())), hi - lo).Ok?
      ensures r.Err? ==> r.error == TooShort && pos == old(pos) && buf[..] == old(buf[..])
      ensures r.Ok? ==> (buf[lo..hi], Cursor(Rest())) == CopyOut(Cursor(old(Rest())), hi - lo).value
      ensures r.Ok? ==> buf[..lo] == old(buf[..lo]) && buf[hi..] == old(buf[hi..])
    {
      if |data| - pos < hi - lo {
        return Err(TooShort);
      }
      forall k | lo <= k < hi {
        buf[k] := data[pos + k - lo];
      }
      assert buf[lo..hi] == data[pos..][..hi - lo];
      pos := pos + (hi - lo);
      assert data[pos..] == old(data[pos..])[hi - lo..];
      r := Ok(());
    }
  }

  /** A growable byte sink (`BufferMut` over a `Vec<u8>` / `BytesMut`). */
  class ByteSink {
    var bytes: seq<Byte>

    constructor ()
      ensures bytes == []
    {
      bytes := [];
    }

    /** `extend_from_slice`: appends all of buf; it never fails. */
    method ExtendFromSlice(buf: seq<Byte>)
      modifies this
      ensures bytes == old(bytes) + buf
    {
      bytes := bytes + buf;
    }
  }
}
