/** The decoders as the crate runs them over a byte cursor: each fills a local array through
    `try_copy_to_slice` and converts it. Each is proved to do what `Unpack.Decode` says of the
    cursor's unread bytes. */
module Readers {
  import opened Errors
  import opened Ints
  import opened Endianness
  import opened Types
  import opened Buffers
  import opened Utils
  import opened Unpack

  /** `[u8; N]::read_from_buffer` (instructor/src/unpack.rs:12-16): `let mut array = [0; N]`, then
      `try_copy_to_slice(&mut array)?`. */
  method ReadArray(cur: ByteCursor, n: nat) returns (r: Result<seq<Byte>, Error>)
    requires cur.Valid()
    modifies cur
    ensures cur.Valid() && cur.data == old(cur.data)
    ensures r.Err? <==> CopyOut(Cursor(old(cur.Rest())), n).Err?
    ensures r.Err? ==> r.error == TooShort && cur.pos == old(cur.pos)
    ensures r.Ok? ==> (r.value, Cursor(cur.Rest())) == CopyOut(Cursor(old(cur.Rest())), n).value
  {
    var buf := new Byte[n](_ => 0);
    var copied := cur.TryCopyToSlice(buf, 0, n);
    if copied.Err? {
      return Err(copied.error);
    }
    assert buf[0..n] == buf[..];
    r := Ok(buf[..]);
  }

  /** An integer's `read_from_buffer` (instructor/src/unpack.rs:29-33): the raw bytes, then
      E's `ReadPrimitive`. */
  method ReadInt(cur: ByteCursor, k: IntKind, e: Endian) returns (r: Result<int, Error>)
    requires cur.Valid()
    modifies cur
    ensures cur.Valid() && cur.data == old(cur.data)
    ensures r.Err? <==> DecodeInt(k, e, Cursor(old(cur.Rest()))).Err?
    ensures r.Err? ==> r.error == TooShort && cur.pos == old(cur.pos)
    ensures r.Ok? ==> (r.value, Cursor(cur.Rest())) == DecodeInt(k, e, Cursor(old(cur.Rest()))).value
  {
    var bytes := ReadArray(cur, k.Size());
    if bytes.Err? {
      return Err(bytes.error);
    }
    r := Ok(ReadPrimitive(e, k, bytes.value));
  }

  /** `Length::read_from_buffer` (instructor/src/utils.rs:30-40): read T, convert it to usize,
      compare the bytes left with it plus OFFSET. */
  method ReadLength(cur: ByteCursor, k: IntKind, off: int, e: Endian) returns (r: Result<int, Error>)
    requires cur.Valid() && ISIZE_MIN <= off <= ISIZE_MAX
    modifies cur
    ensures cur.Valid() && cur.data == old(cur.data)
    ensures r.Err? <==> Decode(LengthOf(k, off), e, Cursor(old(cur.Rest()))).Err?
    ensures r.Err? ==> r.error == Decode(LengthOf(k, off), e, Cursor(old(cur.Rest()))).error
    ensures r.Ok? ==> (LengthV(r.value), Cursor(cur.Rest())) == Decode(LengthOf(k, off), e, Cursor(old(cur.Rest()))).value
  {
    var len := ReadInt(cur, k, e);
    if len.Err? {
      return Err(len.error);
    }
    if !(0 <= len.value <= USIZE_MAX) {
      return Err(InvalidValue);
    }
    if cur.Remaining() == SatAddSigned(len.value, off) {
      r := Ok(len.value);
    } else {
      r := Err(UnexpectedLength);
    }
  }

  /** `u24::read_from_buffer` (instructor/src/utils.rs:140-144): a `[0; 4]` whose `map_index(3, 4)`
      slice is filled from the buffer, read as E's u32. */
  method ReadU24(cur: ByteCursor, e: Endian) returns (r: Result<nat, Error>)
    requires cur.Valid()
    modifies cur
    ensures cur.Valid() && cur.data == old(cur.data)
    ensures r.Err? <==> Decode(U24, e, Cursor(old(cur.Rest()))).Err?
    ensures r.Err? ==> r.error == TooShort && cur.pos == old(cur.pos)
    ensures r.Ok? ==> (U24V(r.value), Cursor(cur.Rest())) == Decode(U24, e, Cursor(old(cur.Rest()))).value
  {
    var data := new Byte[4](_ => 0);
    var range := MapIndex(e, 3, 4);
    ghost var before := cur.Rest();
    var copied := cur.TryCopyToSlice(data, range.0, range.1);
    if copied.Err? {
      return Err(copied.error);
    }
    ghost var three := CopyOut(Cursor(before), 3).value.0;
    assert data[..] == data[..range.0] + data[range.0..range.1] + data[range.1..];
    assert data[..] == Splice(three, range.0);
    var u := ReadPrimitive(e, U32, data[..]);
    U24Bound(e, three);
    r := Ok(u);
  }

  /** The `read_from_buffer` that `derive(Exstruct)` generates for a repr enum
      (instructor-derive-internals/src/unpack.rs:116-127): read the repr, then match it. */
  method ReadEnum(cur: ByteCursor, decl: EnumDecl, e: Endian) returns (r: Result<nat, Error>)
    requires cur.Valid() && UnpackableEnum(decl) && WellFormed(Enum(decl))
    modifies cur
    ensures cur.Valid() && cur.data == old(cur.data)
    ensures r.Err? <==> Decode(Enum(decl), e, Cursor(old(cur.Rest()))).Err?
    ensures r.Err? ==> r.error == Decode(Enum(decl), e, Cursor(old(cur.Rest()))).error
    ensures r.Ok? ==> (VariantV(r.value, []), Cursor(cur.Rest())) == Decode(Enum(decl), e, Cursor(old(cur.Rest()))).value
  {
    var d := ReadInt(cur, decl.repr.value, Resolve(decl.attr, e));
    if d.Err? {
      return Err(d.error);
    }
    r := SelectVariant(decl.variants, d.value);
  }

  /** `buffer.read::<T, E>()` (instructor/src/buffer.rs:9-15): T's decoder under E, run on this
      buffer. */
  method Read(cur: ByteCursor, t: Ty, e: Endian) returns (r: Result<Value, Error>)
    requires cur.Valid() && Decodable(t) && WellFormed(t)
    modifies cur
    ensures cur.Valid() && cur.data == old(cur.data)
    ensures r.Err? <==> Decode(t, e, Cursor(old(cur.Rest()))).Err?
    ensures r.Err? ==> r.error == Decode(t, e, Cursor(old(cur.Rest()))).error
    ensures r.Ok? ==> (r.value, Cursor(cur.Rest())) == Decode(t, e, Cursor(old(cur.Rest()))).value
  {
    match t
    case Prim(k) =>
      var x := ReadInt(cur, k, e);
      r := if x.Err? then Err(x.error) else Ok(IntV(x.value));
    case ByteArray(n) =>
      var bs := ReadArray(cur, n);
      r := if bs.Err? then Err(bs.error) else Ok(BytesV(bs.value));
    case Unit =>
      r := Ok(UnitV);
    case LengthOf(k, off) =>
      var len := ReadLength(cur, k, off, e);
      r := if len.Err? then Err(len.error) else Ok(LengthV(len.value));
    case U24 =>
      var u := ReadU24(cur, e);
      r := if u.Err? then Err(u.error) else Ok(U24V(u.value));
    case Enum(decl) =>
      var i := ReadEnum(cur, decl, e);
      r := if i.Err? then Err(i.error) else Ok(VariantV(i.value, []));
  }
}
