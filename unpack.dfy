/** Decoding (`Exstruct`, instructor/src/unpack.rs) over any `Source`: integers, `[u8; N]` and `()`
    from unpack.rs, `Length<T, OFFSET>` and `u24` from instructor/src/utils.rs, and the
    `read_from_buffer` that `derive(Exstruct)` generates for a repr enum
    (instructor-derive-internals/src/unpack.rs:116-127). */
module Unpack {
  import opened Errors
  import opened Ints
  import opened Endianness
  import opened Types
  import opened Buffers
  import opened Utils

  /** `ReadPrimitive`: `from_le_bytes` for little endian, `from_be_bytes` for big endian. */
  function ReadPrimitive(e: Endian, k: IntKind, bytes: seq<Byte>): (v: int)
    requires |bytes| == k.Size()
    ensures InRange(k, v)
    ensures e.LittleEndian? ==> v == FromLeBytes(k, bytes)
    ensures e.BigEndian? ==> v == FromBeBytes(k, bytes)
  {
    match e
    case LittleEndian => FromLeBytes(k, bytes)
    case BigEndian => FromBeBytes(k, bytes)
  }

  /** The two byte orders read the same value from reversed arrays. */
  lemma ReadPrimitiveReversed(k: IntKind, bytes: seq<Byte>)
    requires |bytes| == k.Size()
    ensures ReadPrimitive(BigEndian, k, bytes) == ReadPrimitive(LittleEndian, k, Reverse(bytes))
  {
    FromBeIsFromLeReversed(k, bytes);
  }

  /** The index of the first variant whose discriminant is d: the first matching arm of the
      generated `match value`. */
  function FirstMatch(variants: seq<VariantDecl>, d: int): (r: Option<nat>)
    ensures r.Some? ==> (r.value < |variants| && variants[r.value].discr == Some(d)
                         && forall j :: 0 <= j < r.value ==> variants[j].discr != Some(d))
    ensures r.None? ==> forall j :: 0 <= j < |variants| ==> variants[j].discr != Some(d)
  {
    if |variants| == 0 then None
    else if variants[0].discr == Some(d) then Some(0)
    else
      match FirstMatch(variants[1..], d)
      case None => None
      case Some(i) => Some(i + 1)
  }

  /** The index of the variant marked default, if any. */
  function DefaultIndex(variants: seq<VariantDecl>): (r: Option<nat>)
    ensures r.Some? ==> (r.value < |variants| && variants[r.value].isDefault
                         && forall j :: 0 <= j < r.value ==> !variants[j].isDefault)
    ensures r.None? ==> forall j :: 0 <= j < |variants| ==> !variants[j].isDefault
  {
    if |variants| == 0 then None
    else if variants[0].isDefault then Some(0)
    else
      match DefaultIndex(variants[1..])
      case None => None
      case Some(i) => Some(i + 1)
  }

  /** The generated match on a decoded discriminant: the matching variant, else the default one,
      else `InvalidValue`. */
  function SelectVariant(variants: seq<VariantDecl>, d: int): (r: Result<nat, Error>)
    ensures r.Ok? ==> r.value < |variants|
    ensures r.Err? ==> r.error == InvalidValue
    ensures FirstMatch(variants, d).Some? ==> r == Ok(FirstMatch(variants, d).value)
    ensures FirstMatch(variants, d).None? && DefaultIndex(variants).Some? ==> r == Ok(DefaultIndex(variants).value)
    ensures r.Err? <==> FirstMatch(variants, d).None? && DefaultIndex(variants).None?
  {
    match FirstMatch(variants, d)
    case Some(i) => Ok(i)
    case None =>
      match DefaultIndex(variants)
      case Some(i) => Ok(i)
      case None => Err(InvalidValue)
  }

  /** A four-byte zero array with bytes written into `lo..hi`. */
  function Splice(bytes: seq<Byte>, lo: nat): (r: seq<Byte>)
    requires lo + |bytes| <= 4
    ensures |r| == 4 && r[lo..lo + |bytes|] == bytes
  {
    seq(lo, _ => 0) + bytes + seq(4 - lo - |bytes|, _ => 0)
  }

  /** An integer's `read_from_buffer`: the raw `[u8; size_of::<T>()]` (read as `NativeEndian`, which
      copies bytes and converts nothing), then E's `ReadPrimitive`. */
  function DecodeInt(k: IntKind, e: Endian, src: Source): (r: Result<(int, Source), Error>)
    requires Readable(src)
    ensures r.Ok? ==> InRange(k, r.value.0) && Readable(r.value.1)
    ensures r.Ok? ==> Consuming(r.value.1) == Consuming(src)
  {
    var p :- CopyOut(src, k.Size());
    Ok((ReadPrimitive(e, k, p.0), p.1))
  }

  /** `T::read_from_buffer` under byte order e, i.e. `buffer.read::<T, E>()` (buffer.rs:9-15):
      the value decoded and the buffer afterwards, or the first error. */
  function Decode(t: Ty, e: Endian, src: Source): (r: Result<(Value, Source), Error>)
    requires Decodable(t) && WellFormed(t) && Readable(src)
    ensures r.Ok? ==> HasType(r.value.0, t) && Readable(r.value.1)
    ensures r.Ok? ==> Consuming(r.value.1) == Consuming(src)
  {
    match t
    case Prim(k) =>
      var p :- DecodeInt(k, e, src);
      Ok((IntV(p.0), p.1))
    case ByteArray(n) =>
      var p :- CopyOut(src, n);
      Ok((BytesV(p.0), p.1))
    case Unit =>
      Ok((UnitV, src))
    case LengthOf(k, off) =>
      var p :- DecodeInt(k, e, src);
      var len := p.0;
      if !(0 <= len <= USIZE_MAX) then Err(InvalidValue)
      else if Buffers.Remaining(p.1) == SatAddSigned(len, off) then Ok((LengthV(len), p.1))
      else Err(UnexpectedLength)
    case U24 =>
      var p :- CopyOut(src, 3);
      var range := MapIndex(e, 3, 4);
      var u := ReadPrimitive(e, U32, Splice(p.0, range.0));
      U24Bound(e, p.0);
      Ok((U24V(u), p.1))
    case Enum(decl) =>
      var p :- DecodeInt(decl.repr.value, Resolve(decl.attr, e), src);
      var i :- SelectVariant(decl.variants, p.0);
      Ok((VariantV(i, []), p.1))
  }

  /** The u24 decoder reads at most `u24::MAX`: the spare byte of the u32 is zero. */
  lemma U24Bound(e: Endian, bs: seq<Byte>)
    requires |bs| == 3
    ensures ReadPrimitive(e, U32, Splice(bs, MapIndex(e, 3, 4).0)) <= U24_MAX
    ensures ReadPrimitive(e, U32, Splice(bs, MapIndex(e, 3, 4).0)) == BeValueOf(e, bs)
  {
    var data := Splice(bs, MapIndex(e, 3, 4).0);
    BeValueBound(bs);
    LeValueBound(bs);
    assert Pow256(3) == 0x100_0000;
    assert U32.Modulus() == 0x1_0000_0000;
    if e.LittleEndian? {
      assert data == bs + [0];
      LeValueTrailingZero(bs);
    } else {
      assert data == seq(1, _ => 0) + bs;
      BeValueLeadingZeros(1, bs);
    }
  }

  /** The number three bytes stand for in byte order e. */
  function BeValueOf(e: Endian, bs: seq<Byte>): nat {
    if e.LittleEndian? then LeValue(bs) else BeValue(bs)
  }

  /** Decoding `[u8; N]` yields the next N bytes and consumes them, or fails with `TooShort`. */
  lemma DecodeByteArray(n: nat, e: Endian, src: Source)
    requires Readable(src)
    ensures Decode(ByteArray(n), e, src).Err? <==> CopyOut(src, n).Err?
    ensures Decode(ByteArray(n), e, src).Ok? ==>
      Decode(ByteArray(n), e, src).value == (BytesV(CopyOut(src, n).value.0), CopyOut(src, n).value.1)
  {
  }

  /** Decoding `()` succeeds and consumes nothing. */
  lemma DecodeUnit(e: Endian, src: Source)
    requires Readable(src)
    ensures Decode(Unit, e, src) == Ok((UnitV, src))
  {
  }

  /** A fixed-size decode from a consuming source fails with `TooShort` exactly when fewer than
      `size_of::<T>()` bytes remain, and otherwise consumes exactly that many. */
  lemma DecodePrimRemaining(k: IntKind, e: Endian, src: Source)
    requires Readable(src) && Consuming(src)
    ensures Decode(Prim(k), e, src).Err? <==> Buffers.Remaining(src) < k.Size()
    ensures Decode(Prim(k), e, src).Err? ==> Decode(Prim(k), e, src).error == TooShort
    ensures Decode(Prim(k), e, src).Ok? ==>
      Buffers.Remaining(Decode(Prim(k), e, src).value.1) == Buffers.Remaining(src) - k.Size()
  {
    CopyOutRemaining(src, k.Size());
  }

  /** `Length` decode: it reads T, then fails with `InvalidValue` when the value is no usize,
      succeeds iff the bytes left equal value + OFFSET (saturating), and otherwise fails with
      `UnexpectedLength`. */
  lemma DecodeLength(k: IntKind, off: int, e: Endian, src: Source)
    requires ISIZE_MIN <= off <= ISIZE_MAX && Readable(src)
    ensures DecodeInt(k, e, src).Err? ==> Decode(LengthOf(k, off), e, src) == Err(DecodeInt(k, e, src).error)
    ensures DecodeInt(k, e, src).Ok? ==>
      var (v, rest) := DecodeInt(k, e, src).value;
      && (!(0 <= v <= USIZE_MAX) ==> Decode(LengthOf(k, off), e, src) == Err(InvalidValue))
      && (0 <= v <= USIZE_MAX ==>
            && (Decode(LengthOf(k, off), e, src).Ok? <==> Buffers.Remaining(rest) == SatAddSigned(v, off))
            && (Buffers.Remaining(rest) != SatAddSigned(v, off) ==>
                  Decode(LengthOf(k, off), e, src) == Err(UnexpectedLength)))
      && (Decode(LengthOf(k, off), e, src).Ok? ==> Decode(LengthOf(k, off), e, src).value == (LengthV(v), rest))
  {
    var t := LengthOf(k, off);
    match DecodeInt(k, e, src)
    case Err(err) =>
      assert Decode(t, e, src) == Err(err);
    case Ok((v, rest)) =>
      assert Decode(t, e, src)
          == if !(0 <= v <= USIZE_MAX) then Err(InvalidValue)
             else if Buffers.Remaining(rest) == SatAddSigned(v, off) then Ok((LengthV(v), rest))
             else Err(UnexpectedLength);
  }
}
