/** The central law of the codec: decoding what `write_to_buffer` wrote, under the same byte order,
    gives the value back and leaves the following bytes untouched; and re-encoding what was decoded
    gives back the bytes it was decoded from. */
module RoundTrip {
  import opened Errors
  import opened Ints
  import opened Endianness
  import opened Types
  import opened Buffers
  import opened Utils
  import opened Unpack
  import opened Pack

  /** `ReadPrimitive` undoes `WritePrimitive` (instructor/src/unpack.rs:49-65 against
      instructor/src/pack.rs:115-131). */
  lemma ReadOfWrite(e: Endian, k: IntKind, v: int)
    requires InRange(k, v)
    ensures ReadPrimitive(e, k, WritePrimitive(e, k, v)) == v
  {
    if e.LittleEndian? {
      FromLeOfToLe(k, v);
    } else {
      FromBeOfToBe(k, v);
    }
  }

  /** `WritePrimitive` undoes `ReadPrimitive`: every byte array is the encoding of what it reads as. */
  lemma WriteOfRead(e: Endian, k: IntKind, bytes: seq<Byte>)
    requires |bytes| == k.Size()
    ensures WritePrimitive(e, k, ReadPrimitive(e, k, bytes)) == bytes
  {
    if e.LittleEndian? {
      ToLeOfFromLe(k, bytes);
    } else {
      ToBeOfFromBe(k, bytes);
    }
  }

  /** The u32 encoding of a value up to `u24::MAX` has a zero in the byte u24 leaves out, so
      splicing the three written bytes back into `[0; 4]` rebuilds it. */
  lemma U24Splice(e: Endian, u: nat)
    requires u <= U24_MAX
    ensures
      var data := WritePrimitive(e, U32, u);
      var range := MapIndex(e, 3, 4);
      Splice(data[range.0..range.1], range.0) == data
  {
    Pow256IsU32();
    assert Pow256(3) == 0x100_0000;
    var data := WritePrimitive(e, U32, u);
    if e.LittleEndian? {
      var low := LeBytes(3, u);
      LeValueOfLeBytes(3, u);
      LeValueTrailingZero(low);
      LeBytesOfLeValue(low + [0]);
      assert data == low + [0];
      assert data[0..3] == low;
      assert Splice(low, 0) == low + [0];
    } else {
      var low := BeBytes(3, u);
      BeValueOfBeBytes(3, u);
      BeValueLeadingZeros(1, low);
      assert seq(1, _ => 0) + low == [0] + low;
      BeBytesOfBeValue([0] + low);
      assert data == [0] + low;
      assert data[1..4] == low;
      assert Splice(low, 1) == [0] + low;
    }
  }

  /** The u24 codec round-trips every value up to `u24::MAX` in both byte orders, moving exactly
      three bytes (instructor/src/utils.rs:140-152). */
  lemma U24RoundTrip(e: Endian, u: nat, rest: seq<Byte>)
    requires u <= U24_MAX
    ensures |Encode(U24, e, U24V(u))| == 3
    ensures Decode(U24, e, Cursor(Encode(U24, e, U24V(u)) + rest)) == Ok((U24V(u), Cursor(rest)))
  {
    DecodeEncode(U24, e, U24V(u), rest);
  }

  /** What a decoder needs beyond the value's type to give it back: a `Length` must announce the
      bytes that follow it, and an enum's discriminant must select its own variant. */
  predicate Framed(t: Ty, v: Value, following: nat) {
    match t
    case LengthOf(_, off) =>
      v.LengthV? && 0 <= v.len <= USIZE_MAX && following == SatAddSigned(v.len, off)
    case Enum(decl) =>
      v.VariantV? && v.index < |decl.variants| && decl.variants[v.index].discr.Some?
      && FirstMatch(decl.variants, decl.variants[v.index].discr.value) == Some(v.index)
    case _ => true
  }

  /** Rust rejects two variants with the same discriminant; with distinct discriminants each
      variant's own discriminant selects it. */
  predicate DistinctDiscriminants(variants: seq<VariantDecl>) {
    forall i, j :: 0 <= i < j < |variants| && variants[i].discr.Some? ==> variants[j].discr != variants[i].discr
  }

  lemma FirstMatchOwn(variants: seq<VariantDecl>, i: nat)
    requires DistinctDiscriminants(variants) && i < |variants| && variants[i].discr.Some?
    ensures FirstMatch(variants, variants[i].discr.value) == Some(i)
  {
  }

  /** Every type that can be decoded can be encoded. */
  lemma DecodableIsEncodable(t: Ty)
    requires Decodable(t)
    ensures Encodable(t)
  {
  }

  /** decode(encode(v)) == v, consuming exactly the encoding: over a cursor holding the encoding of
      v followed by any bytes, `read::<T, E>()` returns v and leaves the following bytes. */
  lemma DecodeEncode(t: Ty, e: Endian, v: Value, rest: seq<Byte>)
    requires Decodable(t) && WellFormed(t) && HasType(v, t) && Framed(t, v, |rest|)
    ensures Encodable(t)
    ensures Decode(t, e, Cursor(Encode(t, e, v) + rest)) == Ok((v, Cursor(rest)))
  {
    DecodableIsEncodable(t);
    var bytes := Encode(t, e, v);
    match t
    case Prim(k) =>
      EncodePrim(k, e, v.i);
      CopyOutPrefix(bytes, rest);
      ReadOfWrite(e, k, v.i);
    case ByteArray(n) =>
      EncodeBytes(n, e, v.bs);
      CopyOutPrefix(bytes, rest);
    case Unit =>
      EncodeBytes(0, e, []);
      assert bytes + rest == rest;
    case LengthOf(k, off) =>
      assert Encode(LengthOf(k, off), e, v) == Encode(Prim(k), e, IntV(v.len));
      EncodePrim(k, e, v.len);
      CopyOutPrefix(bytes, rest);
      ReadOfWrite(e, k, v.len);
    case U24 =>
      EncodeU24(e, v.u);
      Pow256IsU32();
      var data := WritePrimitive(e, U32, v.u);
      var range := MapIndex(e, 3, 4);
      assert Flatten([data[range.0..range.1]]) == data[range.0..range.1] + [];
      assert bytes == data[range.0..range.1];
      CopyOutPrefix(bytes, rest);
      U24Splice(e, v.u);
      ReadOfWrite(e, U32, v.u);
    case Enum(decl) =>
      var k := decl.repr.value;
      var d := Discriminant(decl, v.index);
      var e' := Resolve(decl.attr, e);
      EncodeIntEnum(decl, e, v.index);
      assert v == VariantV(v.index, []);
      EncodePrim(k, e', d);
      CopyOutPrefix(bytes, rest);
      ReadOfWrite(e', k, d);
  }

  /** The enum discriminant at the head of bytes matched a declared variant (no default fallback). */
  predicate Matched(t: Ty, e: Endian, bytes: seq<Byte>)
    requires t.Enum? ==> t.decl.repr.Some?
  {
    t.Enum? ==>
      var k := t.decl.repr.value;
      k.Size() <= |bytes|
      && FirstMatch(t.decl.variants, ReadPrimitive(Resolve(t.decl.attr, e), k, bytes[..k.Size()])).Some?
  }

  /** encode(decode(b)) == b: when decoding succeeds, the encoding of the decoded value is exactly
      the prefix of the bytes that was consumed. An enum that fell back to its default variant is
      excluded, since that loses the discriminant read. */
  lemma EncodeDecode(t: Ty, e: Endian, bytes: seq<Byte>)
    requires Decodable(t) && WellFormed(t)
    requires Decode(t, e, Cursor(bytes)).Ok?
    requires Matched(t, e, bytes)
    ensures Encodable(t)
    ensures
      var (v, after) := Decode(t, e, Cursor(bytes)).value;
      after.Cursor? && Encode(t, e, v) + after.rest == bytes
  {
    DecodableIsEncodable(t);
    match t
    case Prim(k) => EncodeDecodePrim(k, e, bytes);
    case ByteArray(n) =>
      var v := Decode(t, e, Cursor(bytes)).value.0;
      EncodeBytes(n, e, v.bs);
      SplitAt(bytes, n);
    case Unit =>
      EncodeBytes(0, e, []);
    case LengthOf(k, off) => EncodeDecodeLength(k, off, e, bytes);
    case U24 => EncodeDecodeU24(e, bytes);
    case Enum(decl) => EncodeDecodeEnum(decl, e, bytes);
  }

  lemma EncodeDecodePrim(k: IntKind, e: Endian, bytes: seq<Byte>)
    requires Decode(Prim(k), e, Cursor(bytes)).Ok?
    ensures
      var (v, after) := Decode(Prim(k), e, Cursor(bytes)).value;
      after.Cursor? && Encode(Prim(k), e, v) + after.rest == bytes
  {
    var n := k.Size();
    var x := ReadPrimitive(e, k, bytes[..n]);
    assert DecodeInt(k, e, Cursor(bytes)) == Ok((x, Cursor(bytes[n..])));
    EncodePrim(k, e, x);
    WriteOfRead(e, k, bytes[..n]);
    SplitAt(bytes, n);
  }

  lemma EncodeDecodeLength(k: IntKind, off: int, e: Endian, bytes: seq<Byte>)
    requires ISIZE_MIN <= off <= ISIZE_MAX
    requires Decode(LengthOf(k, off), e, Cursor(bytes)).Ok?
    ensures
      var (v, after) := Decode(LengthOf(k, off), e, Cursor(bytes)).value;
      after.Cursor? && Encode(LengthOf(k, off), e, v) + after.rest == bytes
  {
    var n := k.Size();
    var x := ReadPrimitive(e, k, bytes[..n]);
    assert DecodeInt(k, e, Cursor(bytes)) == Ok((x, Cursor(bytes[n..])));
    DecodeLength(k, off, e, Cursor(bytes));
    EncodeLength(k, off, off, e, x);
    EncodePrim(k, e, x);
    WriteOfRead(e, k, bytes[..n]);
    SplitAt(bytes, n);
  }

  lemma EncodeDecodeU24(e: Endian, bytes: seq<Byte>)
    requires Decode(U24, e, Cursor(bytes)).Ok?
    ensures
      var (v, after) := Decode(U24, e, Cursor(bytes)).value;
      after.Cursor? && Encode(U24, e, v) + after.rest == bytes
  {
    var range := MapIndex(e, 3, 4);
    var data := Splice(bytes[..3], range.0);
    var u := ReadPrimitive(e, U32, data);
    assert Decode(U24, e, Cursor(bytes)).value == (U24V(u), Cursor(bytes[3..]));
    U24Bound(e, bytes[..3]);
    Pow256IsU32();
    var written := WritePrimitive(e, U32, u);
    assert Flatten([written[range.0..range.1]]) == written[range.0..range.1] + [];
    assert Encode(U24, e, U24V(u)) == written[range.0..range.1];
    WriteOfRead(e, U32, data);
    SplitAt(bytes, 3);
  }

  lemma EncodeDecodeEnum(decl: EnumDecl, e: Endian, bytes: seq<Byte>)
    requires UnpackableEnum(decl) && WellFormed(Enum(decl))
    requires Decode(Enum(decl), e, Cursor(bytes)).Ok?
    requires Matched(Enum(decl), e, bytes)
    ensures Encodable(Enum(decl))
    ensures
      var (v, after) := Decode(Enum(decl), e, Cursor(bytes)).value;
      after.Cursor? && Encode(Enum(decl), e, v) + after.rest == bytes
  {
    var k := decl.repr.value;
    var n := k.Size();
    var e' := Resolve(decl.attr, e);
    var d := ReadPrimitive(e', k, bytes[..n]);
    var i := FirstMatch(decl.variants, d).value;
    assert Decode(Enum(decl), e, Cursor(bytes)).value == (VariantV(i, []), Cursor(bytes[n..]));
    assert Discriminant(decl, i) == d;
    EncodeIntEnum(decl, e, i);
    EncodePrim(k, e', d);
    WriteOfRead(e', k, bytes[..n]);
    SplitAt(bytes, n);
  }

  /** With no matching discriminant the default variant is returned, and re-encoding it writes the
      default's own discriminant, not the one read: the fallback does not round-trip. */
  lemma DefaultFallbackIsLossy(decl: EnumDecl, e: Endian, bytes: seq<Byte>)
    requires WellFormed(Enum(decl)) && UnpackableEnum(decl)
    requires decl.repr.value.Size() <= |bytes|
    requires FirstMatch(decl.variants, ReadPrimitive(Resolve(decl.attr, e), decl.repr.value,
                                                     bytes[..decl.repr.value.Size()])).None?
    requires DefaultIndex(decl.variants).Some?
    ensures Decode(Enum(decl), e, Cursor(bytes)).Ok?
    ensures Decode(Enum(decl), e, Cursor(bytes)).value.0 == VariantV(DefaultIndex(decl.variants).value, [])
    ensures Encode(Enum(decl), e, Decode(Enum(decl), e, Cursor(bytes)).value.0) != bytes[..decl.repr.value.Size()]
  {
    var k := decl.repr.value;
    var n := k.Size();
    var e' := Resolve(decl.attr, e);
    var d := ReadPrimitive(e', k, bytes[..n]);
    var i := DefaultIndex(decl.variants).value;
    EncodeIntEnum(decl, e, i);
    EncodePrim(k, e', Discriminant(decl, i));
    ReadOfWrite(e', k, Discriminant(decl, i));
    assert Discriminant(decl, i) != d;
  }
}
