/** The headers of instructor/examples/derive.rs, decoded from the example's fourteen bytes through
    the generated struct decoders: an ACL header with a 16-bit bitfield group (handle, packet
    boundary flag, broadcast flag) and a length, an L2CAP header whose length counts two more bytes
    than follow it, and a signaling header whose code is a repr(u8) enum. */
module Example {
  import opened Errors
  import opened Ints
  import opened Endianness
  import opened Bitwise
  import opened BitStorage
  import opened Types
  import opened Buffers
  import opened Unpack
  import opened Derive
  import opened DeriveUnpack
  import opened UnpackRun

  /** Fieldless, non-default variants with the discriminants ds, in order. */
  function Units(ds: seq<Byte>): (r: seq<VariantDecl>)
    ensures |r| == |ds| && forall i :: 0 <= i < |ds| ==> r[i] == VariantDecl(Some(ds[i]), false, [])
  {
    seq(|ds|, i requires 0 <= i < |ds| => VariantDecl(Some(ds[i]), false, []))
  }

  /** A `#[repr(u8)]` enum of fieldless variants with discriminants ds. */
  function ReprU8(ds: seq<Byte>): EnumDecl {
    EnumDecl(Generic, Some(U8), Units(ds))
  }

  /** Such an enum is one `derive(Exstruct)` accepts, with discriminants that fit a u8. */
  lemma ReprU8Decodable(ds: seq<Byte>)
    ensures Decodable(Enum(ReprU8(ds))) && WellFormed(Enum(ReprU8(ds)))
  {
  }

  /** `enum BoundaryFlag`. */
  const BoundaryFlag: EnumDecl := ReprU8([0, 1, 2])

  /** `enum BroadcastFlag`. */
  const BroadcastFlag: EnumDecl := ReprU8([0, 1])

  /** `enum SignalingCodes`: twenty codes, 0x01 to 0x0B and 0x12 to 0x1A. */
  const SignalingCodes: EnumDecl := ReprU8(SignalingDiscriminants)

  const SignalingDiscriminants: seq<Byte> :=
    [0x01, 0x02, 0x03, 0x04, 0x05, 0x06, 0x07, 0x08, 0x09, 0x0A, 0x0B,
     0x12, 0x13, 0x14, 0x15, 0x16, 0x17, 0x18, 0x19, 0x1A]

  /** `struct AclHeader`: `handle: u16` opens a u16 group on bits 0..12, `pb` takes bits 12..14,
      `bc` bits 14..16, then `length: Length<u16, 0>` from the outer buffer. */
  const AclHeader: seq<Field> := AclFields(BoundaryFlag, BroadcastFlag)

  /** The ACL header's fields, with the two flag enums as parameters. */
  function AclFields(pb: EnumDecl, bc: EnumDecl): seq<Field> {
    [Field(Prim(U16), Some(Reg16), Some((0, 12))),
     Field(Enum(pb), None, Some((12, 14))),
     Field(Enum(bc), None, Some((14, 16))),
     Field(LengthOf(U16, 0), None, None)]
  }

  /** `struct L2capHeader`: `len: Length<u16, 2>`, `cid: u16`. */
  const L2capHeader: seq<Field> := [Field(LengthOf(U16, 2), None, None), Field(Prim(U16), None, None)]

  /** `struct SignalingHeader`: `code: SignalingCodes`, `id: u8`, `length: Length<u16, 0>`. */
  const SignalingHeader: seq<Field> := SignalingFields(SignalingCodes)

  /** The signaling header's fields, with the code enum as a parameter. */
  function SignalingFields(code: EnumDecl): seq<Field> {
    [Field(Enum(code), None, None), Field(Prim(U8), None, None), Field(LengthOf(U16, 0), None, None)]
  }

  // ---------------------------------------------------------------------------------------------
  // Running a plan field by field

  /** A struct without orphan ranges has the plan of all its fields. */
  lemma PlanIsStmts(fields: seq<Field>)
    requires forall j :: 0 <= j < |fields| ==> !Orphan(fields, j)
    ensures StructPlan(fields) == Ok(Stmts(fields, |fields|))
  {
    assert FirstOrphan(fields, 0).None?;
  }

  /** The first n fields run as the first n - 1 and then field n - 1. */
  lemma RunNext(fields: seq<Field>, e: Endian, n: nat, st0: State, mid: State)
    requires 0 < n <= |fields| && Readable(st0.src) && Run(fields, e, Stmts(fields, n - 1), st0) == Done(mid)
    ensures Run(fields, e, Stmts(fields, n), st0) == Run(fields, e, FieldStmts(fields[n - 1], n - 1), mid)
  {
    RunThen(fields, e, Stmts(fields, n - 1), FieldStmts(fields[n - 1], n - 1), st0, mid);
  }

  /** When the first n - 1 fields take st0 to mid and field n - 1 takes mid to next, the first n
      fields take st0 to next. */
  lemma RunExtend(fields: seq<Field>, e: Endian, n: nat, st0: State, mid: State, next: State)
    requires 0 < n <= |fields| && Readable(st0.src) && Readable(mid.src)
    requires Run(fields, e, Stmts(fields, n - 1), st0) == Done(mid)
    requires Run(fields, e, FieldStmts(fields[n - 1], n - 1), mid) == Done(next)
    ensures Run(fields, e, Stmts(fields, n), st0) == Done(next)
  {
    RunNext(fields, e, n, st0, mid);
  }

  /** No fields take a state to itself. */
  lemma RunNone(fields: seq<Field>, e: Endian, st0: State)
    requires Readable(st0.src)
    ensures Run(fields, e, Stmts(fields, 0), st0) == Done(st0)
  {
  }

  /** A plan of four fields without orphan ranges is their statements. */
  lemma NoOrphans4(fields: seq<Field>)
    requires |fields| == 4 && !Orphan(fields, 0) && !Orphan(fields, 1) && !Orphan(fields, 2) && !Orphan(fields, 3)
    ensures StructPlan(fields) == Ok(Stmts(fields, 4))
  {
    PlanIsStmts(fields);
  }

  /** Four fields in a row: when field k takes sk to sk+1, the first four take s0 to s4. */
  lemma Chain4(fields: seq<Field>, e: Endian, s0: State, s1: State, s2: State, s3: State, s4: State)
    requires 4 <= |fields| && Readable(s0.src) && Readable(s1.src) && Readable(s2.src) && Readable(s3.src)
    requires Run(fields, e, FieldStmts(fields[0], 0), s0) == Done(s1)
    requires Run(fields, e, FieldStmts(fields[1], 1), s1) == Done(s2)
    requires Run(fields, e, FieldStmts(fields[2], 2), s2) == Done(s3)
    requires Run(fields, e, FieldStmts(fields[3], 3), s3) == Done(s4)
    ensures Run(fields, e, Stmts(fields, 4), s0) == Done(s4)
  {
    RunNone(fields, e, s0);
    RunExtend(fields, e, 1, s0, s0, s1);
    RunExtend(fields, e, 2, s0, s1, s2);
    RunExtend(fields, e, 3, s0, s2, s3);
    RunExtend(fields, e, 4, s0, s3, s4);
  }

  /** Three fields in a row. */
  lemma Chain3(fields: seq<Field>, e: Endian, s0: State, s1: State, s2: State, s3: State)
    requires 3 <= |fields| && Readable(s0.src) && Readable(s1.src) && Readable(s2.src)
    requires Run(fields, e, FieldStmts(fields[0], 0), s0) == Done(s1)
    requires Run(fields, e, FieldStmts(fields[1], 1), s1) == Done(s2)
    requires Run(fields, e, FieldStmts(fields[2], 2), s2) == Done(s3)
    ensures Run(fields, e, Stmts(fields, 3), s0) == Done(s3)
  {
    RunNone(fields, e, s0);
    RunExtend(fields, e, 1, s0, s0, s1);
    RunExtend(fields, e, 2, s0, s1, s2);
    RunExtend(fields, e, 3, s0, s2, s3);
  }

  /** Two fields in a row. */
  lemma Chain2(fields: seq<Field>, e: Endian, s0: State, s1: State, s2: State)
    requires 2 <= |fields| && Readable(s0.src) && Readable(s1.src)
    requires Run(fields, e, FieldStmts(fields[0], 0), s0) == Done(s1)
    requires Run(fields, e, FieldStmts(fields[1], 1), s1) == Done(s2)
    ensures Run(fields, e, Stmts(fields, 2), s0) == Done(s2)
  {
    RunNone(fields, e, s0);
    RunExtend(fields, e, 1, s0, s0, s1);
    RunExtend(fields, e, 2, s0, s1, s2);
  }

  /** Values appended one at a time to an empty list. */
  lemma Appended(a: Value, b: Value, c: Value, d: Value)
    ensures [] + [a] + [b] == [a, b]
    ensures [] + [a] + [b] + [c] == [a, b, c]
    ensures [] + [a] + [b] + [c] + [d] == [a, b, c, d]
  {
  }

  /** A field without attributes reads itself from the outer buffer. */
  lemma PlainField(fields: seq<Field>, e: Endian, i: nat, st: State, v: Value, after: Source)
    requires i < |fields| && fields[i].bitfield.None? && fields[i].bits.None?
    requires Decodable(fields[i].ty) && WellFormed(fields[i].ty) && Readable(st.src)
    requires Decode(fields[i].ty, e, st.src) == Ok((v, after))
    ensures Run(fields, e, FieldStmts(fields[i], i), st) == Done(State(after, None, st.values + [v]))
  {
    assert FieldStmts(fields[i], i) == [ReadField(i)];
    RunOne(fields, e, ReadField(i), st);
  }

  /** A field with a range and no `bitfield(T)` reads itself from the open group. */
  lemma RangeField(fields: seq<Field>, e: Endian, i: nat, st: State, v: Value, g': Source)
    requires i < |fields| && fields[i].bitfield.None? && fields[i].bits.Some?
    requires Decodable(fields[i].ty) && WellFormed(fields[i].ty) && Readable(st.src)
    requires var (a, b) := fields[i].bits.value;
      st.group.Some? && st.group.value.Bits? && ValidRange(st.group.value.storage, a, b)
      && Decode(fields[i].ty, BigEndian, st.group.value.(start := a, end := b)) == Ok((v, g'))
    ensures Run(fields, e, FieldStmts(fields[i], i), st) == Done(State(st.src, Some(g'), st.values + [v]))
  {
    var (a, b) := fields[i].bits.value;
    var s := ReadBits(a, b, i);
    assert Step(fields, e, s, st) == Done(State(st.src, Some(g'), st.values + [v]));
    assert FieldStmts(fields[i], i) == [s];
    RunOne(fields, e, s, st);
  }

  /** A field with `bitfield(T)` and a range reads the register of kind k from the outer buffer,
      then itself from that register. */
  lemma OpeningField(fields: seq<Field>, e: Endian, i: nat, st: State, r: Value, after: Source, v: Value, g': Source)
    requires i < |fields| && fields[i].bitfield.Some? && fields[i].bits.Some?
    requires Decodable(fields[i].ty) && WellFormed(fields[i].ty) && Readable(st.src)
    requires Decode(StorageTy(fields[i].bitfield.value), e, st.src) == Ok((r, after))
    requires var k, (a, b) := fields[i].bitfield.value, fields[i].bits.value;
      ValidRange(k, a, b)
      && Decode(fields[i].ty, BigEndian, Bits(k, RegisterOf(r), a, b, Buffers.Remaining(after))) == Ok((v, g'))
    ensures Run(fields, e, FieldStmts(fields[i], i), st) == Done(State(after, Some(g'), st.values + [v]))
  {
    var k := fields[i].bitfield.value;
    var open := NewBitBuffer(k);
    var mid := State(after, Some(Bits(k, RegisterOf(r), 0, 0, Buffers.Remaining(after))), st.values);
    var s := ReadBits(fields[i].bits.value.0, fields[i].bits.value.1, i);
    assert FieldStmts(fields[i], i) == [open] + [s];
    RunOne(fields, e, open, st);
    RunThen(fields, e, [open], [s], st, mid);
    RunOne(fields, e, s, mid);
  }

  // ---------------------------------------------------------------------------------------------
  // The three headers

  /** `AclHeader { handle: 0x800, pb: FirstAutomaticallyFlushable, bc: PointToPoint, length: 10 }`:
      the u16 register 0x2800, read little-endian, splits into bits 0..12, 12..14 and 14..16, and
      ten bytes follow the length. */
  lemma DecodeAcl(rest: seq<Byte>)
    requires |rest| == 10
    ensures StructPlan(AclHeader).Ok?
    ensures DecodeStruct(AclHeader, Little, LittleEndian, Cursor([0x00, 0x28, 0x0a, 0x00] + rest))
            == Done(State(Cursor(rest), None, [IntV(0x800), VariantV(2, []), VariantV(0, []), LengthV(10)]))
  {
    ReprU8Decodable([0, 1, 2]);
    ReprU8Decodable([0, 1]);
    AclBoundary();
    AclBroadcast();
    AclRun(BoundaryFlag, BroadcastFlag, rest);
  }

  /** The ACL header's decoder for any flag enums that read 2 and 0 from bits 12..14 and 14..16. */
  lemma AclRun(pb: EnumDecl, bc: EnumDecl, rest: seq<Byte>)
    requires |rest| == 10
    requires Decodable(Enum(pb)) && WellFormed(Enum(pb)) && Decodable(Enum(bc)) && WellFormed(Enum(bc))
    requires Decode(Enum(pb), BigEndian, Bits(Reg16, 0x2800, 12, 14, 12))
             == Ok((VariantV(2, []), Bits(Reg16, 0x2800, 12, 14, 12)))
    requires Decode(Enum(bc), BigEndian, Bits(Reg16, 0x2800, 14, 16, 12))
             == Ok((VariantV(0, []), Bits(Reg16, 0x2800, 14, 16, 12)))
    ensures StructPlan(AclFields(pb, bc)).Ok?
    ensures DecodeStruct(AclFields(pb, bc), Little, LittleEndian, Cursor([0x00, 0x28, 0x0a, 0x00] + rest))
            == Done(State(Cursor(rest), None, [IntV(0x800), VariantV(2, []), VariantV(0, []), LengthV(10)]))
  {
    AclPlan(pb, bc);
    AclFieldsRun(pb, bc, rest);
  }

  /** The ACL header has no orphan range: the handle opens the u16 group and the flags continue it. */
  lemma AclPlan(pb: EnumDecl, bc: EnumDecl)
    ensures StructPlan(AclFields(pb, bc)) == Ok(Stmts(AclFields(pb, bc), 4))
  {
    var fs := AclFields(pb, bc);
    assert Open(fs, 0) && Open(fs, 1) && Open(fs, 2);
    NoOrphans4(fs);
  }

  /** The values the ACL header decodes to. */
  const AclValues: seq<Value> := [IntV(0x800), VariantV(2, []), VariantV(0, []), LengthV(10)]

  /** The decoder's state after the first k fields of the ACL header: the register is read with
      the first field, the length with the last. */
  function AclState(k: nat, rest: seq<Byte>): State
    requires k <= 4
  {
    if k == 0 then State(Cursor([0x00, 0x28, 0x0a, 0x00] + rest), None, [])
    else if k == 4 then State(Cursor(rest), None, AclValues)
    else
      var bounds := [0, 12, 14, 16];
      State(Cursor([0x0a, 0x00] + rest), Some(Bits(Reg16, 0x2800, bounds[k - 1], bounds[k], 12)), AclValues[..k])
  }

  /** The states between the register's three ranges. */
  lemma AclMiddle(rest: seq<Byte>)
    ensures AclState(1, rest) == State(Cursor([0x0a, 0x00] + rest), Some(Bits(Reg16, 0x2800, 0, 12, 12)), AclValues[..1])
    ensures AclState(2, rest) == State(Cursor([0x0a, 0x00] + rest), Some(Bits(Reg16, 0x2800, 12, 14, 12)), AclValues[..1] + [VariantV(2, [])])
    ensures AclState(3, rest) == State(Cursor([0x0a, 0x00] + rest), Some(Bits(Reg16, 0x2800, 14, 16, 12)), AclValues[..2] + [VariantV(0, [])])
    ensures AclValues[..2] == AclValues[..1] + [VariantV(2, [])]
  {
    assert AclValues[..1] + [VariantV(2, [])] == AclValues[..2];
    assert AclValues[..2] + [VariantV(0, [])] == AclValues[..3];
  }

  /** The four fields of the ACL header, one at a time. */
  lemma AclFieldsRun(pb: EnumDecl, bc: EnumDecl, rest: seq<Byte>)
    requires |rest| == 10
    requires Decodable(Enum(pb)) && WellFormed(Enum(pb)) && Decodable(Enum(bc)) && WellFormed(Enum(bc))
    requires Decode(Enum(pb), BigEndian, Bits(Reg16, 0x2800, 12, 14, 12))
             == Ok((VariantV(2, []), Bits(Reg16, 0x2800, 12, 14, 12)))
    requires Decode(Enum(bc), BigEndian, Bits(Reg16, 0x2800, 14, 16, 12))
             == Ok((VariantV(0, []), Bits(Reg16, 0x2800, 14, 16, 12)))
    ensures Run(AclFields(pb, bc), LittleEndian, Stmts(AclFields(pb, bc), 4), AclState(0, rest)) == Done(AclState(4, rest))
  {
    AclField0(pb, bc, rest);
    AclField1(pb, bc, rest);
    AclField2(pb, bc, rest);
    AclField3(pb, bc, rest);
    Chain4(AclFields(pb, bc), LittleEndian, AclState(0, rest), AclState(1, rest), AclState(2, rest), AclState(3, rest), AclState(4, rest));
  }

  /** The handle: opens the u16 register and reads bits 0..12 of it. */
  lemma AclField0(pb: EnumDecl, bc: EnumDecl, rest: seq<Byte>)
    requires |rest| == 10
    ensures Run(AclFields(pb, bc), LittleEndian, FieldStmts(AclFields(pb, bc)[0], 0), AclState(0, rest)) == Done(AclState(1, rest))
  {
    AclOuter(rest);
    AclHandle();
    assert [] + [IntV(0x800)] == AclValues[..1];
    OpeningField(AclFields(pb, bc), LittleEndian, 0, AclState(0, rest), IntV(0x2800), Cursor([0x0a, 0x00] + rest),
                 IntV(0x800), Bits(Reg16, 0x2800, 0, 12, 12));
  }

  /** The boundary flag: bits 12..14 of the open register. */
  lemma AclField1(pb: EnumDecl, bc: EnumDecl, rest: seq<Byte>)
    requires Decodable(Enum(pb)) && WellFormed(Enum(pb))
    requires Decode(Enum(pb), BigEndian, Bits(Reg16, 0x2800, 12, 14, 12))
             == Ok((VariantV(2, []), Bits(Reg16, 0x2800, 12, 14, 12)))
    ensures Run(AclFields(pb, bc), LittleEndian, FieldStmts(AclFields(pb, bc)[1], 1), AclState(1, rest)) == Done(AclState(2, rest))
  {
    var src := Cursor([0x0a, 0x00] + rest);
    var before := State(src, Some(Bits(Reg16, 0x2800, 0, 12, 12)), AclValues[..1]);
    AclMiddle(rest);
    RangeField(AclFields(pb, bc), LittleEndian, 1, before, VariantV(2, []), Bits(Reg16, 0x2800, 12, 14, 12));
  }

  /** The broadcast flag: bits 14..16 of the open register. */
  lemma AclField2(pb: EnumDecl, bc: EnumDecl, rest: seq<Byte>)
    requires Decodable(Enum(bc)) && WellFormed(Enum(bc))
    requires Decode(Enum(bc), BigEndian, Bits(Reg16, 0x2800, 14, 16, 12))
             == Ok((VariantV(0, []), Bits(Reg16, 0x2800, 14, 16, 12)))
    ensures Run(AclFields(pb, bc), LittleEndian, FieldStmts(AclFields(pb, bc)[2], 2), AclState(2, rest)) == Done(AclState(3, rest))
  {
    var src := Cursor([0x0a, 0x00] + rest);
    var before := State(src, Some(Bits(Reg16, 0x2800, 12, 14, 12)), AclValues[..2]);
    AclMiddle(rest);
    RangeField(AclFields(pb, bc), LittleEndian, 2, before, VariantV(0, []), Bits(Reg16, 0x2800, 14, 16, 12));
  }

  /** The length: read from the outer buffer, with the ten payload bytes after it. */
  lemma AclField3(pb: EnumDecl, bc: EnumDecl, rest: seq<Byte>)
    requires |rest| == 10
    ensures Run(AclFields(pb, bc), LittleEndian, FieldStmts(AclFields(pb, bc)[3], 3), AclState(3, rest)) == Done(AclState(4, rest))
  {
    AclOuter(rest);
    assert AclValues[..3] + [LengthV(10)] == AclValues;
    PlainField(AclFields(pb, bc), LittleEndian, 3, AclState(3, rest), LengthV(10), Cursor(rest));
  }

  /** The outer reads of the ACL header: the u16 register, then the length with ten bytes after it. */
  lemma AclOuter(rest: seq<Byte>)
    requires |rest| == 10
    ensures Decode(Prim(U16), LittleEndian, Cursor([0x00, 0x28, 0x0a, 0x00] + rest))
            == Ok((IntV(0x2800), Cursor([0x0a, 0x00] + rest)))
    ensures Decode(LengthOf(U16, 0), LittleEndian, Cursor([0x0a, 0x00] + rest)) == Ok((LengthV(10), Cursor(rest)))
  {
    var bytes: seq<Byte> := [0x00, 0x28, 0x0a, 0x00] + rest;
    assert bytes[..2] == [0x00, 0x28] && bytes[2..] == [0x0a, 0x00] + rest;
    assert ([0x0a, 0x00] + rest)[..2] == [0x0a, 0x00] && ([0x0a, 0x00] + rest)[2..] == rest;
    LeU16(0x00, 0x28);
    LeU16(0x0a, 0x00);
  }

  /** `handle`: bits 0..12 of the register, read as a big-endian u16. */
  lemma AclHandle()
    ensures Decode(Prim(U16), BigEndian, Bits(Reg16, 0x2800, 0, 12, 12))
            == Ok((IntV(0x800), Bits(Reg16, 0x2800, 0, 12, 12)))
  {
    AclWindows();
    BeU16(Extract(Reg16, 0x2800, 0, 12));
    assert Extract(Reg16, 0x2800, 0, 12) == [0x08, 0x00];
    BeU16Value(0x08, 0x00);
  }

  /** `pb`: bits 12..14, the low byte of the window read as the u8 repr; discriminant 2 is the third
      variant. */
  lemma AclBoundary()
    ensures Decode(Enum(BoundaryFlag), BigEndian, Bits(Reg16, 0x2800, 12, 14, 12))
            == Ok((VariantV(2, []), Bits(Reg16, 0x2800, 12, 14, 12)))
  {
    ReprU8Decodable([0, 1, 2]);
    WindowByte(12, 14, 2);
    FirstMatchAt(BoundaryFlag.variants, 2, 2);
  }

  /** `bc`: bits 14..16, discriminant 0, the first variant. */
  lemma AclBroadcast()
    ensures Decode(Enum(BroadcastFlag), BigEndian, Bits(Reg16, 0x2800, 14, 16, 12))
            == Ok((VariantV(0, []), Bits(Reg16, 0x2800, 14, 16, 12)))
  {
    ReprU8Decodable([0, 1]);
    WindowByte(14, 16, 0);
    FirstMatchAt(BroadcastFlag.variants, 0, 0);
  }

  /** A flag window of the register 0x2800 read as a big-endian u8: the low byte of the extracted
      u16. */
  lemma WindowByte(a: nat, b: nat, d: Byte)
    requires (a, b, d) == (12, 14, 2) || (a, b, d) == (14, 16, 0)
    ensures DecodeInt(U8, BigEndian, Bits(Reg16, 0x2800, a, b, 12)) == Ok((d as int, Bits(Reg16, 0x2800, a, b, 12)))
  {
    AclWindows();
    BeU16(Extract(Reg16, 0x2800, a, b));
    assert Extract(Reg16, 0x2800, a, b)[1..] == [d];
    BeU8(d);
  }

  /** The windows `[0, 12)`, `[12, 14)` and `[14, 16)` of the register 0x2800. */
  lemma AclWindows()
    ensures Window(0x2800, 0, 12) == 0x800 && Window(0x2800, 12, 14) == 2 && Window(0x2800, 14, 16) == 0
  {
    assert Pow2(2) == 4;
    assert Pow2(12) == 4096;
    assert Pow2(14) == 16384;
  }

  /** `L2capHeader { len: 6, cid: 1 }`: six bytes follow the length, two of them the cid. */
  lemma DecodeL2cap(rest: seq<Byte>)
    requires |rest| == 6
    ensures StructPlan(L2capHeader).Ok?
    ensures DecodeStruct(L2capHeader, Little, LittleEndian, Cursor([0x06, 0x00, 0x01, 0x00] + rest))
            == Done(State(Cursor(rest), None, [LengthV(6), IntV(1)]))
  {
    var fs := L2capHeader;
    assert !Orphan(fs, 0) && !Orphan(fs, 1);
    PlanIsStmts(fs);
    L2capFieldsRun(rest);
  }

  /** The two fields of the L2CAP header, one at a time. */
  lemma L2capFieldsRun(rest: seq<Byte>)
    requires |rest| == 6
    ensures Run(L2capHeader, LittleEndian, Stmts(L2capHeader, 2), State(Cursor([0x06, 0x00, 0x01, 0x00] + rest), None, []))
            == Done(State(Cursor(rest), None, [LengthV(6), IntV(1)]))
  {
    var fs := L2capHeader;
    var v0, v1 := LengthV(6), IntV(1);
    var s0 := State(Cursor([0x06, 0x00, 0x01, 0x00] + rest), None, []);
    var s1 := State(Cursor([0x01, 0x00] + rest), None, s0.values + [v0]);
    var s2 := State(Cursor(rest), None, s1.values + [v1]);
    DecodeLength(0x06, 0x00, 2, [0x01, 0x00] + rest);
    DecodeU16(0x01, 0x00, rest);
    assert [0x06, 0x00, 0x01, 0x00] + rest == [0x06, 0x00] + ([0x01, 0x00] + rest);
    PlainField(fs, LittleEndian, 0, s0, v0, s1.src);
    PlainField(fs, LittleEndian, 1, s1, v1, s2.src);
    Chain2(fs, LittleEndian, s0, s1, s2);
    Appended(v0, v1, v1, v1);
  }

  /** `SignalingHeader { code: InformationRequest, id: 2, length: 2 }`: code 0x0A is the tenth
      variant, and two bytes follow the length. */
  lemma DecodeSignaling(rest: seq<Byte>)
    requires |rest| == 2
    ensures StructPlan(SignalingHeader).Ok?
    ensures DecodeStruct(SignalingHeader, Little, LittleEndian, Cursor([0x0a, 0x02, 0x02, 0x00] + rest))
            == Done(State(Cursor(rest), None, [VariantV(9, []), IntV(2), LengthV(2)]))
  {
    SignalingCodeFirst(rest);
    SignalingRun(SignalingCodes, rest);
  }

  /** The code at the head of the signaling header. */
  lemma SignalingCodeFirst(rest: seq<Byte>)
    ensures Decodable(Enum(SignalingCodes)) && WellFormed(Enum(SignalingCodes))
    ensures Decode(Enum(SignalingCodes), LittleEndian, Cursor([0x0a, 0x02, 0x02, 0x00] + rest))
            == Ok((VariantV(9, []), Cursor([0x02, 0x02, 0x00] + rest)))
  {
    ReprU8Decodable(SignalingDiscriminants);
    SignalingCode([0x02, 0x02, 0x00] + rest);
    assert [0x0a, 0x02, 0x02, 0x00] + rest == [0x0a] + ([0x02, 0x02, 0x00] + rest);
  }

  /** The signaling header's decoder for any code enum that reads 0x0A as its tenth variant. */
  lemma SignalingRun(code: EnumDecl, rest: seq<Byte>)
    requires |rest| == 2 && Decodable(Enum(code)) && WellFormed(Enum(code))
    requires Decode(Enum(code), LittleEndian, Cursor([0x0a, 0x02, 0x02, 0x00] + rest))
             == Ok((VariantV(9, []), Cursor([0x02, 0x02, 0x00] + rest)))
    ensures StructPlan(SignalingFields(code)).Ok?
    ensures DecodeStruct(SignalingFields(code), Little, LittleEndian, Cursor([0x0a, 0x02, 0x02, 0x00] + rest))
            == Done(State(Cursor(rest), None, [VariantV(9, []), IntV(2), LengthV(2)]))
  {
    var fs := SignalingFields(code);
    assert !Orphan(fs, 0) && !Orphan(fs, 1) && !Orphan(fs, 2);
    PlanIsStmts(fs);
    SignalingFieldsRun(code, rest);
  }

  /** The three fields of the signaling header, one at a time. */
  lemma SignalingFieldsRun(code: EnumDecl, rest: seq<Byte>)
    requires |rest| == 2 && Decodable(Enum(code)) && WellFormed(Enum(code))
    requires Decode(Enum(code), LittleEndian, Cursor([0x0a, 0x02, 0x02, 0x00] + rest))
             == Ok((VariantV(9, []), Cursor([0x02, 0x02, 0x00] + rest)))
    ensures Run(SignalingFields(code), LittleEndian, Stmts(SignalingFields(code), 3),
                State(Cursor([0x0a, 0x02, 0x02, 0x00] + rest), None, []))
            == Done(State(Cursor(rest), None, [VariantV(9, []), IntV(2), LengthV(2)]))
  {
    var fs := SignalingFields(code);
    var v0, v1, v2 := VariantV(9, []), IntV(2), LengthV(2);
    var s0 := State(Cursor([0x0a, 0x02, 0x02, 0x00] + rest), None, []);
    var s1 := State(Cursor([0x02, 0x02, 0x00] + rest), None, s0.values + [v0]);
    var s2 := State(Cursor([0x02, 0x00] + rest), None, s1.values + [v1]);
    var s3 := State(Cursor(rest), None, s2.values + [v2]);
    DecodeU8(0x02, [0x02, 0x00] + rest);
    DecodeLength(0x02, 0x00, 0, rest);
    assert [0x02, 0x02, 0x00] + rest == [0x02] + ([0x02, 0x00] + rest);
    PlainField(fs, LittleEndian, 0, s0, v0, s1.src);
    PlainField(fs, LittleEndian, 1, s1, v1, s2.src);
    PlainField(fs, LittleEndian, 2, s2, v2, s3.src);
    Chain3(fs, LittleEndian, s0, s1, s2, s3);
    Appended(v0, v1, v2, v2);
  }

  /** Code 0x0A selects `InformationRequest`, the tenth variant. */
  lemma SignalingCode(rest: seq<Byte>)
    ensures Decode(Enum(SignalingCodes), LittleEndian, Cursor([0x0a] + rest)) == Ok((VariantV(9, []), Cursor(rest)))
  {
    ReprU8Decodable(SignalingDiscriminants);
    CodeByte(rest);
    FirstMatchAt(SignalingCodes.variants, 0x0a, 9);
  }

  lemma CodeByte(rest: seq<Byte>)
    ensures DecodeInt(U8, LittleEndian, Cursor([0x0a] + rest)) == Ok((0x0a, Cursor(rest)))
  {
    assert ([0x0a] + rest)[..1] == [0x0a] && ([0x0a] + rest)[1..] == rest;
    LeU8(0x0a);
  }

  /** A u8 from a cursor. */
  lemma DecodeU8(b: Byte, rest: seq<Byte>)
    ensures Decode(Prim(U8), LittleEndian, Cursor([b] + rest)) == Ok((IntV(b), Cursor(rest)))
  {
    assert ([b] + rest)[..1] == [b] && ([b] + rest)[1..] == rest;
    LeU8(b);
  }

  /** A little-endian u16 from a cursor. */
  lemma DecodeU16(lo: Byte, hi: Byte, rest: seq<Byte>)
    ensures Decode(Prim(U16), LittleEndian, Cursor([lo, hi] + rest))
            == Ok((IntV(lo as int + 256 * hi as int), Cursor(rest)))
  {
    assert ([lo, hi] + rest)[..2] == [lo, hi] && ([lo, hi] + rest)[2..] == rest;
    LeU16(lo, hi);
  }

  /** A little-endian `Length<u16, OFFSET>` from a cursor, when exactly value + OFFSET bytes follow. */
  lemma DecodeLength(lo: Byte, hi: Byte, off: int, rest: seq<Byte>)
    requires 0 <= off <= 2 && |rest| == lo as int + 256 * hi as int + off
    ensures Decode(LengthOf(U16, off), LittleEndian, Cursor([lo, hi] + rest))
            == Ok((LengthV(lo as int + 256 * hi as int), Cursor(rest)))
  {
    assert ([lo, hi] + rest)[..2] == [lo, hi] && ([lo, hi] + rest)[2..] == rest;
    LeU16(lo, hi);
  }

  /** The first variant with discriminant d is the one at i when none before it has d. */
  lemma FirstMatchAt(variants: seq<VariantDecl>, d: int, i: nat)
    requires i < |variants| && variants[i].discr == Some(d)
    requires forall j :: 0 <= j < i ==> variants[j].discr != Some(d)
    ensures FirstMatch(variants, d) == Some(i)
  {
  }

  /** Two big-endian bytes. */
  lemma BeU16(r: seq<Byte>)
    requires |r| == 2
    ensures BeValue(r) == r[0] as int * 256 + r[1] as int
  {
    assert r[..1][..0] == [] && r[..1][0] == r[0];
    assert BeValue(r[..1]) == r[0];
    assert r[..|r| - 1] == r[..1];
  }

  /** Two bytes read as a big-endian u16. */
  lemma BeU16Value(hi: Byte, lo: Byte)
    ensures FromBeBytes(U16, [hi, lo]) == hi as int * 256 + lo as int
  {
    BeU16([hi, lo]);
    assert !U16.Signed() && hi as int * 256 + lo as int < U16.Modulus();
  }

  /** One byte read as a big-endian u8. */
  lemma BeU8(b: Byte)
    ensures FromBeBytes(U8, [b]) == b
  {
    assert [b][..0] == [];
  }

  /** One byte read as a u8. */
  lemma LeU8(b: Byte)
    ensures FromLeBytes(U8, [b]) == b
  {
    assert [b][1..] == [];
  }

  /** Two bytes read as a little-endian u16. */
  lemma LeU16(lo: Byte, hi: Byte)
    ensures FromLeBytes(U16, [lo, hi]) == lo as int + 256 * hi as int
  {
    assert [lo, hi][1..] == [hi] && [hi][1..] == [];
    assert LeValue([hi]) == hi;
    assert LeValue([lo, hi]) == lo as int + 256 * hi as int;
    assert !U16.Signed() && lo as int + 256 * hi as int < U16.Modulus();
  }
  // ---------------------------------------------------------------------------------------------
  // The example's byte stream

  /** The fourteen bytes the example reads its three headers from. */
  const ExampleBytes: seq<Byte> :=
    [0x00, 0x28, 0x0a, 0x00, 0x06, 0x00, 0x01, 0x00, 0x0a, 0x02, 0x02, 0x00, 0x02, 0x00]

  /** The example's three reads, one after another from the same buffer: the ACL header takes four
      bytes, the L2CAP header four, the signaling header four, and the two payload bytes
      `[0x02, 0x00]` are left over. Each length field matches the bytes left after it. */
  lemma DecodeExampleBytes()
    ensures DecodeStruct(AclHeader, Little, LittleEndian, Cursor(ExampleBytes))
            == Done(State(Cursor(ExampleBytes[4..]), None, [IntV(0x800), VariantV(2, []), VariantV(0, []), LengthV(10)]))
    ensures DecodeStruct(L2capHeader, Little, LittleEndian, Cursor(ExampleBytes[4..]))
            == Done(State(Cursor(ExampleBytes[8..]), None, [LengthV(6), IntV(1)]))
    ensures DecodeStruct(SignalingHeader, Little, LittleEndian, Cursor(ExampleBytes[8..]))
            == Done(State(Cursor([0x02, 0x00]), None, [VariantV(9, []), IntV(2), LengthV(2)]))
  {
    var b := ExampleBytes;
    assert b == [0x00, 0x28, 0x0a, 0x00] + b[4..];
    assert b[4..] == [0x06, 0x00, 0x01, 0x00] + b[8..];
    assert b[8..] == [0x0a, 0x02, 0x02, 0x00] + [0x02, 0x00];
    DecodeAcl(b[4..]);
    DecodeL2cap(b[8..]);
    DecodeSignaling([0x02, 0x00]);
  }
}
