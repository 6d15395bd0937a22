/** The headers of instructor/examples/derive.rs written back through the struct-encoder plans
    `derive_pack` would produce for the same field lists. The example's types derive only the
    decoder and the example itself never encodes; these lemmas check that the plans write the
    decoded values back to the twelve header bytes they came from. */
module ExampleEncode {
  import opened Errors
  import opened Ints
  import opened Endianness
  import opened Bitwise
  import opened BitStorage
  import opened Types
  import opened Pack
  import opened Derive
  import opened DerivePack
  import opened PackRun
  import Bitfield
  import Example

  /** A statement that returns hands the rest of the plan its state. */
  lemma RunCons(fields: seq<Field>, values: seq<Value>, e: Endian, plan: seq<Stmt>, st: State, mid: State)
    requires Typed(fields, values) && plan != [] && Step(fields, values, e, plan[0], st) == Done(mid)
    ensures Run(fields, values, e, plan, st) == Run(fields, values, e, plan[1..], mid)
  {
  }

  /** The three header records of the example's stream. */
  lemma ExampleSlices()
    ensures Example.ExampleBytes[..4] == [0x00, 0x28, 0x0a, 0x00]
    ensures Example.ExampleBytes[4..8] == [0x06, 0x00, 0x01, 0x00]
    ensures Example.ExampleBytes[8..12] == [0x0a, 0x02, 0x02, 0x00]
  {
  }

  /** A struct's encoder is its plan, run from an empty buffer. */
  lemma EncodeByPlan(fields: seq<Field>, values: seq<Value>, plan: seq<Stmt>, out: seq<Byte>)
    requires StructPlan(fields) == Ok(plan) && Typed(fields, values)
    requires Run(fields, values, LittleEndian, plan, State([], None)) == Done(State(out, None))
    ensures EncodeStruct(fields, Little, LittleEndian, values) == Done(State(out, None))
  {
  }

  /** One chunk into a window of a u8..u128 register: its big-endian value, cut to the window's
      width, ORed in at the window's start. */
  lemma ExtendOne(s: Storage, reg: nat, a: nat, b: nat, chunk: seq<Byte>)
    requires ValidRange(s, a, b) && !s.Reg24? && |chunk| <= s.Width()
    ensures Bitfield.ExtendAll(s, reg, a, b, [chunk]) == Or(reg, Shl(BeValue(chunk) % Pow2(b - a), a))
  {
    var just := Bitfield.RightJustify(s.Width(), chunk);
    assert [chunk][0] == chunk && [chunk][1..] == [];
    assert Bitfield.ExtendAll(s, reg, a, b, [chunk]) == Insert(s, reg, a, b, just);
  }

  /** Little- and big-endian bytes of the example's values. */
  lemma LeU16Bytes(lo: Byte, hi: Byte)
    ensures ToLeBytes(U16, lo as int + 256 * hi as int) == [lo, hi]
  {
    Example.LeU16(lo, hi);
    ToLeOfFromLe(U16, [lo, hi]);
  }

  lemma BeU16Bytes(hi: Byte, lo: Byte)
    ensures ToBeBytes(U16, hi as int * 256 + lo as int) == [hi, lo]
  {
    Example.BeU16Value(hi, lo);
    ToBeOfFromBe(U16, [hi, lo]);
  }

  lemma U8Bytes(b: Byte)
    ensures ToBeBytes(U8, b) == [b] && ToLeBytes(U8, b) == [b]
  {
    Example.BeU8(b);
    ToBeOfFromBe(U8, [b]);
    Example.LeU8(b);
    ToLeOfFromLe(U8, [b]);
  }

  lemma FlattenOne(c: seq<Byte>)
    ensures Flatten([c]) == c
  {
    assert [c][1..] == [];
  }

  /** The ACL header's register: the handle 0x800 in bits 0..12, the boundary flag 2 in bits
      12..14 and the broadcast flag 0 in bits 14..16 make 0x2800. */
  lemma AclRegister()
    ensures Bitfield.ExtendAll(Reg16, 0, 0, 12, [[0x08, 0x00]]) == 0x800
    ensures Bitfield.ExtendAll(Reg16, 0x800, 12, 14, [[0x02]]) == 0x2800
    ensures Bitfield.ExtendAll(Reg16, 0x2800, 14, 16, [[0x00]]) == 0x2800
  {
    assert Pow2(2) == 4 && Pow2(12) == 4096;
    Example.BeU16([0x08, 0x00]);
    assert BeValue([0x02]) == 2 && BeValue([0x00]) == 0 by {
      assert [0x02][..0] == [] && [0x00][..0] == [];
    }
    ExtendOne(Reg16, 0, 0, 12, [0x08, 0x00]);
    OrZero(0x800);
    ExtendOne(Reg16, 0x800, 12, 14, [0x02]);
    assert Shl(2, 12) == 0x2000;
    forall i: nat ensures !(Bit(0x800, i) && Bit(0x2000, i)) {
      BitOfShl(2, 12, i);
      NoBitsAbove(0x800, 12);
    }
    OrDisjoint(0x800, 0x2000);
    ExtendOne(Reg16, 0x2800, 14, 16, [0x00]);
    OrZero(0x2800);
  }

  /** The ACL header's plan: open a u16 group, three ranges, flush it before the length, write the
      length. */
  lemma AclPlan()
    ensures StructPlan(Example.AclHeader).Ok?
    ensures StructPlan(Example.AclHeader).value
            == [EmptyBitBuffer(Reg16), WriteBits(0, 12, 0), WriteBits(12, 14, 1), WriteBits(14, 16, 2), Flush, WriteField(3)]
  {
    var fs := Example.AclHeader;
    assert Open(fs, 0) && Open(fs, 1) && Open(fs, 2) && !OpenBefore(fs, 4);
    assert !Orphan(fs, 0) && !Orphan(fs, 1) && !Orphan(fs, 2) && !Orphan(fs, 3);
    PlanAccepts(fs);
    assert Stmts(fs, 1) == [EmptyBitBuffer(Reg16), WriteBits(0, 12, 0)];
    assert Stmts(fs, 2) == Stmts(fs, 1) + [WriteBits(12, 14, 1)];
    assert Stmts(fs, 3) == Stmts(fs, 2) + [WriteBits(14, 16, 2)];
    assert Stmts(fs, 4) == Stmts(fs, 3) + [Flush, WriteField(3)];
  }

  lemma AclTyped()
    ensures Typed(Example.AclHeader, Example.AclValues)
  {
    Example.ReprU8Decodable([0, 1, 2]);
    Example.ReprU8Decodable([0, 1]);
  }

  /** The ACL header's three range writes, each a big-endian chunk into the u16 register. */
  lemma AclChunks()
    ensures Typed(Example.AclHeader, Example.AclValues)
    ensures Chunks(Example.AclHeader[0].ty, BigEndian, Example.AclValues[0]) == [[0x08, 0x00]]
    ensures Chunks(Example.AclHeader[1].ty, BigEndian, Example.AclValues[1]) == [[0x02]]
    ensures Chunks(Example.AclHeader[2].ty, BigEndian, Example.AclValues[2]) == [[0x00]]
  {
    AclTyped();
    BeU16Bytes(0x08, 0x00);
    U8Bytes(2);
    U8Bytes(0);
  }

  /** The ACL header's statements one at a time, on its decoded values. */
  lemma AclBits()
    ensures Typed(Example.AclHeader, Example.AclValues)
    ensures Step(Example.AclHeader, Example.AclValues, LittleEndian, WriteBits(0, 12, 0), State([], Some(Register(Reg16, 0, 0, 0))))
            == Done(State([], Some(Register(Reg16, 0x800, 0, 12))))
    ensures Step(Example.AclHeader, Example.AclValues, LittleEndian, WriteBits(12, 14, 1), State([], Some(Register(Reg16, 0x800, 0, 12))))
            == Done(State([], Some(Register(Reg16, 0x2800, 12, 14))))
    ensures Step(Example.AclHeader, Example.AclValues, LittleEndian, WriteBits(14, 16, 2), State([], Some(Register(Reg16, 0x2800, 12, 14))))
            == Done(State([], Some(Register(Reg16, 0x2800, 14, 16))))
  {
    AclChunks();
    AclRegister();
  }

  lemma AclWrites()
    ensures Typed(Example.AclHeader, Example.AclValues)
    ensures Step(Example.AclHeader, Example.AclValues, LittleEndian, Flush, State([], Some(Register(Reg16, 0x2800, 14, 16))))
            == Done(State([0x00, 0x28], None))
    ensures Step(Example.AclHeader, Example.AclValues, LittleEndian, WriteField(3), State([0x00, 0x28], None))
            == Done(State([0x00, 0x28, 0x0a, 0x00], None))
  {
    AclTyped();
    assert Pow2(12) == 4096;
    assert Pow2(16) == 65536;
    assert RegisterValue(Reg16, 0x2800) == IntV(0x2800);
    LeU16Bytes(0x00, 0x28);
    assert Chunks(Prim(U16), LittleEndian, IntV(0x2800)) == [[0x00, 0x28]];
    FlattenOne([0x00, 0x28]);
    assert Encode(StorageTy(Reg16), LittleEndian, RegisterValue(Reg16, 0x2800)) == [0x00, 0x28];
    LeU16Bytes(0x0a, 0x00);
    assert Chunks(LengthOf(U16, 0), LittleEndian, LengthV(10)) == [[0x0a, 0x00]];
    FlattenOne([0x0a, 0x00]);
    assert Encode(Example.AclHeader[3].ty, LittleEndian, Example.AclValues[3]) == [0x0a, 0x00];
    var st := State([], Some(Register(Reg16, 0x2800, 14, 16)));
    assert ValidReg(Reg16, 0x2800);
    assert Step(Example.AclHeader, Example.AclValues, LittleEndian, Flush, st)
        == Done(State([] + Encode(StorageTy(Reg16), LittleEndian, RegisterValue(Reg16, 0x2800)), None));
    assert |Example.AclHeader| == 4;
    assert Step(Example.AclHeader, Example.AclValues, LittleEndian, WriteField(3), State([0x00, 0x28], None))
        == Done(State([0x00, 0x28] + Encode(Example.AclHeader[3].ty, LittleEndian, Example.AclValues[3]), None));
    var a: seq<Byte> := [0x00, 0x28];
    var b: seq<Byte> := [0x0a, 0x00];
    assert [] + a == a;
    assert a + b == [0x00, 0x28, 0x0a, 0x00];
  }

  /** The ACL header's six statements, run from an empty buffer. */
  lemma AclRun(plan: seq<Stmt>)
    requires plan == [EmptyBitBuffer(Reg16), WriteBits(0, 12, 0), WriteBits(12, 14, 1), WriteBits(14, 16, 2), Flush, WriteField(3)]
    ensures Typed(Example.AclHeader, Example.AclValues)
    ensures Run(Example.AclHeader, Example.AclValues, LittleEndian, plan, State([], None))
            == Done(State([0x00, 0x28, 0x0a, 0x00], None))
  {
    var fs, vs, e := Example.AclHeader, Example.AclValues, LittleEndian;
    AclBits();
    AclWrites();
    var s0 := State([], None);
    var s1 := State([], Some(Register(Reg16, 0, 0, 0)));
    var s2 := State([], Some(Register(Reg16, 0x800, 0, 12)));
    var s3 := State([], Some(Register(Reg16, 0x2800, 12, 14)));
    var s4 := State([], Some(Register(Reg16, 0x2800, 14, 16)));
    var s5 := State([0x00, 0x28], None);
    var s6 := State([0x00, 0x28, 0x0a, 0x00], None);
    RunCons(fs, vs, e, plan, s0, s1);
    RunCons(fs, vs, e, plan[1..], s1, s2);
    RunCons(fs, vs, e, plan[2..], s2, s3);
    RunCons(fs, vs, e, plan[3..], s3, s4);
    RunCons(fs, vs, e, plan[4..], s4, s5);
    RunCons(fs, vs, e, plan[5..], s5, s6);
    assert plan[1..][1..] == plan[2..] && plan[2..][1..] == plan[3..] && plan[3..][1..] == plan[4..];
    assert plan[4..][1..] == plan[5..] && plan[5..][1..] == [];
  }

  /** Encoding the ACL header the example decodes gives back its four bytes. */
  lemma EncodeAcl()
    ensures Typed(Example.AclHeader, Example.AclValues) && StructPlan(Example.AclHeader).Ok?
    ensures EncodeStruct(Example.AclHeader, Little, LittleEndian, Example.AclValues)
            == Done(State(Example.ExampleBytes[..4], None))
  {
    var plan := [EmptyBitBuffer(Reg16), WriteBits(0, 12, 0), WriteBits(12, 14, 1), WriteBits(14, 16, 2), Flush, WriteField(3)];
    AclPlan();
    AclRun(plan);
    EncodeByPlan(Example.AclHeader, Example.AclValues, plan, [0x00, 0x28, 0x0a, 0x00]);
    ExampleSlices();
  }

  /** A struct of plain fields writes each of them in turn. */
  lemma PlainPlan(fields: seq<Field>)
    requires Plain(fields)
    ensures StructPlan(fields).Ok?
    ensures StructPlan(fields).value == seq(|fields|, i requires 0 <= i < |fields| => WriteField(i))
  {
    PlanAccepts(fields);
    PlainStmts(fields, |fields|);
    assert !OpenBefore(fields, |fields|);
  }

  lemma {:induction false} PlainStmts(fields: seq<Field>, n: nat)
    requires n <= |fields| && Plain(fields)
    ensures Stmts(fields, n) == seq(n, i requires 0 <= i < n => WriteField(i))
  {
    if n > 0 {
      PlainStmts(fields, n - 1);
      assert !OpenBefore(fields, n - 1);
    }
  }

  const L2capValues: seq<Value> := [LengthV(6), IntV(1)]

  /** The L2CAP header's two writes, little-endian: the length 6, the channel 1. */
  lemma L2capWrites()
    ensures Typed(Example.L2capHeader, L2capValues)
    ensures Step(Example.L2capHeader, L2capValues, LittleEndian, WriteField(0), State([], None))
            == Done(State([0x06, 0x00], None))
    ensures Step(Example.L2capHeader, L2capValues, LittleEndian, WriteField(1), State([0x06, 0x00], None))
            == Done(State([0x06, 0x00, 0x01, 0x00], None))
  {
    var fs, vs, e := Example.L2capHeader, L2capValues, LittleEndian;
    LeU16Bytes(0x06, 0x00);
    LeU16Bytes(0x01, 0x00);
    FlattenOne([0x06, 0x00]);
    FlattenOne([0x01, 0x00]);
    assert Encode(fs[0].ty, e, vs[0]) == [0x06, 0x00];
    assert Encode(fs[1].ty, e, vs[1]) == [0x01, 0x00];
    var x: seq<Byte>, y: seq<Byte> := [0x06, 0x00], [0x01, 0x00];
    assert [] + x == x && x + y == [0x06, 0x00, 0x01, 0x00];
  }

  lemma L2capRun(plan: seq<Stmt>)
    requires plan == [WriteField(0), WriteField(1)]
    ensures Typed(Example.L2capHeader, L2capValues)
    ensures Run(Example.L2capHeader, L2capValues, LittleEndian, plan, State([], None))
            == Done(State([0x06, 0x00, 0x01, 0x00], None))
  {
    var fs, vs, e := Example.L2capHeader, L2capValues, LittleEndian;
    L2capWrites();
    var s1 := State([0x06, 0x00], None);
    var s2 := State([0x06, 0x00, 0x01, 0x00], None);
    RunCons(fs, vs, e, plan, State([], None), s1);
    RunCons(fs, vs, e, plan[1..], s1, s2);
    assert plan[1..][1..] == [];
  }

  /** The L2CAP header's plan: its two fields, written in turn. */
  lemma L2capPlan()
    ensures StructPlan(Example.L2capHeader).Ok?
    ensures StructPlan(Example.L2capHeader).value == [WriteField(0), WriteField(1)]
  {
    var fs := Example.L2capHeader;
    assert Plain(fs);
    PlainPlan(fs);
  }

  /** Encoding the L2CAP header the example decodes gives back its four bytes. */
  lemma EncodeL2cap()
    ensures Typed(Example.L2capHeader, L2capValues) && StructPlan(Example.L2capHeader).Ok?
    ensures EncodeStruct(Example.L2capHeader, Little, LittleEndian, L2capValues)
            == Done(State(Example.ExampleBytes[4..8], None))
  {
    var plan: seq<Stmt> := [WriteField(0), WriteField(1)];
    L2capPlan();
    L2capRun(plan);
    EncodeByPlan(Example.L2capHeader, L2capValues, plan, [0x06, 0x00, 0x01, 0x00]);
    ExampleSlices();
  }

  const SignalingValues: seq<Value> := [VariantV(9, []), IntV(2), LengthV(2)]

  lemma SignalingTyped()
    ensures Typed(Example.SignalingHeader, SignalingValues)
  {
    Example.ReprU8Decodable(Example.SignalingDiscriminants);
  }

  /** The signaling header's three writes: the code's discriminant 0x0A, the identifier, the
      length. */
  lemma SignalingWrites()
    ensures Typed(Example.SignalingHeader, SignalingValues)
    ensures Encode(Example.SignalingHeader[0].ty, LittleEndian, SignalingValues[0]) == [0x0a]
    ensures Encode(Example.SignalingHeader[1].ty, LittleEndian, SignalingValues[1]) == [0x02]
    ensures Encode(Example.SignalingHeader[2].ty, LittleEndian, SignalingValues[2]) == [0x02, 0x00]
  {
    SignalingTyped();
    U8Bytes(0x0a);
    U8Bytes(0x02);
    LeU16Bytes(0x02, 0x00);
    FlattenOne([0x0a]);
    FlattenOne([0x02]);
    FlattenOne([0x02, 0x00]);
    assert Discriminant(Example.SignalingCodes, 9) == 0x0a;
    assert Chunks(Example.SignalingHeader[0].ty, LittleEndian, SignalingValues[0]) == [[0x0a]];
  }

  lemma SignalingSteps()
    ensures Typed(Example.SignalingHeader, SignalingValues)
    ensures Step(Example.SignalingHeader, SignalingValues, LittleEndian, WriteField(0), State([], None))
            == Done(State([0x0a], None))
    ensures Step(Example.SignalingHeader, SignalingValues, LittleEndian, WriteField(1), State([0x0a], None))
            == Done(State([0x0a, 0x02], None))
    ensures Step(Example.SignalingHeader, SignalingValues, LittleEndian, WriteField(2), State([0x0a, 0x02], None))
            == Done(State([0x0a, 0x02, 0x02, 0x00], None))
  {
    SignalingWrites();
    var x: seq<Byte>, y: seq<Byte>, z: seq<Byte> := [0x0a], [0x02], [0x02, 0x00];
    assert [] + x == x && x + y == [0x0a, 0x02] && [0x0a, 0x02] + z == [0x0a, 0x02, 0x02, 0x00];
  }

  lemma SignalingRun(plan: seq<Stmt>)
    requires plan == [WriteField(0), WriteField(1), WriteField(2)]
    ensures Typed(Example.SignalingHeader, SignalingValues)
    ensures Run(Example.SignalingHeader, SignalingValues, LittleEndian, plan, State([], None))
            == Done(State([0x0a, 0x02, 0x02, 0x00], None))
  {
    var fs, vs, e := Example.SignalingHeader, SignalingValues, LittleEndian;
    SignalingSteps();
    var s1 := State([0x0a], None);
    var s2 := State([0x0a, 0x02], None);
    var s3 := State([0x0a, 0x02, 0x02, 0x00], None);
    RunCons(fs, vs, e, plan, State([], None), s1);
    RunCons(fs, vs, e, plan[1..], s1, s2);
    RunCons(fs, vs, e, plan[2..], s2, s3);
    assert plan[1..][1..] == plan[2..] && plan[2..][1..] == [];
  }

  /** The signaling header's plan: its three fields, written in turn. */
  lemma SignalingPlan()
    ensures StructPlan(Example.SignalingHeader).Ok?
    ensures StructPlan(Example.SignalingHeader).value == [WriteField(0), WriteField(1), WriteField(2)]
  {
    var fs := Example.SignalingHeader;
    assert Plain(fs);
    PlainPlan(fs);
  }

  /** Encoding the signaling header the example decodes gives back its four bytes. */
  lemma EncodeSignaling()
    ensures Typed(Example.SignalingHeader, SignalingValues) && StructPlan(Example.SignalingHeader).Ok?
    ensures EncodeStruct(Example.SignalingHeader, Little, LittleEndian, SignalingValues)
            == Done(State(Example.ExampleBytes[8..12], None))
  {
    var plan: seq<Stmt> := [WriteField(0), WriteField(1), WriteField(2)];
    SignalingPlan();
    SignalingRun(plan);
    EncodeByPlan(Example.SignalingHeader, SignalingValues, plan, [0x0a, 0x02, 0x02, 0x00]);
    ExampleSlices();
  }
}
