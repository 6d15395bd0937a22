/** Running a generated struct encoder (instructor-derive-internals/src/pack.rs:41-103) against the
    codec: the bytes written to the outer buffer so far and the open `BitBuffer`, statement by
    statement. A generated encoder whose ranges fit their registers always runs to the end with no
    group left unflushed; a struct without bitfield attributes writes its fields as a tuple would. */
module PackRun {
  import opened Errors
  import opened Ints
  import opened Endianness
  import opened BitStorage
  import opened Types
  import opened Pack
  import opened Derive
  import opened DerivePack
  import Bitfield

  /** The open `BitBuffer` of a generated encoder: register type, register value and window. */
  datatype Register = Register(kind: Storage, reg: nat, start: nat, end: nat)

  /** The generated function's state: what the outer buffer has received, and the open group. */
  datatype State = State(out: seq<Byte>, group: Option<Register>)

  /** The struct's field values, one of each field's type, all of them encodable. */
  predicate Typed(fields: seq<Field>, values: seq<Value>) {
    |values| == |fields|
    && forall i :: 0 <= i < |fields| ==>
         Encodable(fields[i].ty) && WellFormed(fields[i].ty) && HasType(values[i], fields[i].ty)
  }

  /** Every `extend_from_slice` that writing v big-endian makes fits a register of kind k (a longer
      slice panics with "Datatype exceeds size of bitfield"). */
  predicate ChunksFit(t: Ty, v: Value, k: Storage)
    requires Encodable(t) && WellFormed(t) && HasType(v, t)
  {
    forall j :: 0 <= j < |Chunks(t, BigEndian, v)| ==> |Chunks(t, BigEndian, v)[j]| <= k.Width()
  }

  /** One statement under the struct's byte order e. Encoding never fails; it is stuck only where
      the generated code would panic or not compile. */
  function Step(fields: seq<Field>, values: seq<Value>, e: Endian, s: Stmt, st: State): (r: Outcome<State>)
    requires Typed(fields, values)
    ensures !r.Failed?
  {
    match s
    case EmptyBitBuffer(k) =>
      Done(State(st.out, Some(Register(k, 0, 0, 0))))
    case WriteBits(a, b, i) =>
      if i >= |fields| || st.group.None? then Stuck
      else
        var g := st.group.value;
        if !ValidRange(g.kind, a, b) || !ChunksFit(fields[i].ty, values[i], g.kind) then Stuck
        else
          var reg := Bitfield.ExtendAll(g.kind, g.reg, a, b, Chunks(fields[i].ty, BigEndian, values[i]));
          Done(State(st.out, Some(Register(g.kind, reg, a, b))))
    case Flush =>
      if st.group.None? || !ValidReg(st.group.value.kind, st.group.value.reg) then Stuck
      else
        var g := st.group.value;
        Done(State(st.out + Encode(StorageTy(g.kind), e, RegisterValue(g.kind, g.reg)), None))
    case WriteField(i) =>
      if i >= |fields| then Stuck
      else Done(State(st.out + Encode(fields[i].ty, e, values[i]), st.group))
  }

  /** A statement list, run in order. */
  function Run(fields: seq<Field>, values: seq<Value>, e: Endian, plan: seq<Stmt>, st: State): (r: Outcome<State>)
    requires Typed(fields, values)
    ensures !r.Failed?
    decreases |plan|
  {
    if plan == [] then Done(st)
    else
      match Step(fields, values, e, plan[0], st)
      case Done(st') => Run(fields, values, e, plan[1..], st')
      case Failed(err) => Failed(err)
      case Stuck => Stuck
  }

  lemma {:induction false} RunAppend(fields: seq<Field>, values: seq<Value>, e: Endian, p: seq<Stmt>, q: seq<Stmt>, st: State)
    requires Typed(fields, values)
    ensures Run(fields, values, e, p + q, st)
            == match Run(fields, values, e, p, st)
               case Done(st') => Run(fields, values, e, q, st')
               case Failed(err) => Failed(err)
               case Stuck => Stuck
    decreases |p|
  {
    if p == [] {
      assert p + q == q;
    } else {
      assert (p + q)[0] == p[0];
      assert (p + q)[1..] == p[1..] + q;
      match Step(fields, values, e, p[0], st)
      case Done(st') => RunAppend(fields, values, e, p[1..], q, st');
      case Failed(_) =>
      case Stuck =>
    }
  }

  /** When p returns, p + q continues with q from where p left off. */
  lemma RunThen(fields: seq<Field>, values: seq<Value>, e: Endian, p: seq<Stmt>, q: seq<Stmt>, st: State, mid: State)
    requires Typed(fields, values) && Run(fields, values, e, p, st) == Done(mid)
    ensures Run(fields, values, e, p + q, st) == Run(fields, values, e, q, mid)
  {
    RunAppend(fields, values, e, p, q, st);
  }

  /** When p is stuck, so is p + q. */
  lemma RunStops(fields: seq<Field>, values: seq<Value>, e: Endian, p: seq<Stmt>, q: seq<Stmt>, st: State)
    requires Typed(fields, values) && Run(fields, values, e, p, st).Stuck?
    ensures Run(fields, values, e, p + q, st).Stuck?
  {
    RunAppend(fields, values, e, p, q, st);
  }

  lemma RunOne(fields: seq<Field>, values: seq<Value>, e: Endian, s: Stmt, st: State)
    requires Typed(fields, values)
    ensures Run(fields, values, e, [s], st) == Step(fields, values, e, s, st)
  {
    assert [s][1..] == [];
  }

  /** Two statements in a row. */
  lemma RunTwo(fields: seq<Field>, values: seq<Value>, e: Endian, s: Stmt, t: Stmt, st: State, mid: State)
    requires Typed(fields, values) && Step(fields, values, e, s, st) == Done(mid)
    ensures Run(fields, values, e, [s] + [t], st) == Step(fields, values, e, t, mid)
  {
    RunOne(fields, values, e, s, st);
    RunThen(fields, values, e, [s], [t], st, mid);
    RunOne(fields, values, e, t, mid);
  }

  /** The generated code for a struct with endian attribute attr, instantiated at byte order e and
      run on the struct's field values, starting from an empty buffer. */
  function EncodeStruct(fields: seq<Field>, attr: EndianAttr, e: Endian, values: seq<Value>): Outcome<State>
    requires StructPlan(fields).Ok? && Typed(fields, values)
  {
    Run(fields, values, Resolve(attr, e), StructPlan(fields).value, State([], None))
  }

  /** Ranges that the register of their group can serve, with values whose big-endian writes fit
      that register. */
  predicate ValuesFit(fields: seq<Field>, values: seq<Value>)
    requires Typed(fields, values)
  {
    forall i :: 0 <= i < |fields| && fields[i].bits.Some? && Open(fields, i) ==>
      && ValidRange(GroupStorage(fields, i), fields[i].bits.value.0, fields[i].bits.value.1)
      && ChunksFit(fields[i].ty, values[i], GroupStorage(fields, i))
  }

  /** The state after the statements of the first n fields: a valid register of the group's type
      is open exactly while a group is still open. */
  predicate After(fields: seq<Field>, n: nat, st: State)
    requires n <= |fields|
  {
    && (st.group.Some? <==> OpenBefore(fields, n))
    && (st.group.Some? ==>
          st.group.value.kind == GroupStorage(fields, n - 1) && ValidReg(st.group.value.kind, st.group.value.reg))
  }

  /** Field n's own write, with a register of its group's type open when it has a range. */
  lemma OwnStep(fields: seq<Field>, values: seq<Value>, e: Endian, n: nat, st: State)
    requires n < |fields| && Typed(fields, values) && ValuesFit(fields, values) && !Orphan(fields, n)
    requires st.group.Some? <==> Open(fields, n)
    requires st.group.Some? ==>
               st.group.value.kind == GroupStorage(fields, n) && ValidReg(st.group.value.kind, st.group.value.reg)
    ensures Run(fields, values, e, Own(fields[n], n, Open(fields, n)), st).Done?
    ensures After(fields, n + 1, Run(fields, values, e, Own(fields[n], n, Open(fields, n)), st).value)
  {
    var f := fields[n];
    var open := Open(fields, n);
    if f.bits.Some? {
      var s := WriteBits(f.bits.value.0, f.bits.value.1, n);
      RunOne(fields, values, e, s, st);
      var k := st.group.value.kind;
      var reg := Bitfield.ExtendAll(k, st.group.value.reg, f.bits.value.0, f.bits.value.1, Chunks(f.ty, BigEndian, values[n]));
      assert Step(fields, values, e, s, st) == Done(State(st.out, Some(Register(k, reg, f.bits.value.0, f.bits.value.1))));
    } else if open {
      var mid := State(st.out + Encode(StorageTy(st.group.value.kind), e, RegisterValue(st.group.value.kind, st.group.value.reg)), None);
      RunTwo(fields, values, e, Flush, WriteField(n), st, mid);
    } else {
      assert Own(f, n, open) == [WriteField(n)];
      RunOne(fields, values, e, WriteField(n), st);
    }
  }

  /** The statements of field n, from a state after the first n fields, run to the end and leave a
      state after n + 1 fields. */
  lemma FieldStep(fields: seq<Field>, values: seq<Value>, e: Endian, n: nat, st: State)
    requires n < |fields| && Typed(fields, values) && ValuesFit(fields, values) && !Orphan(fields, n)
    requires After(fields, n, st)
    ensures Run(fields, values, e, FieldStmts(fields[n], n, OpenBefore(fields, n)), st).Done?
    ensures After(fields, n + 1, Run(fields, values, e, FieldStmts(fields[n], n, OpenBefore(fields, n)), st).value)
  {
    var f, ob := fields[n], OpenBefore(fields, n);
    var own := Own(f, n, Open(fields, n));
    assert FieldStmts(f, n, ob) == Opening(f, ob) + own;
    if f.bitfield.Some? {
      var k := f.bitfield.value;
      var started := State(if ob then st.out + Encode(StorageTy(st.group.value.kind), e, RegisterValue(st.group.value.kind, st.group.value.reg)) else st.out,
                          Some(Register(k, 0, 0, 0)));
      if ob {
        var flushed := State(started.out, None);
        RunTwo(fields, values, e, Flush, EmptyBitBuffer(k), st, flushed);
        assert Opening(f, ob) == [Flush] + [EmptyBitBuffer(k)];
      } else {
        RunOne(fields, values, e, EmptyBitBuffer(k), st);
        assert Opening(f, ob) == [EmptyBitBuffer(k)];
      }
      assert GroupStart(fields, n) == n;
      assert Run(fields, values, e, Opening(f, ob), st) == Done(started);
      RunThen(fields, values, e, Opening(f, ob), own, st, started);
      OwnStep(fields, values, e, n, started);
    } else {
      assert Opening(f, ob) == [] && FieldStmts(f, n, ob) == own;
      if ob {
        GroupStorageSame(fields, n);
      }
      OwnStep(fields, values, e, n, st);
    }
  }

  /** A field that opens no group stays in the group of the field before it. */
  lemma GroupStorageSame(fields: seq<Field>, n: nat)
    requires 0 < n < |fields| && fields[n].bitfield.None? && OpenBefore(fields, n)
    ensures Open(fields, n) && GroupStorage(fields, n) == GroupStorage(fields, n - 1)
  {
  }

  /** The statements of the first n fields run to the end and leave a state after n fields. */
  lemma {:induction false} Prefix(fields: seq<Field>, values: seq<Value>, e: Endian, n: nat)
    requires n <= |fields| && Typed(fields, values) && ValuesFit(fields, values)
    requires forall j :: 0 <= j < |fields| ==> !Orphan(fields, j)
    ensures Run(fields, values, e, Stmts(fields, n), State([], None)).Done?
    ensures After(fields, n, Run(fields, values, e, Stmts(fields, n), State([], None)).value)
  {
    if n > 0 {
      Prefix(fields, values, e, n - 1);
      PrefixNext(fields, values, e, n, Run(fields, values, e, Stmts(fields, n - 1), State([], None)).value);
    }
  }

  /** The statements of field n - 1, after a prefix that left a state after n - 1 fields. */
  lemma PrefixNext(fields: seq<Field>, values: seq<Value>, e: Endian, n: nat, mid: State)
    requires 0 < n <= |fields| && Typed(fields, values) && ValuesFit(fields, values) && !Orphan(fields, n - 1)
    requires Run(fields, values, e, Stmts(fields, n - 1), State([], None)) == Done(mid) && After(fields, n - 1, mid)
    ensures Run(fields, values, e, Stmts(fields, n), State([], None)).Done?
    ensures After(fields, n, Run(fields, values, e, Stmts(fields, n), State([], None)).value)
  {
    var q := FieldStmts(fields[n - 1], n - 1, OpenBefore(fields, n - 1));
    assert Stmts(fields, n) == Stmts(fields, n - 1) + q;
    FieldStep(fields, values, e, n - 1, mid);
    RunThen(fields, values, e, Stmts(fields, n - 1), q, State([], None), mid);
  }

  /** A derived struct encoder whose ranges fit their registers runs to the end, and its last
      statement leaves no group open: every register it filled has been written out. */
  lemma EncodeStructCompletes(fields: seq<Field>, attr: EndianAttr, e: Endian, values: seq<Value>)
    requires StructPlan(fields).Ok? && Typed(fields, values) && ValuesFit(fields, values)
    ensures EncodeStruct(fields, attr, e, values).Done?
    ensures EncodeStruct(fields, attr, e, values).value.group.None?
  {
    var e' := Resolve(attr, e);
    var st0 := State([], None);
    var n := |fields|;
    Prefix(fields, values, e', n);
    var mid := Run(fields, values, e', Stmts(fields, n), st0).value;
    PlanAccepts(fields);
    RunThen(fields, values, e', Stmts(fields, n), Closing(fields), st0, mid);
    if OpenBefore(fields, n) {
      RunOne(fields, values, e', Flush, mid);
    }
  }

  /** No field carries `bitfield(T)` or `bits(a..b)`. */
  predicate Plain(fields: seq<Field>) {
    forall i :: 0 <= i < |fields| ==> fields[i].bitfield.None? && fields[i].bits.None?
  }

  /** The declared types of the fields. */
  function FieldTypes(fields: seq<Field>): (ts: seq<Ty>)
    ensures |ts| == |fields| && forall i :: 0 <= i < |fields| ==> ts[i] == fields[i].ty
  {
    seq(|fields|, i requires 0 <= i < |fields| => fields[i].ty)
  }

  /** The first n fields of a plain struct each write themselves to the outer buffer. */
  lemma {:induction false} PlainPrefix(fields: seq<Field>, values: seq<Value>, e: Endian, n: nat, out: seq<Byte>)
    requires n <= |fields| && Typed(fields, values) && Plain(fields)
    ensures Run(fields, values, e, Stmts(fields, n), State(out, None))
            == Done(State(out + EncodeSeq(FieldTypes(fields)[..n], e, values[..n]), None))
  {
    var ts := FieldTypes(fields);
    if n == 0 {
      assert out + EncodeSeq(ts[..0], e, values[..0]) == out;
    } else {
      PlainPrefix(fields, values, e, n - 1, out);
      PlainNext(fields, values, e, n, out);
    }
  }

  /** Field n - 1 of a plain struct, after the fields before it. */
  lemma PlainNext(fields: seq<Field>, values: seq<Value>, e: Endian, n: nat, out: seq<Byte>)
    requires 0 < n <= |fields| && Typed(fields, values) && Plain(fields)
    requires Run(fields, values, e, Stmts(fields, n - 1), State(out, None))
             == Done(State(out + EncodeSeq(FieldTypes(fields)[..n - 1], e, values[..n - 1]), None))
    ensures Run(fields, values, e, Stmts(fields, n), State(out, None))
            == Done(State(out + EncodeSeq(FieldTypes(fields)[..n], e, values[..n]), None))
  {
    var ts := FieldTypes(fields);
    var before := EncodeSeq(ts[..n - 1], e, values[..n - 1]);
    var mid := State(out + before, None);
    assert !OpenBefore(fields, n - 1);
    assert FieldStmts(fields[n - 1], n - 1, false) == [WriteField(n - 1)];
    RunThen(fields, values, e, Stmts(fields, n - 1), [WriteField(n - 1)], State(out, None), mid);
    RunOne(fields, values, e, WriteField(n - 1), mid);
    EncodeSeqTake(ts, e, values, n);
    AppendAssoc(out, before, Encode(ts[n - 1], e, values[n - 1]));
  }

  /** The encoding of the first n components is that of the first n - 1, then the n-th. */
  lemma EncodeSeqTake(ts: seq<Ty>, e: Endian, vs: seq<Value>, n: nat)
    requires 0 < n <= |ts| == |vs|
    requires forall i :: 0 <= i < |ts| ==> Encodable(ts[i]) && WellFormed(ts[i]) && HasType(vs[i], ts[i])
    ensures EncodeSeq(ts[..n], e, vs[..n]) == EncodeSeq(ts[..n - 1], e, vs[..n - 1]) + Encode(ts[n - 1], e, vs[n - 1])
  {
    TakeSnoc(ts, n);
    TakeSnoc(vs, n);
    EncodeSeqSnoc(ts[..n - 1], e, vs[..n - 1], ts[n - 1], vs[n - 1]);
  }

  /** A struct without bitfield attributes writes each field in declared order with the struct's
      byte order, exactly as the tuple of its fields would be written. */
  lemma EncodePlainStruct(fields: seq<Field>, attr: EndianAttr, e: Endian, values: seq<Value>)
    requires Typed(fields, values) && Plain(fields)
    ensures StructPlan(fields).Ok?
    ensures EncodeStruct(fields, attr, e, values)
            == Done(State(EncodeSeq(FieldTypes(fields), Resolve(attr, e), values), None))
  {
    var e' := Resolve(attr, e);
    var n := |fields|;
    PlanAccepts(fields);
    PlainPrefix(fields, values, e', n, []);
    assert Closing(fields) == [] && Stmts(fields, n) + [] == Stmts(fields, n);
    assert FieldTypes(fields)[..n] == FieldTypes(fields) && values[..n] == values;
    assert [] + EncodeSeq(FieldTypes(fields), e', values) == EncodeSeq(FieldTypes(fields), e', values);
  }
}
