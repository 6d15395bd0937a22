/** Running a generated struct decoder (instructor-derive-internals/src/unpack.rs:33-55, 76-84)
    against the codec: the outer buffer, the open `BitBuffer` and the field values decoded so far,
    statement by statement. A generated decoder for fields that fit their registers never gets stuck,
    and when it returns it has one value of the right type per field. */
module UnpackRun {
  import opened Errors
  import opened Endianness
  import opened BitStorage
  import opened Types
  import opened Buffers
  import opened Unpack
  import opened Derive
  import opened DeriveUnpack

  /** The generated function's locals: the outer buffer, the open `BitBuffer` as a `Bits` source
      (its range is set by each `set_range`), and the fields decoded so far. */
  datatype State = State(src: Source, group: Option<Source>, values: seq<Value>)

  /** Reading from a `BitBuffer` leaves it as it was: `try_copy_to_slice` copies out of the
      register and changes no field (instructor/src/bitfield.rs:85-99). */
  lemma DecodeKeepsRegister(t: Ty, e: Endian, src: Source)
    requires Decodable(t) && WellFormed(t) && Readable(src) && src.Bits?
    ensures Decode(t, e, src).Ok? ==> Decode(t, e, src).value.1 == src
  {
    match t
    case Prim(k) => CopyOutBits(src.storage, src.reg, src.start, src.end, src.remaining, k.Size());
    case ByteArray(n) => CopyOutBits(src.storage, src.reg, src.start, src.end, src.remaining, n);
    case Unit =>
    case LengthOf(k, _) => CopyOutBits(src.storage, src.reg, src.start, src.end, src.remaining, k.Size());
    case U24 => CopyOutBits(src.storage, src.reg, src.start, src.end, src.remaining, 3);
    case Enum(decl) => CopyOutBits(src.storage, src.reg, src.start, src.end, src.remaining, decl.repr.value.Size());
  }

  /** One statement under the struct's byte order e. The `?` after each read returns its error. */
  function Step(fields: seq<Field>, e: Endian, s: Stmt, st: State): (r: Outcome<State>)
    requires Readable(st.src)
    ensures r.Done? ==> Readable(r.value.src)
  {
    match s
    case NewBitBuffer(kind) =>
      (match Decode(StorageTy(kind), e, st.src)
       case Err(err) => Failed(err)
       case Ok((v, after)) =>
         Done(State(after, Some(Bits(kind, RegisterOf(v), 0, 0, Buffers.Remaining(after))), st.values)))
    case ReadBits(a, b, i) =>
      if i >= |fields| || !Decodable(fields[i].ty) || !WellFormed(fields[i].ty)
         || st.group.None? || !st.group.value.Bits? || !ValidRange(st.group.value.storage, a, b)
      then Stuck
      else
        var g := st.group.value.(start := a, end := b);
        (match Decode(fields[i].ty, BigEndian, g)
         case Err(err) => Failed(err)
         case Ok((v, g')) => Done(State(st.src, Some(g'), st.values + [v])))
    case ReadField(i) =>
      if i >= |fields| || !Decodable(fields[i].ty) || !WellFormed(fields[i].ty) then Stuck
      else
        (match Decode(fields[i].ty, e, st.src)
         case Err(err) => Failed(err)
         case Ok((v, after)) => Done(State(after, None, st.values + [v])))
  }

  /** A statement list, run in order; the first failure ends the run. */
  function Run(fields: seq<Field>, e: Endian, plan: seq<Stmt>, st: State): (r: Outcome<State>)
    requires Readable(st.src)
    ensures r.Done? ==> Readable(r.value.src)
    decreases |plan|
  {
    if plan == [] then Done(st)
    else
      match Step(fields, e, plan[0], st)
      case Done(st') => Run(fields, e, plan[1..], st')
      case Failed(err) => Failed(err)
      case Stuck => Stuck
  }

  /** Running p then q is running p and, only if it returns, q from where p left off: an error
      stops the decoder before any later statement. */
  lemma {:induction false} RunAppend(fields: seq<Field>, e: Endian, p: seq<Stmt>, q: seq<Stmt>, st: State)
    requires Readable(st.src)
    ensures Run(fields, e, p + q, st)
            == match Run(fields, e, p, st)
               case Done(st') => Run(fields, e, q, st')
               case Failed(err) => Failed(err)
               case Stuck => Stuck
    decreases |p|
  {
    if p == [] {
      assert p + q == q;
    } else {
      assert (p + q)[0] == p[0];
      assert (p + q)[1..] == p[1..] + q;
      match Step(fields, e, p[0], st)
      case Done(st') => RunAppend(fields, e, p[1..], q, st');
      case Failed(_) =>
      case Stuck =>
    }
  }

  /** The generated code for a struct with endian attribute attr, instantiated at byte order e and
      run on src. */
  function DecodeStruct(fields: seq<Field>, attr: EndianAttr, e: Endian, src: Source): Outcome<State>
    requires StructPlan(fields).Ok? && Readable(src)
  {
    Run(fields, Resolve(attr, e), StructPlan(fields).value, State(src, None, []))
  }

  /** Every field type has a decoder. */
  predicate FieldsDecodable(fields: seq<Field>) {
    forall i :: 0 <= i < |fields| ==> Decodable(fields[i].ty)
  }

  /** The state after the statements of the first n fields: n values of the fields' types, and a
      `BitBuffer` of the group's register type exactly while a group is still open. */
  predicate After(fields: seq<Field>, n: nat, st: State)
    requires n <= |fields|
  {
    && Readable(st.src)
    && |st.values| == n
    && (forall j :: 0 <= j < n ==> HasType(st.values[j], fields[j].ty))
    && (st.group.Some? <==> OpenBefore(fields, n))
    && (st.group.Some? ==> st.group.value.Bits? && st.group.value.storage == GroupStorage(fields, n - 1))
  }

  /** A group's register type is that of the field that opened it. */
  lemma GroupStorageStep(fields: seq<Field>, n: nat)
    requires 0 < n < |fields| && fields[n].bitfield.None? && OpenBefore(fields, n)
    ensures Open(fields, n) && GroupStorage(fields, n) == GroupStorage(fields, n - 1)
  {
  }

  /** A one-statement list runs that statement. */
  lemma RunOne(fields: seq<Field>, e: Endian, s: Stmt, st: State)
    requires Readable(st.src)
    ensures Run(fields, e, [s], st) == Step(fields, e, s, st)
  {
    assert [s][1..] == [];
  }

  /** Field n's own read, with a `BitBuffer` of its group's type when it has a range, does not get
      stuck and, when it returns, leaves a state after n + 1 fields. */
  lemma ReadStep(fields: seq<Field>, e: Endian, n: nat, st: State)
    requires n < |fields| && FieldsFit(fields) && FieldsDecodable(fields)
    requires Readable(st.src) && |st.values| == n
    requires forall j :: 0 <= j < n ==> HasType(st.values[j], fields[j].ty)
    requires fields[n].bits.Some? ==>
               Open(fields, n) && st.group.Some? && st.group.value.Bits?
               && st.group.value.storage == GroupStorage(fields, n)
    ensures !Step(fields, e, ReadStmt(fields[n], n), st).Stuck?
    ensures Step(fields, e, ReadStmt(fields[n], n), st).Done? ==>
              After(fields, n + 1, Step(fields, e, ReadStmt(fields[n], n), st).value)
  {
    var f := fields[n];
    assert WellFormed(f.ty) && Decodable(f.ty);
    var r := Step(fields, e, ReadStmt(f, n), st);
    if f.bits.Some? {
      var g := st.group.value.(start := f.bits.value.0, end := f.bits.value.1);
      DecodeKeepsRegister(f.ty, BigEndian, g);
    }
  }

  /** The statements of field n, from a state after the first n fields, do not get stuck and, when
      they return, leave a state after n + 1 fields. */
  lemma FieldStep(fields: seq<Field>, e: Endian, n: nat, st: State)
    requires n < |fields| && FieldsFit(fields) && FieldsDecodable(fields)
    requires !Orphan(fields, n) && After(fields, n, st)
    ensures !Run(fields, e, FieldStmts(fields[n], n), st).Stuck?
    ensures Run(fields, e, FieldStmts(fields[n], n), st).Done? ==>
              After(fields, n + 1, Run(fields, e, FieldStmts(fields[n], n), st).value)
  {
    var f := fields[n];
    if f.bitfield.Some? {
      var kind := f.bitfield.value;
      assert FieldStmts(f, n) == [NewBitBuffer(kind)] + [ReadStmt(f, n)];
      RunAppend(fields, e, [NewBitBuffer(kind)], [ReadStmt(f, n)], st);
      RunOne(fields, e, NewBitBuffer(kind), st);
      var first := Step(fields, e, NewBitBuffer(kind), st);
      if first.Done? {
        RunOne(fields, e, ReadStmt(f, n), first.value);
        assert GroupStart(fields, n) == n;
        ReadStep(fields, e, n, first.value);
      }
    } else {
      assert FieldStmts(f, n) == [ReadStmt(f, n)];
      RunOne(fields, e, ReadStmt(f, n), st);
      if f.bits.Some? {
        GroupStorageStep(fields, n);
      }
      ReadStep(fields, e, n, st);
    }
  }

  /** An outcome of the statements of the first n fields that is not stuck and, when it returns,
      is a state after n fields. */
  predicate Sound(fields: seq<Field>, n: nat, r: Outcome<State>)
    requires n <= |fields|
  {
    !r.Stuck? && (r.Done? ==> After(fields, n, r.value))
  }

  /** The statements of the first n fields do not get stuck and, when they return, leave a state
      after n fields. */
  lemma {:induction false} Prefix(fields: seq<Field>, e: Endian, n: nat, src: Source)
    requires n <= |fields| && FieldsFit(fields) && FieldsDecodable(fields) && Readable(src)
    requires forall j :: 0 <= j < |fields| ==> !Orphan(fields, j)
    ensures Sound(fields, n, Run(fields, e, Stmts(fields, n), State(src, None, [])))
  {
    if n > 0 {
      Prefix(fields, e, n - 1, src);
      PrefixNext(fields, e, n, State(src, None, []));
    }
  }

  /** The statements of field n - 1, after a prefix that was sound for n - 1 fields. */
  lemma PrefixNext(fields: seq<Field>, e: Endian, n: nat, st0: State)
    requires 0 < n <= |fields| && FieldsFit(fields) && FieldsDecodable(fields) && Readable(st0.src)
    requires !Orphan(fields, n - 1) && Sound(fields, n - 1, Run(fields, e, Stmts(fields, n - 1), st0))
    ensures Sound(fields, n, Run(fields, e, Stmts(fields, n), st0))
  {
    var p, q := Stmts(fields, n - 1), FieldStmts(fields[n - 1], n - 1);
    assert Stmts(fields, n) == p + q;
    var mid := Run(fields, e, p, st0);
    if mid.Done? {
      FieldStep(fields, e, n - 1, mid.value);
      RunThen(fields, e, p, q, st0, mid.value);
    } else {
      RunStops(fields, e, p, q, st0);
    }
  }

  /** When p returns, p + q continues with q from where p left off. */
  lemma RunThen(fields: seq<Field>, e: Endian, p: seq<Stmt>, q: seq<Stmt>, st: State, mid: State)
    requires Readable(st.src) && Run(fields, e, p, st) == Done(mid)
    ensures Run(fields, e, p + q, st) == Run(fields, e, q, mid)
  {
    RunAppend(fields, e, p, q, st);
  }

  /** When p fails or is stuck, so is p + q, in the same way. */
  lemma RunStops(fields: seq<Field>, e: Endian, p: seq<Stmt>, q: seq<Stmt>, st: State)
    requires Readable(st.src) && !Run(fields, e, p, st).Done?
    ensures Run(fields, e, p + q, st) == Run(fields, e, p, st)
  {
    RunAppend(fields, e, p, q, st);
  }

  /** A derived struct decoder whose ranges fit their registers never gets stuck: every range has
      an open `BitBuffer` of the right type, and every read is one the codec performs. When it
      returns, it has decoded one value of the declared type for every field, in order. */
  lemma DecodeStructTyped(fields: seq<Field>, attr: EndianAttr, e: Endian, src: Source)
    requires StructPlan(fields).Ok? && FieldsFit(fields) && FieldsDecodable(fields) && Readable(src)
    ensures !DecodeStruct(fields, attr, e, src).Stuck?
    ensures DecodeStruct(fields, attr, e, src).Done? ==>
      var vs := DecodeStruct(fields, attr, e, src).value.values;
      |vs| == |fields| && forall j :: 0 <= j < |fields| ==> HasType(vs[j], fields[j].ty)
  {
    Prefix(fields, Resolve(attr, e), |fields|, src);
  }
}
