/** `derive(Instruct)` (instructor-derive-internals/src/pack.rs): the statement list the macro
    generates for a struct, with its group flushing, the checks it makes of an enum, and the arms
    it generates for a data enum. */
module DerivePack {
  import opened Errors
  import opened Ints
  import opened Endianness
  import opened BitStorage
  import opened Types
  import opened Pack
  import opened Derive

  /** One statement of a generated struct encoder. */
  datatype Stmt =
    | EmptyBitBuffer(storage: Storage)            // `let mut g = BitBuffer::<T>::empty();`
    | WriteBits(start: nat, end: nat, field: nat)  // `g.set_range(a, b); write::<BigEndian>(&self.f, &mut g);`
    | Flush                                        // `write::<E>(&g, buffer);` after `take()`
    | WriteField(field: nat)                       // `write::<E>(&self.f, buffer);`

  /** What a field emits for its `bitfield(T)` attribute, given whether a group is still open
      when it comes up: the flush of that group, if any, then a new empty register. */
  function Opening(f: Field, openBefore: bool): seq<Stmt> {
    if f.bitfield.None? then []
    else (if openBefore then [Flush] else []) + [EmptyBitBuffer(f.bitfield.value)]
  }

  /** What field i emits for itself, given whether a group is open for it: a write into the group
      when it has a range; otherwise the flush of the open group, if any, then a write to the
      outer buffer. */
  function Own(f: Field, i: nat, open: bool): seq<Stmt> {
    if f.bits.Some? then [WriteBits(f.bits.value.0, f.bits.value.1, i)]
    else (if open then [Flush] else []) + [WriteField(i)]
  }

  /** The statements emitted for field i when a group is (or is not) still open as it comes up. */
  function FieldStmts(f: Field, i: nat, openBefore: bool): seq<Stmt> {
    Opening(f, openBefore) + Own(f, i, f.bitfield.Some? || openBefore)
  }

  /** The statements emitted for the first n fields. */
  function Stmts(fields: seq<Field>, n: nat): seq<Stmt>
    requires n <= |fields|
  {
    if n == 0 then [] else Stmts(fields, n - 1) + FieldStmts(fields[n - 1], n - 1, OpenBefore(fields, n - 1))
  }

  /** The flush of a group still open after the last field. */
  function Closing(fields: seq<Field>): seq<Stmt> {
    if OpenBefore(fields, |fields|) then [Flush] else []
  }

  /** What the macro produces for a struct: the statements of all fields and the closing flush, or
      the error for the first range that has no open group. */
  function StructPlan(fields: seq<Field>): (r: Result<seq<Stmt>, DeriveError>)
    ensures r.Err? <==> exists i :: 0 <= i < |fields| && Orphan(fields, i)
    ensures r.Err? ==> r.error.RangeWithoutBitfield? && r.error.field < |fields|
                       && Orphan(fields, r.error.field)
                       && forall j :: 0 <= j < r.error.field ==> !Orphan(fields, j)
  {
    match FirstOrphan(fields, 0)
    case Some(i) => Err(RangeWithoutBitfield(i))
    case None => Ok(Stmts(fields, |fields|) + Closing(fields))
  }

  /** `generate_struct_impl` (pack.rs:41-103): one pass over the fields that pushes statements and
      keeps the open group in `bitfield_ident`, emptied by each flush. */
  method GenerateStructImpl(fields: seq<Field>) returns (r: Result<seq<Stmt>, DeriveError>)
    ensures r == StructPlan(fields)
  {
    var open := false;
    var statements: seq<Stmt> := [];
    var i := 0;
    while i < |fields|
      invariant i <= |fields|
      invariant statements == Stmts(fields, i)
      invariant open == OpenBefore(fields, i)
      invariant forall j :: 0 <= j < i ==> !Orphan(fields, j)
    {
      var step := EmitField(fields[i], i, open);
      if step.Err? {
        PlanRejects(fields, i);
        return Err(step.error);
      }
      statements := statements + step.value.0;
      open := step.value.1;
      i := i + 1;
    }
    var closing: seq<Stmt> := [];
    if open {
      closing := [Flush];
    }
    statements := statements + closing;
    PlanAccepts(fields);
    r := Ok(statements);
  }

  /** The body of that loop for field i, given whether a group is still open as it comes up: the
      statements it pushes and whether a group is open after it, or "bitfield range without
      bitfield" when the field has a range and no group is open for it. */
  method EmitField(f: Field, i: nat, openBefore: bool) returns (r: Result<(seq<Stmt>, bool), DeriveError>)
    ensures r.Err? <==> f.bits.Some? && f.bitfield.None? && !openBefore
    ensures r.Err? ==> r.error == RangeWithoutBitfield(i)
    ensures r.Ok? ==> r.value == (FieldStmts(f, i, openBefore), f.bits.Some?)
  {
    var open := openBefore;
    var emitted: seq<Stmt> := [];
    if f.bitfield.Some? {
      if open {
        emitted := [Flush];
      }
      emitted := emitted + [EmptyBitBuffer(f.bitfield.value)];
      open := true;
    }
    var own: seq<Stmt> := [];
    if f.bits.Some? {
      if !open {
        return Err(RangeWithoutBitfield(i));
      }
      own := [WriteBits(f.bits.value.0, f.bits.value.1, i)];
    } else {
      if open {
        own := [Flush];
        open := false;
      }
      own := own + [WriteField(i)];
    }
    r := Ok((emitted + own, open));
  }

  lemma PlanRejects(fields: seq<Field>, i: nat)
    requires i < |fields| && Orphan(fields, i) && forall j :: 0 <= j < i ==> !Orphan(fields, j)
    ensures StructPlan(fields) == Err(RangeWithoutBitfield(i))
  {
  }

  lemma PlanAccepts(fields: seq<Field>)
    requires forall j :: 0 <= j < |fields| ==> !Orphan(fields, j)
    ensures StructPlan(fields) == Ok(Stmts(fields, |fields|) + Closing(fields))
  {
    assert FirstOrphan(fields, 0).None?;
  }

  /** One statement of the group discipline: the group state after it, or `None` if it opens a
      group over an open one, writes bits or flushes with no group open, or writes a plain field
      while a group is open. */
  function TrackStep(s: Stmt, open: bool): Option<bool> {
    match s
    case EmptyBitBuffer(_) => if open then None else Some(true)
    case WriteBits(_, _, _) => if open then Some(true) else None
    case Flush => if open then Some(false) else None
    case WriteField(_) => if open then None else Some(false)
  }

  /** The group discipline of a statement list, from a state with a group open or not: the state
      it ends in, or `None` at the first statement that breaks it. */
  function Track(plan: seq<Stmt>, open: bool): Option<bool>
    decreases |plan|
  {
    if plan == [] then Some(open)
    else
      match TrackStep(plan[0], open)
      case Some(o) => Track(plan[1..], o)
      case None => None
  }

  lemma TrackOne(s: Stmt, open: bool)
    ensures Track([s], open) == TrackStep(s, open)
  {
    assert [s][1..] == [];
  }

  lemma {:induction false} TrackAppend(p: seq<Stmt>, q: seq<Stmt>, open: bool)
    ensures Track(p + q, open) == match Track(p, open) case Some(o) => Track(q, o) case None => None
    decreases |p|
  {
    if p == [] {
      assert p + q == q;
    } else {
      assert (p + q)[0] == p[0];
      assert (p + q)[1..] == p[1..] + q;
      match TrackStep(p[0], open)
      case Some(o) => TrackAppend(p[1..], q, o);
      case None =>
    }
  }

  /** Track of a one- or two-statement list, statement by statement. */
  lemma TrackPair(s: Stmt, t: Stmt, open: bool)
    ensures Track([s] + [t], open) == match TrackStep(s, open) case Some(o) => TrackStep(t, o) case None => None
  {
    TrackAppend([s], [t], open);
    TrackOne(s, open);
    match TrackStep(s, open)
    case Some(o) => TrackOne(t, o);
    case None =>
  }

  /** The statements of a field whose range, if any, has a group open for it keep the
      discipline, and leave a group open exactly when the field has a range. */
  lemma TrackField(f: Field, i: nat, openBefore: bool)
    requires f.bits.Some? ==> f.bitfield.Some? || openBefore
    ensures Track(FieldStmts(f, i, openBefore), openBefore) == Some(f.bits.Some?)
  {
    var open := f.bitfield.Some? || openBefore;
    TrackAppend(Opening(f, openBefore), Own(f, i, open), openBefore);
    if f.bitfield.Some? {
      if openBefore {
        TrackPair(Flush, EmptyBitBuffer(f.bitfield.value), true);
      } else {
        assert Opening(f, openBefore) == [EmptyBitBuffer(f.bitfield.value)];
        TrackOne(EmptyBitBuffer(f.bitfield.value), false);
      }
    }
    assert Track(Opening(f, openBefore), openBefore) == Some(open);
    if f.bits.Some? {
      TrackOne(WriteBits(f.bits.value.0, f.bits.value.1, i), true);
    } else if open {
      TrackPair(Flush, WriteField(i), true);
    } else {
      assert Own(f, i, open) == [WriteField(i)];
      TrackOne(WriteField(i), false);
    }
  }

  lemma {:induction false} TrackPrefix(fields: seq<Field>, n: nat)
    requires n <= |fields| && forall j :: 0 <= j < |fields| ==> !Orphan(fields, j)
    ensures Track(Stmts(fields, n), false) == Some(OpenBefore(fields, n))
  {
    if n > 0 {
      var f, ob := fields[n - 1], OpenBefore(fields, n - 1);
      TrackPrefix(fields, n - 1);
      assert !Orphan(fields, n - 1);
      TrackField(f, n - 1, ob);
      TrackThen(Stmts(fields, n - 1), FieldStmts(f, n - 1, ob), ob, OpenBefore(fields, n));
    }
  }

  lemma TrackThen(p: seq<Stmt>, q: seq<Stmt>, mid: bool, end: bool)
    requires Track(p, false) == Some(mid) && Track(q, mid) == Some(end)
    ensures Track(p + q, false) == Some(end)
  {
    TrackAppend(p, q, false);
  }

  /** A generated encoder keeps the group discipline from start to end: a new group is opened only
      after the previous one was flushed, range fields write only into an open group, plain fields
      only with no group open, and no group is left unflushed. So each group opened is flushed
      exactly once, before anything after it reaches the outer buffer. */
  lemma PlanFlushesEachGroup(fields: seq<Field>)
    requires StructPlan(fields).Ok?
    ensures Track(StructPlan(fields).value, false) == Some(false)
  {
    TrackPrefix(fields, |fields|);
    TrackAppend(Stmts(fields, |fields|), Closing(fields), false);
  }

  /** The fields a statement list writes, in order. */
  function FieldsWritten(plan: seq<Stmt>): seq<nat> {
    if plan == [] then []
    else if plan[0].WriteBits? || plan[0].WriteField? then [plan[0].field] + FieldsWritten(plan[1..])
    else FieldsWritten(plan[1..])
  }

  lemma {:induction false} FieldsWrittenAppend(p: seq<Stmt>, q: seq<Stmt>)
    ensures FieldsWritten(p + q) == FieldsWritten(p) + FieldsWritten(q)
    decreases |p|
  {
    if p == [] {
      assert p + q == q;
    } else {
      assert (p + q)[0] == p[0];
      assert (p + q)[1..] == p[1..] + q;
      FieldsWrittenAppend(p[1..], q);
    }
  }

  /** The statements of field i write field i and no other. */
  lemma FieldStmtsWrite(f: Field, i: nat, openBefore: bool)
    ensures FieldsWritten(FieldStmts(f, i, openBefore)) == [i]
  {
    var open := f.bitfield.Some? || openBefore;
    FieldsWrittenAppend(Opening(f, openBefore), Own(f, i, open));
    if f.bitfield.Some? {
      var flush := if openBefore then [Flush] else [];
      FieldsWrittenAppend(flush, [EmptyBitBuffer(f.bitfield.value)]);
      assert [EmptyBitBuffer(f.bitfield.value)][1..] == [];
      assert FieldsWritten(Opening(f, openBefore)) == [];
    }
    if f.bits.None? {
      var flush := if open then [Flush] else [];
      FieldsWrittenAppend(flush, [WriteField(i)]);
      assert [WriteField(i)][1..] == [];
    } else {
      assert [WriteBits(f.bits.value.0, f.bits.value.1, i)][1..] == [];
    }
  }

  /** The generated encoder writes every field exactly once, in declaration order. */
  lemma {:induction false} WritesInOrder(fields: seq<Field>, n: nat)
    requires n <= |fields|
    ensures FieldsWritten(Stmts(fields, n)) == Iota(n)
  {
    if n > 0 {
      var f, ob := fields[n - 1], OpenBefore(fields, n - 1);
      WritesInOrder(fields, n - 1);
      FieldStmtsWrite(f, n - 1, ob);
      WritesThen(Stmts(fields, n - 1), FieldStmts(f, n - 1, ob), Iota(n - 1), [n - 1]);
    }
  }

  lemma WritesThen(p: seq<Stmt>, q: seq<Stmt>, a: seq<nat>, b: seq<nat>)
    requires FieldsWritten(p) == a && FieldsWritten(q) == b
    ensures FieldsWritten(p + q) == a + b
  {
    FieldsWrittenAppend(p, q);
  }

  /** The registers a statement list opens, in order. */
  function RegistersOpened(plan: seq<Stmt>): seq<Storage> {
    if plan == [] then []
    else if plan[0].EmptyBitBuffer? then [plan[0].storage] + RegistersOpened(plan[1..])
    else RegistersOpened(plan[1..])
  }

  lemma {:induction false} RegistersOpenedAppend(p: seq<Stmt>, q: seq<Stmt>)
    ensures RegistersOpened(p + q) == RegistersOpened(p) + RegistersOpened(q)
    decreases |p|
  {
    if p == [] {
      assert p + q == q;
    } else {
      assert (p + q)[0] == p[0];
      assert (p + q)[1..] == p[1..] + q;
      RegistersOpenedAppend(p[1..], q);
    }
  }

  /** The statements of a field open a register exactly when the field has `bitfield(T)`. */
  lemma FieldStmtsOpen(f: Field, i: nat, openBefore: bool)
    ensures RegistersOpened(FieldStmts(f, i, openBefore)) == BitfieldOf(f)
  {
    var open := f.bitfield.Some? || openBefore;
    RegistersOpenedAppend(Opening(f, openBefore), Own(f, i, open));
    if f.bitfield.Some? {
      var flush := if openBefore then [Flush] else [];
      RegistersOpenedAppend(flush, [EmptyBitBuffer(f.bitfield.value)]);
      assert [EmptyBitBuffer(f.bitfield.value)][1..] == [];
    }
    if f.bits.None? {
      var flush := if open then [Flush] else [];
      RegistersOpenedAppend(flush, [WriteField(i)]);
      assert [WriteField(i)][1..] == [];
    } else {
      assert [WriteBits(f.bits.value.0, f.bits.value.1, i)][1..] == [];
    }
  }

  /** One group is opened per `bitfield(T)` attribute, in field order, and no other. */
  lemma {:induction false} RegistersInOrder(fields: seq<Field>, n: nat)
    requires n <= |fields|
    ensures RegistersOpened(Stmts(fields, n)) == Bitfields(fields, n)
  {
    if n > 0 {
      var f, ob := fields[n - 1], OpenBefore(fields, n - 1);
      RegistersInOrder(fields, n - 1);
      FieldStmtsOpen(f, n - 1, ob);
      RegistersThen(Stmts(fields, n - 1), FieldStmts(f, n - 1, ob), Bitfields(fields, n - 1), BitfieldOf(f));
    }
  }

  lemma RegistersThen(p: seq<Stmt>, q: seq<Stmt>, a: seq<Storage>, b: seq<Storage>)
    requires RegistersOpened(p) == a && RegistersOpened(q) == b
    ensures RegistersOpened(p + q) == a + b
  {
    RegistersOpenedAppend(p, q);
  }

  // ---------------------------------------------------------------------------------------------
  // Enums

  /** The first variant at or after from without a discriminant. */
  function FirstMissing(variants: seq<VariantDecl>, from: nat): (r: Option<nat>)
    requires from <= |variants|
    ensures r.Some? ==> (from <= r.value < |variants| && variants[r.value].discr.None?
                         && forall j :: from <= j < r.value ==> variants[j].discr.Some?)
    ensures r.None? ==> forall j :: from <= j < |variants| ==> variants[j].discr.Some?
    decreases |variants| - from
  {
    if from == |variants| then None
    else if variants[from].discr.None? then Some(from)
    else FirstMissing(variants, from + 1)
  }

  /** What the macro produces for a repr enum: accepted exactly when it is a packable repr enum,
      or the error for the first variant without a discriminant. */
  function IntEnumPlan(variants: seq<VariantDecl>): (r: Result<(), DeriveError>)
    ensures forall attr, repr :: r.Ok? <==> PackableEnum(EnumDecl(attr, Some(repr), variants))
    ensures r.Err? ==> r.error.MissingDiscriminant? && r.error.variant < |variants|
                       && variants[r.error.variant].discr.None?
                       && forall j :: 0 <= j < r.error.variant ==> variants[j].discr.Some?
  {
    match FirstMissing(variants, 0)
    case Some(i) => Err(MissingDiscriminant(i))
    case None => Ok(())
  }

  /** `generate_int_enum_impl` (pack.rs:105-126): a pass that rejects the first variant without a
      discriminant; the generated code then writes the discriminant as the repr integer
      (`Pack.EncodeIntEnum`). */
  method GenerateIntEnumImpl(variants: seq<VariantDecl>) returns (r: Result<(), DeriveError>)
    ensures r == IntEnumPlan(variants)
  {
    for i := 0 to |variants|
      invariant forall j :: 0 <= j < i ==> variants[j].discr.Some?
    {
      if variants[i].discr.None? {
        return Err(MissingDiscriminant(i));
      }
    }
    r := Ok(());
  }

  /** The first variant at or after from with a discriminant. */
  function FirstWithDiscriminant(variants: seq<VariantDecl>, from: nat): (r: Option<nat>)
    requires from <= |variants|
    ensures r.Some? ==> (from <= r.value < |variants| && variants[r.value].discr.Some?
                         && forall j :: from <= j < r.value ==> variants[j].discr.None?)
    ensures r.None? ==> forall j :: from <= j < |variants| ==> variants[j].discr.None?
    decreases |variants| - from
  {
    if from == |variants| then None
    else if variants[from].discr.Some? then Some(from)
    else FirstWithDiscriminant(variants, from + 1)
  }

  /** The arms of the generated `match self` for the first n variants: arm i binds variant i's
      fields and writes that many of them. */
  function ArmsOf(variants: seq<VariantDecl>, n: nat): (r: seq<nat>)
    requires n <= |variants|
    ensures |r| == n
    ensures forall i :: 0 <= i < n ==> r[i] == |variants[i].fields|
  {
    if n == 0 then [] else ArmsOf(variants, n - 1) + [|variants[n - 1].fields|]
  }

  /** What the macro produces for a data enum: the arms, accepted exactly when it is a packable
      data enum, or the error for the first variant with a discriminant. */
  function DataEnumPlan(variants: seq<VariantDecl>): (r: Result<seq<nat>, DeriveError>)
    ensures forall attr :: r.Ok? <==> PackableEnum(EnumDecl(attr, None, variants))
    ensures r.Err? ==> r.error.DiscriminantOnDataEnum? && r.error.variant < |variants|
                       && variants[r.error.variant].discr.Some?
                       && forall j :: 0 <= j < r.error.variant ==> variants[j].discr.None?
  {
    match FirstWithDiscriminant(variants, 0)
    case Some(i) => Err(DiscriminantOnDataEnum(i))
    case None => Ok(ArmsOf(variants, |variants|))
  }

  /** `generate_data_enum_impl` (pack.rs:128-172): one pass that pushes an arm per variant,
      stopping at the first variant with a discriminant. */
  method GenerateDataEnumImpl(variants: seq<VariantDecl>) returns (r: Result<seq<nat>, DeriveError>)
    ensures r == DataEnumPlan(variants)
  {
    var matches: seq<nat> := [];
    for i := 0 to |variants|
      invariant forall j :: 0 <= j < i ==> variants[j].discr.None?
      invariant matches == ArmsOf(variants, i)
    {
      if variants[i].discr.Some? {
        return Err(DiscriminantOnDataEnum(i));
      }
      matches := matches + [|variants[i].fields|];
    }
    r := Ok(matches);
  }

  /** A generated arm's body: `write_to_buffer` of the first n bound fields, in order. */
  function ArmWrites(ts: seq<Ty>, e: Endian, vs: seq<Value>, n: nat): seq<Byte>
    requires n <= |ts| == |vs|
    requires forall i :: 0 <= i < |ts| ==> Encodable(ts[i]) && WellFormed(ts[i]) && HasType(vs[i], ts[i])
  {
    if n == 0 then [] else ArmWrites(ts, e, vs, n - 1) + Encode(ts[n - 1], e, vs[n - 1])
  }

  lemma {:induction false} ArmWritesPrefix(ts: seq<Ty>, e: Endian, vs: seq<Value>, n: nat)
    requires n <= |ts| == |vs|
    requires forall i :: 0 <= i < |ts| ==> Encodable(ts[i]) && WellFormed(ts[i]) && HasType(vs[i], ts[i])
    ensures ArmWrites(ts, e, vs, n) == EncodeSeq(ts[..n], e, vs[..n])
  {
    if n == 0 {
    } else {
      ArmWritesPrefix(ts, e, vs, n - 1);
      TakeSnoc(ts, n);
      TakeSnoc(vs, n);
      EncodeSeqSnoc(ts[..n - 1], e, vs[..n - 1], ts[n - 1], vs[n - 1]);
    }
  }

  /** The arm the macro generates for the active variant writes exactly what the codec's data-enum
      encoder writes: the variant's fields in declared order with the enum's byte order (nothing
      for a unit variant). */
  lemma DataArmEncodes(decl: EnumDecl, e: Endian, index: nat, fields: seq<Value>)
    requires decl.repr.None? && DataEnumPlan(decl.variants).Ok?
    requires WellFormed(Enum(decl)) && Encodable(Enum(decl)) && HasType(VariantV(index, fields), Enum(decl))
    ensures index < |DataEnumPlan(decl.variants).value|
    ensures ArmWrites(decl.variants[index].fields, Resolve(decl.attr, e), fields, DataEnumPlan(decl.variants).value[index])
            == Encode(Enum(decl), e, VariantV(index, fields))
  {
    var ts := decl.variants[index].fields;
    ArmWritesPrefix(ts, Resolve(decl.attr, e), fields, |ts|);
    assert ts[..|ts|] == ts && fields[..|ts|] == fields;
    EncodeDataEnum(decl, e, index, fields);
  }

  // ---------------------------------------------------------------------------------------------
  // Dispatch

  /** What `derive_pack` emits: a struct encoder, a repr-enum encoder, or a data-enum encoder with
      its arms, each with the type's endian attribute. */
  datatype Impl =
    | StructImpl(endian: EndianAttr, stmts: seq<Stmt>)
    | IntEnumImpl(endian: EndianAttr, repr: IntKind)
    | DataEnumImpl(endian: EndianAttr, arms: seq<nat>)

  /** `derive_pack` (pack.rs:7-22, without the bitflags branch): structs and enums go to their
      generators, by whether the enum has a repr; a union is rejected. */
  method DerivePack(input: Input) returns (r: Result<Impl, DeriveError>)
    ensures input.data.UnionData? ==> r == Err(UnionUnsupported)
    ensures input.data.EnumData? && input.repr.Some? ==>
      r == match IntEnumPlan(input.data.variants)
           case Ok(_) => Ok(IntEnumImpl(input.endian, input.repr.value))
           case Err(err) => Err(err)
    ensures input.data.EnumData? && input.repr.None? ==>
      r == match DataEnumPlan(input.data.variants)
           case Ok(arms) => Ok(DataEnumImpl(input.endian, arms))
           case Err(err) => Err(err)
    ensures input.data.StructData? ==>
      r == match StructPlan(input.data.fields)
           case Ok(p) => Ok(StructImpl(input.endian, p))
           case Err(err) => Err(err)
  {
    match input.data
    case StructData(fields) =>
      var plan := GenerateStructImpl(fields);
      r := if plan.Ok? then Ok(StructImpl(input.endian, plan.value)) else Err(plan.error);
    case EnumData(variants) =>
      if input.repr.Some? {
        var checked := GenerateIntEnumImpl(variants);
        r := if checked.Ok? then Ok(IntEnumImpl(input.endian, input.repr.value)) else Err(checked.error);
      } else {
        var arms := GenerateDataEnumImpl(variants);
        r := if arms.Ok? then Ok(DataEnumImpl(input.endian, arms.value)) else Err(arms.error);
      }
    case UnionData =>
      r := Err(UnionUnsupported);
  }
}
