/** `derive(Exstruct)` (instructor-derive-internals/src/unpack.rs): the statement list the macro
    generates for a struct, the arms it generates for a repr enum, the errors it raises, and an
    interpreter that runs a generated struct decoder against the codec. */
module DeriveUnpack {
  import opened Errors
  import opened Ints
  import opened Endianness
  import opened BitStorage
  import opened Types
  import opened Buffers
  import opened Unpack
  import opened Derive

  /** One statement of a generated struct decoder. */
  datatype Stmt =
    | NewBitBuffer(storage: Storage)             // `let mut g = BitBuffer::<T>::new::<E, B>(buffer)?;`
    | ReadBits(start: nat, end: nat, field: nat)  // `g.set_range(a, b); let f = read::<BigEndian>(&mut g)?;`
    | ReadField(field: nat)                       // `let f = read::<E>(buffer)?;`

  /** The read of field i itself: from the group when it has a range, from the buffer otherwise. */
  function ReadStmt(f: Field, i: nat): Stmt {
    if f.bits.Some? then ReadBits(f.bits.value.0, f.bits.value.1, i) else ReadField(i)
  }

  /** The statements emitted for field i: a register read if it opens a group, then its own read. */
  function FieldStmts(f: Field, i: nat): seq<Stmt> {
    (if f.bitfield.Some? then [NewBitBuffer(f.bitfield.value)] else []) + [ReadStmt(f, i)]
  }

  /** The statements emitted for the first n fields. */
  function Stmts(fields: seq<Field>, n: nat): seq<Stmt>
    requires n <= |fields|
  {
    if n == 0 then [] else Stmts(fields, n - 1) + FieldStmts(fields[n - 1], n - 1)
  }

  /** What the macro produces for a struct: the statements of all fields, or the error for the
      first range that has no open group. */
  function StructPlan(fields: seq<Field>): (r: Result<seq<Stmt>, DeriveError>)
    ensures r.Err? <==> exists i :: 0 <= i < |fields| && Orphan(fields, i)
    ensures r.Err? ==> r.error.RangeWithoutBitfield? && r.error.field < |fields|
                       && Orphan(fields, r.error.field)
                       && forall j :: 0 <= j < r.error.field ==> !Orphan(fields, j)
  {
    match FirstOrphan(fields, 0)
    case Some(i) => Err(RangeWithoutBitfield(i))
    case None => Ok(Stmts(fields, |fields|))
  }

  /** `generate_struct_impl` (unpack.rs:22-58): one pass over the fields that pushes statements and
      tracks whether a `bitfield_ident` is set. */
  method GenerateStructImpl(fields: seq<Field>) returns (r: Result<seq<Stmt>, DeriveError>)
    ensures r == StructPlan(fields)
  {
    var open := false;
    var statements: seq<Stmt> := [];
    var i := 0;
    while i < |fields|
      invariant i <= |fields|
      invariant statements == Stmts(fields, i)
      invariant open == OpenBefore(fields, i)
      invariant forall j :: 0 <= j < i ==> !Orphan(fields, j)
    {
      var f := fields[i];
      var emitted: seq<Stmt> := [];
      if f.bitfield.Some? {
        emitted := [NewBitBuffer(f.bitfield.value)];
        open := true;
      }
      if f.bits.Some? {
        if !open {
          assert Orphan(fields, i);
          return Err(RangeWithoutBitfield(i));
        }
        emitted := emitted + [ReadBits(f.bits.value.0, f.bits.value.1, i)];
      } else {
        open := false;
        emitted := emitted + [ReadField(i)];
      }
      statements := statements + emitted;
      i := i + 1;
    }
    r := Ok(statements);
  }

  /** The fields a statement list reads, in order. */
  function FieldsRead(plan: seq<Stmt>): seq<nat> {
    if plan == [] then []
    else if plan[0].NewBitBuffer? then FieldsRead(plan[1..])
    else [plan[0].field] + FieldsRead(plan[1..])
  }

  lemma {:induction false} FieldsReadAppend(p: seq<Stmt>, q: seq<Stmt>)
    ensures FieldsRead(p + q) == FieldsRead(p) + FieldsRead(q)
    decreases |p|
  {
    if p == [] {
      assert p + q == q;
    } else {
      assert (p + q)[0] == p[0];
      assert (p + q)[1..] == p[1..] + q;
      FieldsReadAppend(p[1..], q);
    }
  }

  /** The generated decoder reads every field exactly once, in declaration order (the struct is
      then built from them, unpack.rs:57-71). */
  lemma {:induction false} ReadsInOrder(fields: seq<Field>, n: nat)
    requires n <= |fields|
    ensures FieldsRead(Stmts(fields, n)) == Iota(n)
  {
    if n > 0 {
      ReadsInOrder(fields, n - 1);
      FieldStmtsRead(fields[n - 1], n - 1);
      FieldsReadThen(Stmts(fields, n - 1), FieldStmts(fields[n - 1], n - 1), Iota(n - 1), [n - 1]);
    }
  }

  lemma FieldsReadThen(p: seq<Stmt>, q: seq<Stmt>, a: seq<nat>, b: seq<nat>)
    requires FieldsRead(p) == a && FieldsRead(q) == b
    ensures FieldsRead(p + q) == a + b
  {
    FieldsReadAppend(p, q);
  }

  /** The statements of field i read field i and no other. */
  lemma FieldStmtsRead(f: Field, i: nat)
    ensures FieldsRead(FieldStmts(f, i)) == [i]
  {
    var last := [ReadStmt(f, i)];
    assert last[1..] == [];
    if f.bitfield.Some? {
      FieldsReadAppend([NewBitBuffer(f.bitfield.value)], last);
      assert [NewBitBuffer(f.bitfield.value)][1..] == [];
    } else {
      assert FieldStmts(f, i) == last;
    }
  }

  /** The registers a statement list reads, in order. */
  function RegistersRead(plan: seq<Stmt>): seq<Storage> {
    if plan == [] then []
    else if plan[0].NewBitBuffer? then [plan[0].storage] + RegistersRead(plan[1..])
    else RegistersRead(plan[1..])
  }

  lemma {:induction false} RegistersReadAppend(p: seq<Stmt>, q: seq<Stmt>)
    ensures RegistersRead(p + q) == RegistersRead(p) + RegistersRead(q)
    decreases |p|
  {
    if p == [] {
      assert p + q == q;
    } else {
      assert (p + q)[0] == p[0];
      assert (p + q)[1..] == p[1..] + q;
      RegistersReadAppend(p[1..], q);
    }
  }

  /** One register read is generated per `bitfield(T)` attribute, in field order, and no other. */
  lemma {:induction false} RegistersInOrder(fields: seq<Field>, n: nat)
    requires n <= |fields|
    ensures RegistersRead(Stmts(fields, n)) == Bitfields(fields, n)
  {
    if n > 0 {
      RegistersInOrder(fields, n - 1);
      FieldStmtsRegisters(fields[n - 1], n - 1);
      RegistersThen(Stmts(fields, n - 1), FieldStmts(fields[n - 1], n - 1), Bitfields(fields, n - 1), BitfieldOf(fields[n - 1]));
    }
  }

  lemma RegistersThen(p: seq<Stmt>, q: seq<Stmt>, a: seq<Storage>, b: seq<Storage>)
    requires RegistersRead(p) == a && RegistersRead(q) == b
    ensures RegistersRead(p + q) == a + b
  {
    RegistersReadAppend(p, q);
  }

  /** The statements of a field read a register exactly when the field has `bitfield(T)`. */
  lemma FieldStmtsRegisters(f: Field, i: nat)
    ensures RegistersRead(FieldStmts(f, i)) == BitfieldOf(f)
  {
    var last := [ReadStmt(f, i)];
    assert last[1..] == [];
    if f.bitfield.Some? {
      RegistersReadAppend([NewBitBuffer(f.bitfield.value)], last);
      assert [NewBitBuffer(f.bitfield.value)][1..] == [];
    } else {
      assert FieldStmts(f, i) == last;
    }
  }

  // ---------------------------------------------------------------------------------------------
  // Enums

  /** The generated `match value`: the arm `discr => Ok(Self::Variant)` of each variant, in order,
      and the `_` arm's variant (`None` for `_ => Err(InvalidValue)`). */
  datatype EnumArms = EnumArms(arms: seq<(int, nat)>, default: Option<nat>)

  /** The arms of the first n variants, all of which have discriminants. */
  function ArmsOf(variants: seq<VariantDecl>, n: nat): (r: seq<(int, nat)>)
    requires n <= |variants|
    requires forall i :: 0 <= i < n ==> variants[i].discr.Some?
    ensures |r| == n
    ensures forall i :: 0 <= i < n ==> r[i] == (variants[i].discr.value, i)
  {
    if n == 0 then [] else ArmsOf(variants, n - 1) + [(variants[n - 1].discr.value, n - 1)]
  }

  /** A variant the macro rejects: one without a discriminant, or a second default. */
  predicate Rejected(variants: seq<VariantDecl>, i: nat)
    requires i < |variants|
  {
    variants[i].discr.None? || (variants[i].isDefault && exists j :: 0 <= j < i && variants[j].isDefault)
  }

  function FirstRejected(variants: seq<VariantDecl>, from: nat): (r: Option<nat>)
    requires from <= |variants|
    ensures r.Some? ==> (from <= r.value < |variants| && Rejected(variants, r.value)
                         && forall j :: from <= j < r.value ==> !Rejected(variants, j))
    ensures r.None? ==> forall j :: from <= j < |variants| ==> !Rejected(variants, j)
    decreases |variants| - from
  {
    if from == |variants| then None
    else if Rejected(variants, from) then Some(from)
    else FirstRejected(variants, from + 1)
  }

  /** What the macro produces for a repr enum: the arms, or the error for the first variant it
      rejects. It succeeds exactly when every variant has a discriminant and at most one is marked
      default. */
  function EnumPlan(variants: seq<VariantDecl>): (r: Result<EnumArms, DeriveError>)
    ensures r.Ok? <==> (forall i :: 0 <= i < |variants| ==> variants[i].discr.Some?)
                       && (forall i, j :: 0 <= i < j < |variants| ==> !(variants[i].isDefault && variants[j].isDefault))
    ensures r.Err? ==> (r.error.MissingDiscriminant? && r.error.variant < |variants|
                        && variants[r.error.variant].discr.None?)
                       || (r.error.DuplicateDefault? && r.error.variant < |variants|
                           && variants[r.error.variant].isDefault)
  {
    match FirstRejected(variants, 0)
    case Some(i) =>
      if variants[i].discr.None? then Err(MissingDiscriminant(i)) else Err(DuplicateDefault(i))
    case None =>
      assert forall i, j :: 0 <= i < j < |variants| ==> !(variants[i].isDefault && variants[j].isDefault) by {
        forall i, j | 0 <= i < j < |variants| && variants[i].isDefault
          ensures !variants[j].isDefault
        {
          assert !Rejected(variants, j);
        }
      }
      assert forall i :: 0 <= i < |variants| ==> variants[i].discr.Some? by {
        forall i | 0 <= i < |variants|
          ensures variants[i].discr.Some?
        {
          assert !Rejected(variants, i);
        }
      }
      Ok(EnumArms(ArmsOf(variants, |variants|), DefaultIndex(variants)))
  }

  /** `generate_enum_impl` (unpack.rs:89-129): one pass over the variants that pushes an arm per
      variant and remembers the default, stopping at the first variant it rejects. */
  method GenerateEnumImpl(variants: seq<VariantDecl>) returns (r: Result<EnumArms, DeriveError>)
    ensures r == EnumPlan(variants)
  {
    var default: Option<nat> := None;
    var arms: seq<(int, nat)> := [];
    var i := 0;
    while i < |variants|
      invariant i <= |variants|
      invariant forall j :: 0 <= j < i ==> !Rejected(variants, j)
      invariant forall j :: 0 <= j < i ==> variants[j].discr.Some?
      invariant arms == ArmsOf(variants, i)
      invariant default.Some? ==> default.value < i && variants[default.value].isDefault
      invariant default.None? ==> forall j :: 0 <= j < i ==> !variants[j].isDefault
    {
      var v := variants[i];
      if v.discr.None? {
        assert Rejected(variants, i);
        return Err(MissingDiscriminant(i));
      }
      if v.isDefault {
        if default.Some? {
          assert Rejected(variants, i);
          return Err(DuplicateDefault(i));
        }
        default := Some(i);
      }
      arms := arms + [(v.discr.value, i)];
      i := i + 1;
    }
    if DefaultIndex(variants).Some? {
      assert default.Some?;
      assert !Rejected(variants, default.value);
    }
    r := Ok(EnumArms(arms, default));
  }

  /** The first arm for discriminant d. */
  function FirstArm(arms: seq<(int, nat)>, d: int): (r: Option<nat>)
    ensures r.Some? ==> (r.value < |arms| && arms[r.value].0 == d
                         && forall j :: 0 <= j < r.value ==> arms[j].0 != d)
    ensures r.None? ==> forall j :: 0 <= j < |arms| ==> arms[j].0 != d
  {
    if |arms| == 0 then None
    else if arms[0].0 == d then Some(0)
    else
      match FirstArm(arms[1..], d)
      case None => None
      case Some(i) => Some(i + 1)
  }

  /** The generated `match value`: Rust takes the first arm whose pattern matches. */
  function MatchArms(p: EnumArms, d: int): Result<nat, Error> {
    match FirstArm(p.arms, d)
    case Some(k) => Ok(p.arms[k].1)
    case None => if p.default.Some? then Ok(p.default.value) else Err(InvalidValue)
  }

  /** The generated match selects the variant the codec's enum decoder selects (`Unpack.Decode` of
      `Enum`), for every discriminant read. */
  lemma EnumArmsSelect(variants: seq<VariantDecl>, d: int)
    requires EnumPlan(variants).Ok?
    ensures MatchArms(EnumPlan(variants).value, d) == SelectVariant(variants, d)
  {
    var p := EnumPlan(variants).value;
    assert p.arms == ArmsOf(variants, |variants|);
    match FirstMatch(variants, d)
    case Some(i) =>
      assert p.arms[i].0 == d;
      var k := FirstArm(p.arms, d).value;
      assert k == i by {
        assert variants[k].discr == Some(d);
      }
    case None =>
      assert FirstArm(p.arms, d).None? by {
        forall k | 0 <= k < |p.arms|
          ensures p.arms[k].0 != d
        {
          assert variants[k].discr != Some(d);
        }
      }
  }

  // ---------------------------------------------------------------------------------------------
  // Dispatch

  /** What `derive_unpack` emits: a struct decoder or an enum decoder, with the type's endian
      attribute. */
  datatype Impl =
    | StructImpl(endian: EndianAttr, stmts: seq<Stmt>)
    | EnumImpl(endian: EndianAttr, repr: IntKind, arms: EnumArms)

  /** `derive_unpack` (unpack.rs:6-20): structs and repr enums go to their generators; an enum
      without a repr and a union are rejected. */
  method DeriveUnpack(input: Input) returns (r: Result<Impl, DeriveError>)
    ensures input.data.UnionData? ==> r == Err(UnionUnsupported)
    ensures input.data.EnumData? && input.repr.None? ==> r == Err(ReprMissing)
    ensures input.data.EnumData? && input.repr.Some? ==>
      r == match EnumPlan(input.data.variants)
           case Ok(p) => Ok(EnumImpl(input.endian, input.repr.value, p))
           case Err(err) => Err(err)
    ensures input.data.StructData? ==>
      r == match StructPlan(input.data.fields)
           case Ok(p) => Ok(StructImpl(input.endian, p))
           case Err(err) => Err(err)
  {
    match input.data
    case StructData(fields) =>
      var plan := GenerateStructImpl(fields);
      r := if plan.Ok? then Ok(StructImpl(input.endian, plan.value)) else Err(plan.error);
    case EnumData(variants) =>
      if input.repr.None? {
        return Err(ReprMissing);
      }
      var arms := GenerateEnumImpl(variants);
      r := if arms.Ok? then Ok(EnumImpl(input.endian, input.repr.value, arms.value)) else Err(arms.error);
    case UnionData =>
      r := Err(UnionUnsupported);
  }
}
