/** What the derive macros see of a type, after attribute parsing (instructor-derive-internals/
    src/attr.rs is not part of this model: its outputs are taken as given), and the bitfield-group
    bookkeeping that `generate_struct_impl` does for both directions. */
module Derive {
  import opened Errors
  import opened Ints
  import opened Endianness
  import opened BitStorage
  import opened Types

  /** A struct field: its type, its `#[instructor(bitfield(T))]` and its `#[instructor(bits(a..b))]`. */
  datatype Field = Field(ty: Ty, bitfield: Option<Storage>, bits: Option<(nat, nat)>)

  /** The three kinds of item `syn` hands over. */
  datatype Data =
    | StructData(fields: seq<Field>)
    | EnumData(variants: seq<VariantDecl>)
    | UnionData

  /** The derive input: `#[instructor(endian = ...)]`, `#[repr(...)]` and the item. */
  datatype Input = Input(endian: EndianAttr, repr: Option<IntKind>, data: Data)

  /** The compile errors the derive macros raise, with the position of the offending field or
      variant. */
  datatype DeriveError =
    | RangeWithoutBitfield(field: nat)       // "bitfield range without bitfield"
    | MissingDiscriminant(variant: nat)      // "every variant must have a discriminant"
    | DuplicateDefault(variant: nat)         // "only one variant can be marked as default"
    | DiscriminantOnDataEnum(variant: nat)   // "disciminants are not supported for data enums"
    | ReprMissing                            // "enums must have a repr attribute"
    | UnionUnsupported                       // "unions are not supported"

  /** Running generated code: it returns, fails with the first `Error` a statement raises, or is
      stuck where the generated code would not compile or would panic (a range without a register,
      a range `extract` rejects, a field type the codec does not implement). */
  datatype Outcome<+T> = Done(value: T) | Failed(error: Error) | Stuck

  /** Field positions 0 .. n - 1, in order. */
  function Iota(n: nat): (r: seq<nat>)
    ensures |r| == n && forall i :: 0 <= i < n ==> r[i] == i
  {
    if n == 0 then [] else Iota(n - 1) + [n - 1]
  }

  /** The `bitfield(T)` attributes of the first n fields, in order. */
  function Bitfields(fields: seq<Field>, n: nat): seq<Storage>
    requires n <= |fields|
  {
    if n == 0 then [] else Bitfields(fields, n - 1) + BitfieldOf(fields[n - 1])
  }

  /** A field's `bitfield(T)` attribute, as a list of zero or one register types. */
  function BitfieldOf(f: Field): seq<Storage> {
    if f.bitfield.Some? then [f.bitfield.value] else []
  }

  /** A bitfield group is open while field i is handled (after its own `bitfield` attribute): the
      field opened one, or the field before it had a range and a group was open for it (a field
      without a range closes the group). This is how the generators' `bitfield_ident` evolves. */
  predicate Open(fields: seq<Field>, i: nat)
    requires i < |fields|
    decreases i
  {
    fields[i].bitfield.Some? || OpenBefore(fields, i)
  }

  /** A group is still open when field i comes up: the field before it had a range and a group was
      open for it. */
  predicate OpenBefore(fields: seq<Field>, i: nat)
    requires i <= |fields|
    decreases i, 0
  {
    i > 0 && fields[i - 1].bits.Some? && Open(fields, i - 1)
  }

  /** The same, stated outright: a group is open for field i exactly when some field j <= i opened
      one and every field from j up to i - 1 carried a range. */
  lemma {:induction false} OpenIff(fields: seq<Field>, i: nat)
    requires i < |fields|
    ensures Open(fields, i) <==>
      exists j :: 0 <= j <= i && fields[j].bitfield.Some? && forall k :: j <= k < i ==> fields[k].bits.Some?
  {
    if fields[i].bitfield.None? && i > 0 {
      OpenIff(fields, i - 1);
      if Open(fields, i) {
        assert OpenBefore(fields, i) && Open(fields, i - 1);
        var j :| 0 <= j <= i - 1 && fields[j].bitfield.Some? && forall k :: j <= k < i - 1 ==> fields[k].bits.Some?;
        assert forall k :: j <= k < i ==> fields[k].bits.Some?;
      }
      if exists j :: 0 <= j <= i && fields[j].bitfield.Some? && forall k :: j <= k < i ==> fields[k].bits.Some? {
        var j :| 0 <= j <= i && fields[j].bitfield.Some? && forall k :: j <= k < i ==> fields[k].bits.Some?;
        assert j < i && fields[i - 1].bits.Some?;
        assert forall k :: j <= k < i - 1 ==> fields[k].bits.Some?;
        assert Open(fields, i - 1) && OpenBefore(fields, i);
      }
    }
  }

  /** A field with a range but no open group: the macro's "bitfield range without bitfield". */
  predicate Orphan(fields: seq<Field>, i: nat)
    requires i < |fields|
  {
    fields[i].bits.Some? && !Open(fields, i)
  }

  /** The first orphan range at or after position from. */
  function FirstOrphan(fields: seq<Field>, from: nat): (r: Option<nat>)
    requires from <= |fields|
    ensures r.Some? ==> (from <= r.value < |fields| && Orphan(fields, r.value)
                         && forall j :: from <= j < r.value ==> !Orphan(fields, j))
    ensures r.None? ==> forall j :: from <= j < |fields| ==> !Orphan(fields, j)
    decreases |fields| - from
  {
    if from == |fields| then None
    else if Orphan(fields, from) then Some(from)
    else FirstOrphan(fields, from + 1)
  }

  /** A range right after a field that closed the group, on a field that opens none, is an
      orphan. */
  lemma RangeAfterPlainField(fields: seq<Field>, i: nat)
    requires 0 < i < |fields|
    requires fields[i - 1].bits.None? && fields[i].bits.Some? && fields[i].bitfield.None?
    ensures Orphan(fields, i)
  {
  }

  /** Position of the field that opened the group open for field i: no later field up to i opened
      one, and every field from it up to i carried a range. */
  function GroupStart(fields: seq<Field>, i: nat): (j: nat)
    requires i < |fields| && Open(fields, i)
    ensures j <= i && fields[j].bitfield.Some?
    ensures forall k :: j <= k < i ==> fields[k].bits.Some?
    ensures forall k :: j < k <= i ==> fields[k].bitfield.None?
    decreases i
  {
    if fields[i].bitfield.Some? then i
    else
      assert OpenBefore(fields, i);
      GroupStart(fields, i - 1)
  }

  /** The register type of the group open for field i. */
  function GroupStorage(fields: seq<Field>, i: nat): Storage
    requires i < |fields| && Open(fields, i)
  {
    fields[GroupStart(fields, i)].bitfield.value
  }

  /** Ranges that the register of their group can serve (`extract`'s `debug_assert`s), and field
      types the codec implements. */
  predicate FieldsFit(fields: seq<Field>) {
    forall i :: 0 <= i < |fields| ==>
      && WellFormed(fields[i].ty)
      && (fields[i].bits.Some? && Open(fields, i) ==>
            ValidRange(GroupStorage(fields, i), fields[i].bits.value.0, fields[i].bits.value.1))
  }
}
