/** The wire types the codec handles and the values they carry. A Rust type implementing
    `Exstruct<E>` (decode) and/or `Instruct<E>` (encode) is described by a `Ty`; a derived enum is
    described by the declaration the derive macro sees. */
module Types {
  import opened Errors
  import opened Ints
  import opened Endianness
  import opened BitStorage

  datatype Ty =
    | Prim(kind: IntKind)                  // u8 .. u128, i8 .. i128, usize, isize
    | ByteArray(n: nat)                    // [u8; N]
    | Unit                                 // ()
    | Bool                                 // bool (encode only)
    | Bytes                                // bytes::Bytes (encode only)
    | VecOf(elem: Ty)                      // Vec<T> (encode only)
    | Tuple(items: seq<Ty>)                // (T1, T2), (T1, T2, T3), (T1, T2, T3, T4) (encode only)
    | LengthOf(kind: IntKind, offset: int) // Length<T, OFFSET>
    | U24                                  // utils::u24
    | Enum(decl: EnumDecl)                 // an enum deriving Exstruct / Instruct

  /** An enum as the derive macro sees it: its `#[instructor(endian = ...)]`, its `#[repr(...)]`
      and its variants in declaration order. */
  datatype EnumDecl = EnumDecl(attr: EndianAttr, repr: Option<IntKind>, variants: seq<VariantDecl>)

  /** A variant: its explicit discriminant, whether it is marked `#[instructor(default)]`, and the
      types of its fields (empty for a unit variant). */
  datatype VariantDecl = VariantDecl(discr: Option<int>, isDefault: bool, fields: seq<Ty>)

  datatype Value =
    | IntV(i: int)
    | BytesV(bs: seq<Byte>)
    | UnitV
    | BoolV(b: bool)
    | ListV(items: seq<Value>)
    | LengthV(len: int)
    | U24V(u: nat)
    | VariantV(index: nat, fields: seq<Value>)

  /** `u24::MAX`. */
  const U24_MAX: nat := 0xFF_FFFF

  /** Types Rust accepts: tuples of two to four components, an OFFSET that is an isize, and
      discriminants that fit the repr. */
  predicate WellFormed(t: Ty) {
    match t
    case VecOf(el) => WellFormed(el)
    case Tuple(items) =>
      2 <= |items| <= 4 && forall i :: 0 <= i < |items| ==> WellFormed(items[i])
    case LengthOf(_, off) => ISIZE_MIN <= off <= ISIZE_MAX
    case Enum(decl) =>
      (forall i :: 0 <= i < |decl.variants| ==>
         (decl.repr.Some? && decl.variants[i].discr.Some? ==>
            InRange(decl.repr.value, decl.variants[i].discr.value)))
      && (forall i, j :: 0 <= i < |decl.variants| && 0 <= j < |decl.variants[i].fields| ==>
            WellFormed(decl.variants[i].fields[j]))
    case _ => true
  }

  /** v is a value of type t. */
  predicate HasType(v: Value, t: Ty) {
    match t
    case Prim(k) => v.IntV? && InRange(k, v.i)
    case ByteArray(n) => v.BytesV? && |v.bs| == n
    case Unit => v.UnitV?
    case Bool => v.BoolV?
    case Bytes => v.BytesV?
    case VecOf(el) => v.ListV? && forall i :: 0 <= i < |v.items| ==> HasType(v.items[i], el)
    case Tuple(items) =>
      v.ListV? && |v.items| == |items| && forall i :: 0 <= i < |items| ==> HasType(v.items[i], items[i])
    case LengthOf(k, _) => v.LengthV? && InRange(k, v.len)
    case U24 => v.U24V? && v.u <= U24_MAX
    case Enum(decl) =>
      v.VariantV? && v.index < |decl.variants|
      && |v.fields| == |decl.variants[v.index].fields|
      && forall j :: 0 <= j < |v.fields| ==> HasType(v.fields[j], decl.variants[v.index].fields[j])
  }

  /** The enums `derive(Exstruct)` accepts (instructor-derive-internals/src/unpack.rs:14-16, 89-103):
      a repr, a discriminant on every variant, at most one default variant; the generated arms
      build `Self::Variant`, so every variant is a unit variant. */
  predicate UnpackableEnum(decl: EnumDecl) {
    decl.repr.Some?
    && (forall i :: 0 <= i < |decl.variants| ==> decl.variants[i].discr.Some? && decl.variants[i].fields == [])
    && (forall i, j :: 0 <= i < j < |decl.variants| ==> !(decl.variants[i].isDefault && decl.variants[j].isDefault))
  }

  /** The enums `derive(Instruct)` accepts (instructor-derive-internals/src/pack.rs:16-19, 105-110, 128-133):
      with a repr every variant has a discriminant; without one no variant has. */
  predicate PackableEnum(decl: EnumDecl) {
    if decl.repr.Some? then
      forall i :: 0 <= i < |decl.variants| ==> decl.variants[i].discr.Some?
    else
      forall i :: 0 <= i < |decl.variants| ==> decl.variants[i].discr.None?
  }

  /** The types implementing `Exstruct`: integers, `[u8; N]`, `()`, `Length`, `u24`
      (instructor/src/unpack.rs:10-39, instructor/src/utils.rs:25-41, 138-145) and derived enums. */
  predicate Decodable(t: Ty) {
    match t
    case Prim(_) => true
    case ByteArray(_) => true
    case Unit => true
    case LengthOf(_, _) => true
    case U24 => true
    case Enum(decl) => UnpackableEnum(decl)
    case _ => false
  }

  /** The types implementing `Instruct`: everything in `Ty`, with derived enums as above. */
  predicate Encodable(t: Ty) {
    match t
    case VecOf(el) => Encodable(el)
    case Tuple(items) => forall i :: 0 <= i < |items| ==> Encodable(items[i])
    case Enum(decl) =>
      PackableEnum(decl)
      && forall i, j :: 0 <= i < |decl.variants| && 0 <= j < |decl.variants[i].fields| ==>
           Encodable(decl.variants[i].fields[j])
    case _ => true
  }

  /** The codec type of a bitfield register: the unsigned integer of its width, or u24. */
  function StorageTy(s: Storage): (t: Ty)
    ensures Decodable(t) && Encodable(t) && WellFormed(t)
    ensures s.Reg24? <==> t.U24?
    ensures t.Prim? ==> !t.kind.Signed() && t.kind.Size() == s.Width()
  {
    match s
    case Reg8 => Prim(U8)
    case Reg16 => Prim(U16)
    case Reg32 => Prim(U32)
    case Reg64 => Prim(U64)
    case Reg128 => Prim(U128)
    case Reg24 => U24
  }

  /** The register value a decoded register value stands for. */
  function RegisterOf(v: Value): nat {
    match v
    case IntV(i) => if i < 0 then 0 else i
    case U24V(u) => u
    case _ => 0
  }

  /** The value of type `StorageTy(s)` holding register reg. */
  function RegisterValue(s: Storage, reg: nat): (v: Value)
    requires ValidReg(s, reg)
    ensures HasType(v, StorageTy(s))
    ensures RegisterOf(v) == reg
  {
    RegisterFits(s, reg);
    if s.Reg24? then U24V(reg) else IntV(reg)
  }

  /** A register of storage s is a value of the register type. */
  lemma RegisterFits(s: Storage, reg: nat)
    requires ValidReg(s, reg)
    ensures s.Reg24? ==> reg <= U24_MAX
    ensures !s.Reg24? ==> StorageTy(s).Prim? && InRange(StorageTy(s).kind, reg)
  {
    Bitwise.Pow256IsPow2(s.Width());
    assert reg < Pow256(s.Width());
    StorageModulus(s);
    if !s.Reg24? {
      var k := StorageTy(s).kind;
      assert k.Min() == 0 && k.Max() == k.Modulus() - 1;
    }
  }

  /** The number of register values of storage s: `u24::MAX + 1`, or the modulus of its integer
      type. */
  lemma StorageModulus(s: Storage)
    ensures s.Reg24? ==> Pow256(s.Width()) == U24_MAX + 1
    ensures !s.Reg24? ==> Pow256(s.Width()) == StorageTy(s).kind.Modulus()
  {
    if s.Reg24? {
      assert Pow256(3) == 0x100_0000;
    } else {
      ModulusIsPow256(StorageTy(s).kind);
    }
  }

  /** A decoded register value is a register of that storage, and it is the value that stands for
      itself. */
  lemma RegisterOfValid(s: Storage, v: Value)
    requires HasType(v, StorageTy(s))
    ensures ValidReg(s, RegisterOf(v))
    ensures RegisterValue(s, RegisterOf(v)) == v
  {
    Bitwise.Pow256IsPow2(s.Width());
    if s.Reg24? {
      assert Pow256(3) == 0x100_0000;
    } else {
      ModulusIsPow256(StorageTy(s).kind);
    }
  }
}
