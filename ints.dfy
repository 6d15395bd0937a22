/** Rust's fixed-width integer types as the codec sees them: their sizes, their value ranges and the
    standard conversions `from_le_bytes`, `from_be_bytes`, `to_le_bytes` and `to_be_bytes` that
    `ReadPrimitive` (instructor/src/unpack.rs) and `WritePrimitive` (instructor/src/pack.rs) call.
    `usize` and `isize` are fixed at 64 bits. */
module Ints {

  /** One byte, `u8`. */
  type Byte = b: int | 0 <= b < 256

  const USIZE_MAX: nat := 0xFFFF_FFFF_FFFF_FFFF
  const ISIZE_MIN: int := -0x8000_0000_0000_0000
  const ISIZE_MAX: int := 0x7FFF_FFFF_FFFF_FFFF

  /** The integer types the codec implements (f32 and f64 are not modelled). */
  datatype IntKind = U8 | U16 | U32 | U64 | U128 | Usize | I8 | I16 | I32 | I64 | I128 | Isize
  {
    /** `core::mem::size_of::<T>()`. */
    function Size(): nat {
      match this
      case U8 | I8 => 1
      case U16 | I16 => 2
      case U32 | I32 => 4
      case U64 | I64 | Usize | Isize => 8
      case U128 | I128 => 16
    }

    predicate Signed() {
      I8? || I16? || I32? || I64? || I128? || Isize?
    }

    /** The number of distinct bit patterns, 2^(8 * size). */
    function Modulus(): nat {
      match this
      case U8 | I8 => 0x100
      case U16 | I16 => 0x1_0000
      case U32 | I32 => 0x1_0000_0000
      case U64 | I64 | Usize | Isize => 0x1_0000_0000_0000_0000
      case U128 | I128 => 0x1_0000_0000_0000_0000_0000_0000_0000_0000
    }

    /** `T::MIN` */
    function Min(): int {
      if Signed() then -(Modulus() / 2) else 0
    }

    /** `T::MAX` */
    function Max(): int {
      if Signed() then Modulus() / 2 - 1 else Modulus() - 1
    }
  }

  /** v is a value of type k. */
  predicate InRange(k: IntKind, v: int) {
    k.Min() <= v <= k.Max()
  }

  function Pow256(n: nat): (r: nat)
    ensures r >= 1
  {
    if n == 0 then 1 else 256 * Pow256(n - 1)
  }

  lemma ModulusIsPow256(k: IntKind)
    ensures k.Modulus() == Pow256(k.Size())
  {
    assert Pow256(2) == 0x1_0000;
    assert Pow256(4) == 0x1_0000_0000;
    assert Pow256(8) == 0x1_0000_0000_0000_0000;
    assert Pow256(16) == 0x1_0000_0000_0000_0000_0000_0000_0000_0000;
  }

  /** The value of bytes read least significant first (`from_le_bytes` on the bit pattern). */
  function LeValue(bs: seq<Byte>): nat
  {
    if |bs| == 0 then 0 else bs[0] + 256 * LeValue(bs[1..])
  }

  /** The value of bytes read most significant first (`from_be_bytes` on the bit pattern). */
  function BeValue(bs: seq<Byte>): nat
  {
    if |bs| == 0 then 0 else BeValue(bs[..|bs| - 1]) * 256 + bs[|bs| - 1]
  }

  /** The n low bytes of v, least significant first (`to_le_bytes`). */
  function LeBytes(n: nat, v: nat): (r: seq<Byte>)
    ensures |r| == n
  {
    if n == 0 then [] else [v % 256] + LeBytes(n - 1, v / 256)
  }

  /** The n low bytes of v, most significant first (`to_be_bytes`). */
  function BeBytes(n: nat, v: nat): (r: seq<Byte>)
    ensures |r| == n
  {
    if n == 0 then [] else BeBytes(n - 1, v / 256) + [v % 256]
  }

  function Reverse<T>(s: seq<T>): (r: seq<T>)
    ensures |r| == |s|
  {
    if s == [] then [] else [s[|s| - 1]] + Reverse(s[..|s| - 1])
  }

  /** Slicing facts, stated once over any element type so that callers need not prove them in a
      context full of facts about the elements. */
  lemma TakeSnoc<T>(s: seq<T>, n: nat)
    requires 0 < n <= |s|
    ensures s[..n] == s[..n - 1] + [s[n - 1]]
  {
  }

  lemma TakeAll<T>(s: seq<T>)
    ensures s[..|s|] == s
  {
  }

  lemma SnocParts<T>(s: seq<T>, x: T)
    ensures (s + [x])[..|s|] == s && (s + [x])[|s|] == x
  {
  }

  lemma SplitAt<T>(s: seq<T>, n: nat)
    requires n <= |s|
    ensures s[..n] + s[n..] == s
  {
  }

  lemma AppendAssoc<T>(a: seq<T>, b: seq<T>, c: seq<T>)
    ensures (a + b) + c == a + (b + c)
  {
  }

  lemma {:induction false} LeValueBound(bs: seq<Byte>)
    ensures LeValue(bs) < Pow256(|bs|)
  {
    if |bs| > 0 {
      LeValueBound(bs[1..]);
    }
  }

  lemma {:induction false} BeValueBound(bs: seq<Byte>)
    ensures BeValue(bs) < Pow256(|bs|)
  {
    if |bs| > 0 {
      BeValueBound(bs[..|bs| - 1]);
    }
  }

  /** Reading back what `to_le_bytes` wrote gives the value. */
  lemma {:induction false} LeValueOfLeBytes(n: nat, v: nat)
    requires v < Pow256(n)
    ensures LeValue(LeBytes(n, v)) == v
  {
    if n > 0 {
      LeValueOfLeBytes(n - 1, v / 256);
      assert LeBytes(n, v)[1..] == LeBytes(n - 1, v / 256);
    }
  }

  /** Writing back what `from_le_bytes` read gives the bytes. */
  lemma {:induction false} LeBytesOfLeValue(bs: seq<Byte>)
    ensures LeBytes(|bs|, LeValue(bs)) == bs
  {
    if |bs| > 0 {
      LeBytesOfLeValue(bs[1..]);
      assert LeValue(bs) % 256 == bs[0] && LeValue(bs) / 256 == LeValue(bs[1..]);
      assert [bs[0]] + bs[1..] == bs;
    }
  }

  lemma {:induction false} BeValueOfBeBytes(n: nat, v: nat)
    requires v < Pow256(n)
    ensures BeValue(BeBytes(n, v)) == v
  {
    if n > 0 {
      BeValueOfBeBytes(n - 1, v / 256);
      var b := BeBytes(n, v);
      assert b[..n - 1] == BeBytes(n - 1, v / 256);
    }
  }

  lemma {:induction false} BeBytesOfBeValue(bs: seq<Byte>)
    ensures BeBytes(|bs|, BeValue(bs)) == bs
  {
    if |bs| > 0 {
      var k := |bs| - 1;
      BeBytesOfBeValue(bs[..k]);
      assert BeValue(bs) % 256 == bs[k] && BeValue(bs) / 256 == BeValue(bs[..k]);
      assert bs[..k] + [bs[k]] == bs;
    }
  }

  /** The big-endian bytes of a value are its little-endian bytes reversed. */
  lemma {:induction false} ReverseBeBytes(n: nat, v: nat)
    ensures Reverse(BeBytes(n, v)) == LeBytes(n, v)
  {
    if n > 0 {
      ReverseBeBytes(n - 1, v / 256);
      var b := BeBytes(n, v);
      assert b[..n - 1] == BeBytes(n - 1, v / 256);
    }
  }

  /** Reading big-endian is reading the reversed bytes little-endian. */
  lemma {:induction false} BeValueIsLeValueOfReverse(bs: seq<Byte>)
    ensures BeValue(bs) == LeValue(Reverse(bs))
  {
    if |bs| > 0 {
      var k := |bs| - 1;
      BeValueIsLeValueOfReverse(bs[..k]);
      assert Reverse(bs)[1..] == Reverse(bs[..k]);
    }
  }

  /** Leading zero bytes do not change a big-endian value. */
  lemma {:induction false} BeValueLeadingZeros(z: nat, bs: seq<Byte>)
    ensures BeValue(seq(z, _ => 0) + bs) == BeValue(bs)
  {
    if |bs| == 0 {
      assert seq(z, _ => 0) + bs == seq(z, _ => 0);
      ZerosBeValue(z);
    } else {
      var k := |bs| - 1;
      var s := seq(z, _ => 0) + bs;
      assert s[..|s| - 1] == seq(z, _ => 0) + bs[..k];
      BeValueLeadingZeros(z, bs[..k]);
    }
  }

  lemma {:induction false} ZerosBeValue(z: nat)
    ensures BeValue(seq(z, _ => 0)) == 0
  {
    if z > 0 {
      assert seq(z, _ => 0)[..z - 1] == seq(z - 1, _ => 0);
      ZerosBeValue(z - 1);
    }
  }

  /** A trailing zero byte does not change a little-endian value. */
  lemma {:induction false} LeValueTrailingZero(bs: seq<Byte>)
    ensures LeValue(bs + [0]) == LeValue(bs)
  {
    if |bs| > 0 {
      assert (bs + [0])[1..] == bs[1..] + [0];
      LeValueTrailingZero(bs[1..]);
    } else {
      assert LeValue([0]) == 0 + 256 * LeValue([]);
    }
  }

  /** The last k big-endian bytes of a value below 256^k are its k-byte big-endian encoding. */
  lemma {:induction false} BeBytesSuffix(n: nat, k: nat, v: nat)
    requires k <= n && v < Pow256(k)
    ensures BeBytes(n, v)[n - k..] == BeBytes(k, v)
  {
    if k == 0 {
    } else {
      BeBytesSuffix(n - 1, k - 1, v / 256);
      var b := BeBytes(n, v);
      assert b == BeBytes(n - 1, v / 256) + [v % 256];
      assert b[n - k..] == BeBytes(n - 1, v / 256)[n - k..] + [v % 256];
    }
  }

  /** The bit pattern of v in type k (two's complement for signed types). */
  function Pattern(k: IntKind, v: int): (u: nat)
    requires InRange(k, v)
    ensures u < k.Modulus()
    ensures u % k.Modulus() == v % k.Modulus()
  {
    if v < 0 then v + k.Modulus() else v
  }

  /** The value of type k whose bit pattern is u. */
  function FromPattern(k: IntKind, u: nat): (v: int)
    requires u < k.Modulus()
    ensures InRange(k, v)
    ensures v % k.Modulus() == u
  {
    if k.Signed() && u > k.Max() then u - k.Modulus() else u
  }

  lemma FromPatternOfPattern(k: IntKind, v: int)
    requires InRange(k, v)
    ensures FromPattern(k, Pattern(k, v)) == v
  {
  }

  lemma PatternOfFromPattern(k: IntKind, u: nat)
    requires u < k.Modulus()
    ensures Pattern(k, FromPattern(k, u)) == u
  {
  }

  /** `T::from_le_bytes` */
  function FromLeBytes(k: IntKind, bs: seq<Byte>): (v: int)
    requires |bs| == k.Size()
    ensures InRange(k, v)
  {
    LeValueBound(bs);
    ModulusIsPow256(k);
    FromPattern(k, LeValue(bs))
  }

  /** `T::from_be_bytes` */
  function FromBeBytes(k: IntKind, bs: seq<Byte>): (v: int)
    requires |bs| == k.Size()
    ensures InRange(k, v)
  {
    BeValueBound(bs);
    ModulusIsPow256(k);
    FromPattern(k, BeValue(bs))
  }

  /** `T::to_le_bytes` */
  function ToLeBytes(k: IntKind, v: int): (bs: seq<Byte>)
    requires InRange(k, v)
    ensures |bs| == k.Size()
  {
    LeBytes(k.Size(), Pattern(k, v))
  }

  /** `T::to_be_bytes` */
  function ToBeBytes(k: IntKind, v: int): (bs: seq<Byte>)
    requires InRange(k, v)
    ensures |bs| == k.Size()
  {
    BeBytes(k.Size(), Pattern(k, v))
  }

  /** `from_le_bytes(to_le_bytes(v)) == v` for every value of every integer type. */
  lemma FromLeOfToLe(k: IntKind, v: int)
    requires InRange(k, v)
    ensures FromLeBytes(k, ToLeBytes(k, v)) == v
  {
    ModulusIsPow256(k);
    LeValueOfLeBytes(k.Size(), Pattern(k, v));
    FromPatternOfPattern(k, v);
  }

  /** `to_le_bytes(from_le_bytes(b)) == b` for every byte array of the right width. */
  lemma ToLeOfFromLe(k: IntKind, bs: seq<Byte>)
    requires |bs| == k.Size()
    ensures ToLeBytes(k, FromLeBytes(k, bs)) == bs
  {
    LeValueBound(bs);
    ModulusIsPow256(k);
    PatternOfFromPattern(k, LeValue(bs));
    LeBytesOfLeValue(bs);
  }

  lemma FromBeOfToBe(k: IntKind, v: int)
    requires InRange(k, v)
    ensures FromBeBytes(k, ToBeBytes(k, v)) == v
  {
    ModulusIsPow256(k);
    BeValueOfBeBytes(k.Size(), Pattern(k, v));
    FromPatternOfPattern(k, v);
  }

  lemma ToBeOfFromBe(k: IntKind, bs: seq<Byte>)
    requires |bs| == k.Size()
    ensures ToBeBytes(k, FromBeBytes(k, bs)) == bs
  {
    BeValueBound(bs);
    ModulusIsPow256(k);
    PatternOfFromPattern(k, BeValue(bs));
    BeBytesOfBeValue(bs);
  }

  /** The two byte orders agree up to reversing the byte array. */
  lemma FromBeIsFromLeReversed(k: IntKind, bs: seq<Byte>)
    requires |bs| == k.Size()
    ensures FromBeBytes(k, bs) == FromLeBytes(k, Reverse(bs))
  {
    BeValueIsLeValueOfReverse(bs);
  }

  lemma ToBeIsToLeReversed(k: IntKind, v: int)
    requires InRange(k, v)
    ensures Reverse(ToBeBytes(k, v)) == ToLeBytes(k, v)
  {
    ReverseBeBytes(k.Size(), Pattern(k, v));
  }
}
