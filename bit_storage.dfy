/** `BitStorage` (instructor/src/bitfield.rs:4-39, and the packed `u24` at instructor/src/utils.rs:205-226):
    an unsigned register from which a bit window `[start, end)` is extracted as big-endian bytes, and
    into which such bytes are ORed back. Registers are natural numbers below 2^BITS. */
module BitStorage {
  import opened Ints
  import opened Bitwise

  /** The register types implementing `BitStorage`: u8, u16, u32, u64, u128 and the packed u24. */
  datatype Storage = Reg8 | Reg16 | Reg32 | Reg64 | Reg128 | Reg24 {
    /** The length of `Self::Buffer`, in bytes. */
    function Width(): nat {
      match this
      case Reg8 => 1
      case Reg16 => 2
      case Reg32 => 4
      case Reg64 => 8
      case Reg128 => 16
      case Reg24 => 3
    }

    /** `Self::BITS`. */
    function Bits(): nat {
      8 * Width()
    }
  }

  /** A register value of storage s. */
  predicate ValidReg(s: Storage, reg: nat) {
    reg < Pow2(s.Bits())
  }

  /** The ranges `extract` and `insert` accept: the `debug_assert`s demand `start < end <= BITS`, and
      for u8..u128 `1 << (end - start)` overflows the register type unless `end - start < BITS`.
      The u24 mask is computed in u32, so the full 24-bit range is allowed there. */
  predicate ValidRange(s: Storage, start: nat, end: nat) {
    start < end <= s.Bits() && (!s.Reg24? ==> end - start < s.Bits())
  }

  /** The bits `[start, end)` of reg, shifted down: `(reg >> start) & ((1 << (end - start)) - 1)`. */
  function Window(reg: nat, start: nat, end: nat): nat
    requires start <= end
  {
    Shr(reg, start) % Pow2(end - start)
  }

  lemma WindowBound(reg: nat, start: nat, end: nat)
    requires start <= end
    ensures Window(reg, start, end) < Pow2(end - start)
  {
  }

  /** `extract(start, end)`: the window as big-endian bytes of the register's width; u24 computes
      them in u32 and drops the first of the four bytes. */
  function Extract(s: Storage, reg: nat, start: nat, end: nat): (r: seq<Byte>)
    requires ValidRange(s, start, end)
    ensures |r| == s.Width()
    ensures BeValue(r) == Window(reg, start, end)
  {
    var masked := Window(reg, start, end);
    Pow2Monotonic(end - start, s.Bits());
    Pow256IsPow2(s.Width());
    if s.Reg24? then
      Pow256IsPow2(4);
      Pow2Monotonic(24, 32);
      BeBytesSuffix(4, 3, masked);
      BeValueOfBeBytes(3, masked);
      BeBytes(4, masked)[1..]
    else
      BeValueOfBeBytes(s.Width(), masked);
      BeBytes(s.Width(), masked)
  }

  /** `from_be_bytes` of the insert buffer; u24 reads `[0, value[0], value[1], value[2]]` as a u32. */
  function InsertedValue(s: Storage, value: seq<Byte>): nat
    requires |value| == s.Width()
  {
    if s.Reg24? then BeValue([0] + value) else BeValue(value)
  }

  /** `insert(start, end, value)`: ORs `(value & mask) << start` into the register. Nothing is
      cleared first, so bits already set in the window stay set. */
  function Insert(s: Storage, reg: nat, start: nat, end: nat, value: seq<Byte>): (r: nat)
    requires ValidRange(s, start, end) && |value| == s.Width()
    ensures ValidReg(s, reg) ==> ValidReg(s, r)
  {
    var masked := Shl(InsertedValue(s, value) % Pow2(end - start), start);
    InsertBelow(s, reg, start, end, InsertedValue(s, value));
    Or(reg, masked)
  }

  lemma InsertBelow(s: Storage, reg: nat, start: nat, end: nat, v: nat)
    requires start < end <= s.Bits()
    ensures ValidReg(s, reg) ==> ValidReg(s, Or(reg, Shl(v % Pow2(end - start), start)))
  {
    var w := end - start;
    var m := v % Pow2(w);
    Pow2Add(w, start);
    assert w + start == end;
    MulLess(m, Pow2(w), Pow2(start));
    assert Shl(m, start) < Pow2(end);
    Pow2Monotonic(end, s.Bits());
    if ValidReg(s, reg) {
      OrBelowPow2(reg, Shl(m, start), s.Bits());
    }
  }

  /** Bit i of a window is bit i + start of the register, below the window's width. */
  lemma BitOfWindow(reg: nat, start: nat, end: nat, i: nat)
    requires start <= end
    ensures Bit(Window(reg, start, end), i) == (i < end - start && Bit(reg, i + start))
  {
    BitOfMask(Shr(reg, start), end - start, i);
    BitOfShr(reg, start, i);
  }

  /** Bit i of `(v & mask) << start` is bit i - start of v inside the window, and clear outside it. */
  lemma BitOfPlaced(v: nat, start: nat, end: nat, i: nat)
    requires start <= end
    ensures Bit(Shl(v % Pow2(end - start), start), i) == (start <= i < end && Bit(v, i - start))
  {
    BitOfShl(v % Pow2(end - start), start, i);
    if start <= i {
      BitOfMask(v, end - start, i - start);
    }
  }

  /** After an insert, bit i is set iff it was set before or it is inside the window and set in
      the inserted value; in particular, bits outside `[start, end)` are unchanged. */
  lemma BitOfInsert(s: Storage, reg: nat, start: nat, end: nat, value: seq<Byte>, i: nat)
    requires ValidRange(s, start, end) && |value| == s.Width()
    ensures Bit(Insert(s, reg, start, end, value), i)
         == (Bit(reg, i) || (start <= i < end && Bit(InsertedValue(s, value), i - start)))
    ensures !(start <= i < end) ==> Bit(Insert(s, reg, start, end, value), i) == Bit(reg, i)
  {
    var v := InsertedValue(s, value);
    BitOfOr(reg, Shl(v % Pow2(end - start), start), i);
    BitOfPlaced(v, start, end, i);
  }

  /** The u24 insert buffer is just the big-endian value of the three bytes. */
  lemma InsertedValueIsBeValue(s: Storage, value: seq<Byte>)
    requires |value| == s.Width()
    ensures InsertedValue(s, value) == BeValue(value)
  {
    if s.Reg24? {
      BeValueLeadingZeros(1, value);
      assert seq(1, _ => 0) == [0];
    }
  }

  /** The window of an insert is the old window ORed with the masked value. */
  lemma WindowOfInsert(s: Storage, reg: nat, start: nat, end: nat, value: seq<Byte>)
    requires ValidRange(s, start, end) && |value| == s.Width()
    ensures Window(Insert(s, reg, start, end, value), start, end)
         == Or(Window(reg, start, end), BeValue(value) % Pow2(end - start))
  {
    InsertedValueIsBeValue(s, value);
    var r := Insert(s, reg, start, end, value);
    var lhs := Window(r, start, end);
    var rhs := Or(Window(reg, start, end), BeValue(value) % Pow2(end - start));
    forall i: nat ensures Bit(lhs, i) == Bit(rhs, i) {
      BitOfWindow(r, start, end, i);
      BitOfInsert(s, reg, start, end, value, i + start);
      BitOfOr(Window(reg, start, end), BeValue(value) % Pow2(end - start), i);
      BitOfWindow(reg, start, end, i);
      BitOfMask(BeValue(value), end - start, i);
    }
    BitsEqual(lhs, rhs);
  }

  /** Inserting into a clear window, then extracting the same window, gives back the value masked
      to the window's width. */
  lemma ExtractOfInsert(s: Storage, reg: nat, start: nat, end: nat, value: seq<Byte>)
    requires ValidRange(s, start, end) && |value| == s.Width()
    requires Window(reg, start, end) == 0
    ensures BeValue(Extract(s, Insert(s, reg, start, end, value), start, end))
         == BeValue(value) % Pow2(end - start)
  {
    WindowOfInsert(s, reg, start, end, value);
    OrZero(BeValue(value) % Pow2(end - start));
  }

  /** An insert leaves every window disjoint from its own untouched. */
  lemma InsertDisjoint(s: Storage, reg: nat, start: nat, end: nat, value: seq<Byte>, start': nat, end': nat)
    requires ValidRange(s, start, end) && |value| == s.Width()
    requires start' <= end'
    requires end <= start' || end' <= start
    ensures Window(Insert(s, reg, start, end, value), start', end') == Window(reg, start', end')
  {
    var r := Insert(s, reg, start, end, value);
    forall i: nat ensures Bit(Window(r, start', end'), i) == Bit(Window(reg, start', end'), i) {
      BitOfWindow(r, start', end', i);
      BitOfWindow(reg, start', end', i);
      BitOfInsert(s, reg, start, end, value, i + start');
    }
    BitsEqual(Window(r, start', end'), Window(reg, start', end'));
  }

  /** On a u8, inserting 0x5 at `[0, 4)` and then 0xA at `[4, 8)` gives 0xA5. */
  lemma InsertNibbles()
    ensures Insert(Reg8, Insert(Reg8, 0, 0, 4, [0x05]), 4, 8, [0x0A]) == 0xA5
  {
    var lo := Insert(Reg8, 0, 0, 4, [0x05]);
    assert Pow2(4) == 16;
    assert BeValue([0x05]) == 5 by { assert [0x05][..0] == []; }
    assert BeValue([0x0A]) == 10 by { assert [0x0A][..0] == []; }
    OrZero(5);
    assert lo == 5;
    assert Shl(InsertedValue(Reg8, [0x0A]) % Pow2(4), 4) == 0xA0;
    forall i: nat ensures !(Bit(5, i) && Bit(0xA0, i)) {
      BitOfShl(10, 4, i);
      if 4 <= i {
        NoBitsAbove(5, 4);
      }
    }
    OrDisjoint(5, 0xA0);
  }

  /** The u24 insert keeps the value at most `u24::MAX`. */
  lemma InsertU24Bound(reg: nat, start: nat, end: nat, value: seq<Byte>)
    requires ValidRange(Reg24, start, end) && |value| == 3
    requires reg <= 0xFF_FFFF
    ensures Insert(Reg24, reg, start, end, value) <= 0xFF_FFFF
  {
    Pow256IsPow2(3);
    assert Pow256(3) == 0x100_0000;
  }
}
