/** Unsigned bit arithmetic over mathematical integers: `x >> s` is `Shr(x, s)`, that is
    `x / Pow2(s)`; `x & (2^w - 1)` is `x % Pow2(w)`; `x << s` is `Shl(x, s)`, that is
    `x * Pow2(s)` (when nothing is shifted out); and `|` is `Or`. Bit i of x is `Bit(x, i)`;
    two numbers are equal when all their bits are. */
module Bitwise {
  import opened Ints

  function Pow2(n: nat): (r: nat)
    ensures r >= 1
  {
    if n == 0 then 1 else 2 * Pow2(n - 1)
  }

  /** Bit i of x, counted from the least significant bit. */
  predicate Bit(x: nat, i: nat)
    decreases i
  {
    if i == 0 then x % 2 == 1 else Bit(x / 2, i - 1)
  }

  /** Bitwise OR of two unsigned numbers. */
  function Or(a: nat, b: nat): nat
    decreases a + b
  {
    if a == 0 then b
    else if b == 0 then a
    else 2 * Or(a / 2, b / 2) + (if a % 2 == 1 || b % 2 == 1 then 1 else 0)
  }

  lemma MulBounds(k: int, d: int)
    requires d > 0
    ensures k >= 1 ==> k * d >= d
    ensures k <= -1 ==> k * d <= -d
  {
    assert k * d - d == (k - 1) * d;
    assert k * d + d == (k + 1) * d;
  }

  lemma MulLess(a: nat, b: nat, c: nat)
    requires a < b && c > 0
    ensures a * c < b * c
  {
    assert b * c - a * c == (b - a) * c;
  }

  /** Quotient and remainder are determined by `x == q * d + r` with `0 <= r < d`. */
  lemma DivModUnique(x: int, d: int, q: int, r: int)
    requires d > 0 && 0 <= r < d && x == q * d + r
    ensures x / d == q && x % d == r
  {
    var k := x / d - q;
    assert k * d == r - x % d;
    MulBounds(k, d);
  }

  lemma Pow2Add(a: nat, b: nat)
    ensures Pow2(a + b) == Pow2(a) * Pow2(b)
    decreases b
  {
    if b > 0 {
      Pow2Add(a, b - 1);
      assert Pow2(a + b) == 2 * Pow2(a + b - 1);
    }
  }

  lemma Pow2Monotonic(a: nat, b: nat)
    requires a <= b
    ensures Pow2(a) <= Pow2(b)
    decreases b
  {
    if a < b {
      Pow2Monotonic(a, b - 1);
    }
  }

  lemma Pow256IsPow2(n: nat)
    ensures Pow256(n) == Pow2(8 * n)
  {
    if n > 0 {
      Pow256IsPow2(n - 1);
      Pow2Add(8 * (n - 1), 8);
      assert 8 * n == 8 * (n - 1) + 8;
    }
  }

  /** A quotient of natural numbers is a natural number. */
  lemma DivNonNegative(x: nat, d: nat)
    requires d > 0
    ensures x / d >= 0
  {
    MulBounds(x / d, d);
  }

  /** `x >> s`. */
  function Shr(x: nat, s: nat): nat {
    DivNonNegative(x, Pow2(s));
    x / Pow2(s)
  }

  /** A product of natural numbers is a natural number. */
  lemma MulNonNegative(a: nat, b: nat)
    ensures a * b >= 0
  {
    if a > 0 && b > 0 {
      MulLess(0, a, b);
    }
  }

  /** `m << s`, with nothing shifted out. */
  function Shl(m: nat, s: nat): nat {
    MulNonNegative(m, Pow2(s));
    m * Pow2(s)
  }

  /** Halving once more divides by one more power of two; likewise for the remainder. */
  lemma DivModPow2Succ(x: nat, s: nat)
    ensures x / Pow2(s + 1) == (x / 2) / Pow2(s)
    ensures x % Pow2(s + 1) == 2 * ((x / 2) % Pow2(s)) + x % 2
  {
    var p := Pow2(s);
    var a, b := (x / 2) / p, (x / 2) % p;
    assert x / 2 == a * p + b;
    assert x == a * (2 * p) + (2 * b + x % 2);
    DivModUnique(x, 2 * p, a, 2 * b + x % 2);
  }

  lemma {:induction false} BitOfZero(i: nat)
    ensures !Bit(0, i)
  {
    if i > 0 {
      BitOfZero(i - 1);
    }
  }

  /** Bit i of `a | b` is set iff it is set in a or in b. */
  lemma {:induction false} BitOfOr(a: nat, b: nat, i: nat)
    ensures Bit(Or(a, b), i) == (Bit(a, i) || Bit(b, i))
    decreases i
  {
    BitOfZero(i);
    if a != 0 && b != 0 && i > 0 {
      var c := if a % 2 == 1 || b % 2 == 1 then 1 else 0;
      assert (2 * Or(a / 2, b / 2) + c) / 2 == Or(a / 2, b / 2);
      BitOfOr(a / 2, b / 2, i - 1);
    }
  }

  /** Numbers with the same bits are equal. */
  lemma {:induction false} BitsEqual(a: nat, b: nat)
    requires forall i: nat :: Bit(a, i) == Bit(b, i)
    ensures a == b
    decreases a + b
  {
    if a != b {
      assert Bit(a, 0) == Bit(b, 0);
      forall i: nat ensures Bit(a / 2, i) == Bit(b / 2, i) {
        assert Bit(a, i + 1) == Bit(b, i + 1);
      }
      if a / 2 + b / 2 < a + b {
        BitsEqual(a / 2, b / 2);
      }
    }
  }

  /** Bit i of `x >> s` is bit i + s of x. */
  lemma {:induction false} BitOfShr(x: nat, s: nat, i: nat)
    ensures Bit(Shr(x, s), i) == Bit(x, i + s)
    decreases s
  {
    if s > 0 {
      DivModPow2Succ(x, s - 1);
      BitOfShr(x / 2, s - 1, i);
      assert Shr(x, s) == Shr(x / 2, s - 1);
    }
  }

  /** Masking with `2^w - 1` keeps exactly the bits below w. */
  lemma {:induction false} BitOfMask(x: nat, w: nat, i: nat)
    ensures Bit(x % Pow2(w), i) == (i < w && Bit(x, i))
    decreases w
  {
    if w == 0 {
      BitOfZero(i);
    } else {
      DivModPow2Succ(x, w - 1);
      var m := (x / 2) % Pow2(w - 1);
      assert x % Pow2(w) == 2 * m + x % 2;
      if i > 0 {
        assert (2 * m + x % 2) / 2 == m;
        BitOfMask(x / 2, w - 1, i - 1);
      }
    }
  }

  /** Bit i of `m << s` is bit i - s of m, and no bit below s is set. */
  lemma {:induction false} BitOfShl(m: nat, s: nat, i: nat)
    ensures Bit(Shl(m, s), i) == (s <= i && Bit(m, i - s))
    decreases s
  {
    if s > 0 {
      var y := Shl(m, s - 1);
      assert Shl(m, s) == 2 * y;
      if i > 0 {
        assert (2 * y) / 2 == y;
        BitOfShl(m, s - 1, i - 1);
      }
    }
  }

  /** A number below 2^n has no bit at n or above. */
  lemma NoBitsAbove(x: nat, n: nat)
    requires x < Pow2(n)
    ensures forall i: nat :: n <= i ==> !Bit(x, i)
  {
    forall i: nat | n <= i ensures !Bit(x, i) {
      DivModUnique(x, Pow2(n), 0, x);
      BitOfShr(x, n, i - n);
      BitOfZero(i - n);
    }
  }

  /** A number with no bit at n or above is below 2^n. */
  lemma BelowPow2(x: nat, n: nat)
    requires forall i: nat :: n <= i ==> !Bit(x, i)
    ensures x < Pow2(n)
  {
    forall i: nat ensures Bit(x % Pow2(n), i) == Bit(x, i) {
      BitOfMask(x, n, i);
    }
    BitsEqual(x % Pow2(n), x);
  }

  /** OR of two numbers below 2^n is below 2^n. */
  lemma OrBelowPow2(a: nat, b: nat, n: nat)
    requires a < Pow2(n) && b < Pow2(n)
    ensures Or(a, b) < Pow2(n)
  {
    NoBitsAbove(a, n);
    NoBitsAbove(b, n);
    forall i: nat | n <= i ensures !Bit(Or(a, b), i) {
      BitOfOr(a, b, i);
    }
    BelowPow2(Or(a, b), n);
  }

  /** OR of numbers with no common bit is their sum. */
  lemma {:induction false} OrDisjoint(a: nat, b: nat)
    requires forall i: nat :: !(Bit(a, i) && Bit(b, i))
    ensures Or(a, b) == a + b
    decreases a + b
  {
    if a != 0 && b != 0 {
      assert !(Bit(a, 0) && Bit(b, 0));
      forall i: nat ensures !(Bit(a / 2, i) && Bit(b / 2, i)) {
        assert !(Bit(a, i + 1) && Bit(b, i + 1));
      }
      OrDisjoint(a / 2, b / 2);
    }
  }

  lemma OrZero(a: nat)
    ensures Or(a, 0) == a && Or(0, a) == a
  {
  }
}
