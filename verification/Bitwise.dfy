// Bitwise operations on numbers, digit by digit.

module Bitwise {
  import opened Words

  /** Bitwise and of two numbers. */
  function And(a: nat, b: nat): (r: nat)
    ensures r <= b
  {
    if a == 0 || b == 0 then 0 else 2 * And(a / 2, b / 2) + if a % 2 == 1 && b % 2 == 1 then 1 else 0
  }

  /** Bitwise or of two numbers. */
  function Or(a: nat, b: nat): nat {
    if a == 0 then b else if b == 0 then a
    else 2 * Or(a / 2, b / 2) + if a % 2 == 1 || b % 2 == 1 then 1 else 0
  }

  /** Bitwise exclusive or of two numbers. */
  function Xor(a: nat, b: nat): nat {
    if a == 0 then b else if b == 0 then a else 2 * Xor(a / 2, b / 2) + (a + b) % 2
  }

  lemma {:induction false} XorHalf(a: nat, b: nat)
    ensures Xor(a, b) / 2 == Xor(a / 2, b / 2) && Xor(a, b) % 2 == (a + b) % 2
  {
    if a == 0 || b == 0 {
      assert 0 / 2 == 0;
    }
  }

  /** Applying the same mask twice is the identity. */
  lemma {:induction false} XorTwice(a: nat, b: nat)
    ensures Xor(a, Xor(a, b)) == b
  {
    if a > 0 {
      hide Xor;
      XorHalf(a, b);
      XorHalf(a, Xor(a, b));
      XorTwice(a / 2, b / 2);
      SameParity(a, b, Xor(a, b));
      SameDigits(Xor(a, Xor(a, b)), b);
    }
  }

  lemma SameParity(a: nat, b: nat, x: nat)
    requires x % 2 == (a + b) % 2
    ensures (a + x) % 2 == b % 2
  {
  }

  lemma SameDigits(x: nat, y: nat)
    requires x / 2 == y / 2 && x % 2 == y % 2
    ensures x == y
  {
  }

  lemma {:induction false} XorBound(a: nat, b: nat, limit: nat)
    requires a < limit && b < limit && IsPower(limit)
    ensures Xor(a, b) < limit
  {
    if a > 0 && b > 0 {
      XorBound(a / 2, b / 2, limit / 2);
      XorHalf(a, b);
    }
  }

  predicate IsPower(n: nat) {
    n == 1 || (n > 1 && n % 2 == 0 && IsPower(n / 2))
  }

  function XorByte(a: byte, b: byte): byte {
    assert IsPower(16);
    assert IsPower(256);
    XorBound(a, b, 256);
    Xor(a, b)
  }

  function XorWord(a: u32, b: u32): u32 {
    assert IsPower(0x100);
    assert IsPower(0x1_0000);
    assert IsPower(0x100_0000);
    assert IsPower(0x1_0000_0000);
    XorBound(a, b, 0x1_0000_0000);
    Xor(a, b)
  }

  function Power2(k: nat): (p: nat)
    ensures p > 0
  {
    if k == 0 then 1 else 2 * Power2(k - 1)
  }

  /** a << k */
  function ShiftLeft(a: nat, k: nat): nat {
    if k == 0 then a else 2 * ShiftLeft(a, k - 1)
  }

  /** v >> k */
  function High(v: nat, k: nat): nat { Over(v, Power2(k)) }

  function Over(v: nat, m: nat): nat
    requires m > 0
  {
    v / m
  }

  /** v & ((1 << k) - 1) */
  function LowBits(v: nat, k: nat): nat { v % Power2(k) }

  /** Or with a number shifted left by k: the low k digits, and the digits above, do not mix. */
  lemma {:induction false} OrShifted(a: nat, b: nat, k: nat)
    ensures LowBits(Or(ShiftLeft(a, k), b), k) == LowBits(b, k)
    ensures High(Or(ShiftLeft(a, k), b), k) == Or(a, High(b, k))
  {
    if k > 0 {
      hide Or, High, LowBits;
      assert ShiftLeft(a, k) / 2 == ShiftLeft(a, k - 1);
      OrShifted(a, b / 2, k - 1);
      OrHalf(ShiftLeft(a, k), b);
      var x := Or(ShiftLeft(a, k), b);
      TwiceAnd(Or(ShiftLeft(a, k - 1), b / 2), b % 2, x);
      ShiftStep(x, k);
      ShiftStep(b, k);
    }
  }

  lemma TwiceAnd(h: nat, d: nat, x: nat)
    requires x == 2 * h + d && d < 2
    ensures x / 2 == h && x % 2 == d
  {
  }

  lemma ShiftStep(v: nat, k: nat)
    requires k > 0
    ensures High(v, k) == High(v / 2, k - 1)
    ensures LowBits(v, k) == 2 * LowBits(v / 2, k - 1) + v % 2
  {
    Halves(v, Power2(k - 1));
  }

  /** Below the shifted digits, or is addition. */
  lemma {:induction false} OrAdds(a: nat, b: nat, k: nat)
    requires b < Power2(k)
    ensures Or(ShiftLeft(a, k), b) == ShiftLeft(a, k) + b
  {
    if k > 0 {
      hide *;
      OnePlaceMore(a, k);
      TwiceAnd(ShiftLeft(a, k - 1), 0, ShiftLeft(a, k));
      OrAdds(a, b / 2, k - 1);
      OrHalf(ShiftLeft(a, k), b);
    } else {
      NoDigits(a, b);
    }
  }

  lemma OnePlaceMore(a: nat, k: nat)
    requires k > 0
    ensures ShiftLeft(a, k) == 2 * ShiftLeft(a, k - 1) && Power2(k) == 2 * Power2(k - 1)
  {
  }

  lemma NoDigits(a: nat, b: nat)
    requires b == 0
    ensures Or(a, b) == a
  {
  }

  lemma {:induction false} ShiftValue(a: nat, k: nat)
    ensures ShiftLeft(a, k) == a * Power2(k)
  {
    if k > 0 {
      ShiftValue(a, k - 1);
      DoubleProduct(a, Power2(k - 1));
    }
  }

  lemma DoubleProduct(a: nat, q: nat)
    ensures a * (2 * q) == 2 * (a * q)
  {
  }

  lemma {:induction false} OrHalf(a: nat, b: nat)
    requires a % 2 == 0
    ensures Or(a, b) == 2 * Or(a / 2, b / 2) + b % 2
  {
    if a == 0 || b == 0 {
      assert 0 / 2 == 0;
    }
  }

  lemma Halves(n: nat, q: nat)
    requires q > 0
    ensures n / (2 * q) == n / 2 / q
    ensures n % (2 * q) == 2 * (n / 2 % q) + n % 2
  {
    var h := n / 2;
    var k, r := h / q, h % q;
    assert h == q * k + r;
    assert n == 2 * q * k + (2 * r + n % 2) by {
      DoubleProduct(k, q);
    }
    Quotient(n, 2 * q, k, 2 * r + n % 2);
  }

  lemma Quotient(v: nat, m: nat, k: nat, r: nat)
    requires r < m && v == m * k + r
    ensures v / m == k && v % m == r
  {
    var q, d := v / m, v / m - k;
    assert v == m * q + v % m;
    assert m * d == m * q - m * k;
    NoMultipleBetween(m, d);
  }

  lemma NoMultipleBetween(m: int, d: int)
    requires -m < m * d < m
    ensures d == 0
  {
  }
}
