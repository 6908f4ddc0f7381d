// The hash that picks a cache slot for a node and the next byte of a name.

module SlotHash {
  import opened Words
  import opened Bitwise

  /** CalcHashValue, cut down to the table: byte ^ (node << 5) ^ node, masked. */
  function HashSlot(b: byte, node: u32, mask: u32): nat {
    And(Xor(Xor(b, Wrap(32 * node)), node), mask)
  }

  function BitOf(n: nat, i: nat): nat {
    if i == 0 then n % 2 else BitOf(n / 2, i - 1)
  }

  lemma {:induction false} BitOfZero(i: nat)
    ensures BitOf(0, i) == 0
  {
    if i > 0 {
      BitOfZero(i - 1);
    }
  }

  lemma {:induction false} BitOfAnd(a: nat, b: nat, i: nat)
    ensures BitOf(And(a, b), i) == if BitOf(a, i) == 1 && BitOf(b, i) == 1 then 1 else 0
  {
    BitOfZero(i);
    if a == 0 || b == 0 {
    } else if i > 0 {
      BitOfAnd(a / 2, b / 2, i - 1);
    }
  }

  lemma {:induction false} BitOfXor(a: nat, b: nat, i: nat)
    ensures BitOf(Xor(a, b), i) == (BitOf(a, i) + BitOf(b, i)) % 2
    ensures BitOf(a, i) < 2 && BitOf(b, i) < 2
  {
    hide Xor;
    BitOfBound(a, i);
    BitOfBound(b, i);
    XorHalf(a, b);
    if i > 0 {
      BitOfXor(a / 2, b / 2, i - 1);
    }
  }

  lemma {:induction false} BitOfBound(n: nat, i: nat)
    ensures BitOf(n, i) < 2
  {
    if i > 0 {
      BitOfBound(n / 2, i - 1);
    }
  }

  /** All of the k low digits of m are ones. */
  lemma {:induction false} LowOnes(m: nat, k: nat, i: nat)
    requires m % Power2(k) == Power2(k) - 1 && i < k
    ensures BitOf(m, i) == 1
    decreases i
  {
    Halves(m, Power2(k - 1));
    if i > 0 {
      LowOnes(m / 2, k - 1, i - 1);
    }
  }

  lemma {:induction false} SameBits(a: nat, b: nat, k: nat, limit: nat)
    requires forall i :: 0 <= i < k ==> BitOf(a, i) == BitOf(b, i)
    requires a < limit && b < limit && limit == Power2(k)
    ensures a == b
    decreases k
  {
    if k > 0 {
      forall i | 0 <= i < k - 1
        ensures BitOf(a / 2, i) == BitOf(b / 2, i)
      {
        assert BitOf(a, i + 1) == BitOf(b, i + 1);
      }
      SameBits(a / 2, b / 2, k - 1, Power2(k - 1));
      assert BitOf(a, 0) == BitOf(b, 0);
    }
  }

  /** In a table of a multiple of 256 slots, one node's bytes never share a slot. */
  lemma SlotTellsByte(b: byte, c: byte, node: u32, mask: u32)
    requires mask % 256 == 255
    requires HashSlot(b, node, mask) == HashSlot(c, node, mask)
    ensures b == c
  {
    assert Power2(4) == 16;
    assert Power2(8) == 256;
    hide BitOf, HashSlot, Wrap, Power2;
    forall i | 0 <= i < 8
      ensures BitOf(b, i) == BitOf(c, i)
    {
      LowOnes(mask, 8, i);
      SlotBit(b, node, mask, i);
      SlotBit(c, node, mask, i);
      BitOfBound(b, i);
      BitOfBound(c, i);
    }
    SameBits(b, c, 8, 256);
  }

  lemma SlotBit(b: byte, node: u32, mask: u32, i: nat)
    requires BitOf(mask, i) == 1
    ensures BitOf(HashSlot(b, node, mask), i) == (BitOf(b, i) + BitOf(Wrap(32 * node), i) + BitOf(node, i)) % 2
  {
    hide BitOf, And, Xor;
    var s := Wrap(32 * node);
    BitOfXor(b, s, i);
    BitOfXor(Xor(b, s), node, i);
    BitOfAnd(Xor(Xor(b, s), node), mask, i);
  }
}
