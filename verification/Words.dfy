// Machine words as the Go sources use them: unsigned 32-bit counters with
// wrap-around, and 32-bit words seen as 32 single bits.

module Words {
  const TWO32: nat := 0x1_0000_0000

  type u32 = x: nat | x < 0x1_0000_0000

  type byte = x: nat | x < 256

  /** What a Go uint32 keeps of an integer. */
  function Wrap(x: int): u32 {
    x % 0x1_0000_0000
  }

  lemma WrapFits(v: nat)
    requires v < TWO32
    ensures Wrap(v) == v
  {
  }

  /** 1 << k in a 32-bit word. */
  function OneShl(k: nat): bv32 {
    if k == 0 then 1 else OneShl(k - 1) << 1
  }

  /** Is the bit that p marks set in w? */
  predicate BitTest(w: bv32, p: bv32) {
    w & p != 0
  }

  predicate Bit(w: bv32, k: nat) {
    BitTest(w, OneShl(k))
  }

  /** Number of one bits among the k lowest bits of w. */
  function Ones(w: bv32, k: nat): (n: nat)
    ensures n <= k
  {
    if k == 0 then 0 else Ones(w, k - 1) + if Bit(w, k - 1) then 1 else 0
  }

  predicate SingleBit(p: bv32) {
    p != 0 && p & (p - 1) == 0
  }

  lemma {:induction false} OneShlSingle(k: nat)
    requires k < 32
    ensures SingleBit(OneShl(k))
  {
    hide SingleBit;
    if k > 0 {
      OneShlSingle(k - 1);
      OneShlBound(k - 1);
      StillSingle(OneShl(k - 1));
    } else {
      OneIsSingle();
    }
  }

  lemma OneIsSingle()
    ensures SingleBit(1)
  {
  }

  lemma StillSingle(p: bv32)
    requires SingleBit(p) && p <= 0x4000_0000
    ensures SingleBit(p << 1)
  {
  }

  lemma {:induction false} OneShlBound(k: nat)
    requires k < 32
    ensures k < 31 ==> OneShl(k) <= 0x4000_0000
    ensures k < 24 ==> OneShl(k) <= 0x80_0000
  {
    assert OneShl(0) == 1 && OneShl(1) == 2 && OneShl(2) == 4 && OneShl(3) == 8;
    assert OneShl(4) == 0x10 && OneShl(5) == 0x20 && OneShl(6) == 0x40 && OneShl(7) == 0x80;
    assert OneShl(8) == 0x100 && OneShl(9) == 0x200 && OneShl(10) == 0x400 && OneShl(11) == 0x800;
    assert OneShl(12) == 0x1000 && OneShl(13) == 0x2000 && OneShl(14) == 0x4000 && OneShl(15) == 0x8000;
    assert OneShl(16) == 0x1_0000 && OneShl(17) == 0x2_0000 && OneShl(18) == 0x4_0000 && OneShl(19) == 0x8_0000;
    assert OneShl(20) == 0x10_0000 && OneShl(21) == 0x20_0000 && OneShl(22) == 0x40_0000 && OneShl(23) == 0x80_0000;
    assert OneShl(24) == 0x100_0000 && OneShl(25) == 0x200_0000 && OneShl(26) == 0x400_0000 && OneShl(27) == 0x800_0000;
    assert OneShl(28) == 0x1000_0000 && OneShl(29) == 0x2000_0000 && OneShl(30) == 0x4000_0000;
  }
}
