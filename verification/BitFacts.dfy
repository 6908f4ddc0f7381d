// Facts about single bits of a word under complement, masking and byte extraction.

module BitFacts {
  import opened Words
  import opened Popcount

  lemma ComplementBit(w: bv32, k: nat)
    requires k < 32
    ensures Bit(!w, k) == !Bit(w, k)
  {
    hide OneShl, SingleBit, BitTest;
    OneShlSingle(k);
    ComplementTest(w, OneShl(k));
  }

  lemma ComplementTest(w: bv32, p: bv32)
    requires SingleBit(p)
    ensures BitTest(!w, p) == !BitTest(w, p)
  {
  }

  lemma {:induction false} ComplementOnes(w: bv32, k: nat)
    requires k <= 32
    ensures Ones(!w, k) == k - Ones(w, k)
  {
    hide Bit;
    if k > 0 {
      ComplementOnes(w, k - 1);
      ComplementBit(w, k - 1);
    }
  }

  predicate Below(p: bv32, q: bv32) { p < q }

  lemma {:induction false} OneShlGrows(i: nat, k: nat)
    requires i < k < 32
    ensures Below(OneShl(i), OneShl(k))
  {
    hide Bit;
    OneShlSingle(k - 1);
    OneShlBound(k - 1);
    Doubles(OneShl(k - 1));
    if i < k - 1 {
      OneShlGrows(i, k - 1);
    }
  }

  lemma Doubles(p: bv32)
    requires SingleBit(p) && p <= 0x4000_0000
    ensures p < p << 1
  {
  }

  /** w with only its k lowest bits kept, as the source masks it. */
  function Masked(w: bv32, k: nat): bv32 { KeepBelow(w, OneShl(k)) }

  function KeepBelow(w: bv32, q: bv32): bv32 { w & (q - 1) }

  lemma MaskBit(w: bv32, k: nat, i: nat)
    requires k < 32 && i < 32
    ensures Bit(Masked(w, k), i) == (i < k && Bit(w, i))
  {
    hide *;
    OneShlSingle(i);
    OneShlSingle(k);
    MaskedBitIs(w, k, i);
    if i < k {
      OneShlGrows(i, k);
      MaskKeeps(w, OneShl(i), OneShl(k));
    } else {
      if k < i {
        OneShlGrows(k, i);
      }
      MaskDrops(w, OneShl(i), OneShl(k));
    }
  }

  lemma MaskedBitIs(w: bv32, k: nat, i: nat)
    ensures Bit(w, i) == BitTest(w, OneShl(i))
    ensures Bit(Masked(w, k), i) == BitTest(KeepBelow(w, OneShl(k)), OneShl(i))
  {
    hide OneShl, KeepBelow, BitTest;
  }

  lemma MaskKeeps(w: bv32, p: bv32, q: bv32)
    requires SingleBit(p) && SingleBit(q) && Below(p, q)
    ensures BitTest(KeepBelow(w, q), p) == BitTest(w, p)
  {
  }

  lemma MaskDrops(w: bv32, p: bv32, q: bv32)
    requires SingleBit(p) && SingleBit(q) && (p == q || Below(q, p))
    ensures !BitTest(KeepBelow(w, q), p)
  {
  }

  /** Masking with (1 << k) - 1 keeps exactly the bits below k. */
  lemma {:induction false} MaskOnes(w: bv32, k: nat, n: nat)
    requires k < 32 && n <= 32
    ensures Ones(Masked(w, k), n) == Ones(w, if n < k then n else k)
  {
    hide Bit, Masked;
    if n > 0 {
      MaskOnes(w, k, n - 1);
      MaskBit(w, k, n - 1);
    }
  }

  lemma BitIs(w: bv32, i: nat)
    ensures Bit(w, i) == BitTest(w, OneShl(i))
  {
    hide OneShl, BitTest;
  }

  lemma LowByteBit(w: bv32, i: nat)
    requires i < 8
    ensures Bit(Low08(w), i) == Bit(w, i)
  {
    hide *;
    LowShiftBound(i);
    BitIs(w, i);
    BitIs(Low08(w), i);
    LowByteTest(w, OneShl(i));
  }

  lemma LowShiftBound(i: nat)
    requires i < 8
    ensures OneShl(i) <= 0x80
  {
    hide *;
    LowShifts();
    assert i == 0 || i == 1 || i == 2 || i == 3 || i == 4 || i == 5 || i == 6 || i == 7;
  }

  lemma LowByteTest(w: bv32, p: bv32)
    requires p <= 0x80
    ensures BitTest(Low08(w), p) == BitTest(w, p)
  {
  }

  lemma {:induction false} LowByteOnes(w: bv32, k: nat)
    requires k <= 8
    ensures Ones(Low08(w), k) == Ones(w, k)
  {
    hide Bit, Low08;
    if k > 0 {
      LowByteOnes(w, k - 1);
      LowByteBit(w, k - 1);
    }
  }

  /** Byte j of a word, as the select code extracts it: shift, then mask. */
  function ByteOf(w: bv32, j: nat): bv32 {
    if j == 0 then Low08(w) else if j == 1 then Low16(w) else if j == 2 then Low24(w) else All32(w)
  }

  lemma ByteCases(w: bv32, j: nat)
    requires j < 4
    ensures ByteOf(w, j) == if j == 0 then Low08(w) else ByteOf(Shr8(w), j - 1)
  {
    hide Low08, Low16, Low24, All32, Shr8;
    BytesShift(w);
  }

  lemma ByteOnes(w: bv32, j: nat, k: nat)
    requires j < 4 && k <= 8
    ensures Ones(ByteOf(w, j), k) == Ones(w, 8 * j + k) - Ones(w, 8 * j)
    ensures k < 8 ==> Bit(ByteOf(w, j), k) == Bit(w, 8 * j + k)
    decreases j
  {
    hide *;
    ByteCases(w, j);
    NoOnes(w);
    if j == 0 {
      LowByteOnes(w, k);
      if k < 8 {
        LowByteBit(w, k);
      }
    } else {
      ByteOnes(Shr8(w), j - 1, k);
      OnesShift8(w, 8 * (j - 1) + k);
      OnesShift8(w, 8 * (j - 1));
      if k < 8 {
        BitShift8(w, 8 * (j - 1) + k);
      }
    }
  }
}
