// The SWAR popcount of internal/root/mndx/trie.go.

module Popcount {
  import opened Words

  /** A word as a number. */
  function Val(v: bv32): nat { v as int }

  // The four bytes of the packed result, as the callers extract them.
  function Low08(v: bv32): bv32 { v & 0xFF }

  function Low16(v: bv32): bv32 { (v >> 8) & 0xFF }

  function Low24(v: bv32): bv32 { (v >> 16) & 0xFF }

  function All32(v: bv32): bv32 { (v >> 24) & 0xFF }

  /** setBitsAll: four running popcounts packed into one word. */
  method SetBitsAll(value: bv32) returns (v: bv32)
    ensures Val(Low08(v)) == Ones(value, 8)
    ensures Val(Low16(v)) == Ones(value, 16)
    ensures Val(Low24(v)) == Ones(value, 24)
    ensures Val(All32(v)) == Ones(value, 32)
  {
    hide *;
    v := value;
    StepsAre(v);
    v := ((v >> 1) & 0x5555_5555) + (v & 0x5555_5555);
    StepsAre(v);
    v := ((v >> 2) & 0x3333_3333) + (v & 0x3333_3333);
    StepsAre(v);
    v := ((v >> 4) & 0x0F0F_0F0F) + (v & 0x0F0F_0F0F);
    FoldsAre(value);
    StepsAre(v);
    v := v * 0x0101_0101;
    RunningCounts(value);
  }

  method Popcount32(value: bv32) returns (n: nat)
    ensures n == Ones(value, 32)
  {
    hide *;
    var v := SetBitsAll(value);
    TopByte(v);
    n := (v >> 24) as int;
  }

  lemma TopByte(v: bv32)
    ensures Val(All32(v)) == (v >> 24) as int
  {
  }

  // The three folding steps of the popcount: two-, four- and eight-bit fields.
  function Pairs(v: bv32): bv32 { ((v >> 1) & 0x5555_5555) + (v & 0x5555_5555) }

  function Nibbles(v: bv32): bv32 { ((v >> 2) & 0x3333_3333) + (v & 0x3333_3333) }

  function PerByte(v: bv32): bv32 { ((v >> 4) & 0x0F0F_0F0F) + (v & 0x0F0F_0F0F) }

  function Folds(v: bv32): bv32 { PerByte(Nibbles(Pairs(v))) }

  function Spread(c: bv32): bv32 { c * 0x0101_0101 }

  function Shr8(v: bv32): bv32 { v >> 8 }

  function Shl8(v: bv32): bv32 { v << 8 }

  lemma StepsAre(v: bv32)
    ensures ((v >> 1) & 0x5555_5555) + (v & 0x5555_5555) == Pairs(v)
    ensures ((v >> 2) & 0x3333_3333) + (v & 0x3333_3333) == Nibbles(v)
    ensures ((v >> 4) & 0x0F0F_0F0F) + (v & 0x0F0F_0F0F) == PerByte(v)
    ensures v * 0x0101_0101 == Spread(v)
  {
  }

  lemma FoldsAre(v: bv32)
    ensures Folds(v) == PerByte(Nibbles(Pairs(v)))
  {
  }

  lemma RunningCounts(value: bv32)
    ensures Val(Low08(Spread(Folds(value)))) == Ones(value, 8)
    ensures Val(Low16(Spread(Folds(value)))) == Ones(value, 16)
    ensures Val(Low24(Spread(Folds(value)))) == Ones(value, 24)
    ensures Val(All32(Spread(Folds(value)))) == Ones(value, 32)
  {
    hide *;
    ByteCounts(value);
    SpreadSum(Folds(value));
  }

  /** Each byte of the folded word counts the one bits of that byte of the value. */
  lemma ByteCounts(v: bv32)
    ensures Val(Low08(Folds(v))) == Ones(v, 8) <= 8
    ensures Val(Low16(Folds(v))) == Ones(v, 16) - Ones(v, 8) <= 8
    ensures Val(Low24(Folds(v))) == Ones(v, 24) - Ones(v, 16) <= 8
    ensures Val(All32(Folds(v))) == Ones(v, 32) - Ones(v, 24) <= 8
  {
    hide *;
    var w := Shr8(v);
    var x := Shr8(w);
    FoldsShift(v);
    FoldsShift(w);
    FoldsShift(x);
    BytesShift(Folds(v));
    BytesShift(Folds(w));
    BytesShift(Folds(x));
    LowByteCount(v);
    LowByteCount(w);
    LowByteCount(x);
    LowByteCount(Shr8(x));
    OnesShift8(v, 8);
    OnesShift8(v, 16);
    OnesShift8(v, 24);
    OnesShift8(w, 8);
    OnesShift8(w, 16);
    OnesShift8(x, 8);
  }

  lemma BytesShift(f: bv32)
    ensures Low16(f) == Low08(Shr8(f)) && Low24(f) == Low16(Shr8(f)) && All32(f) == Low24(Shr8(f))
  {
  }

  lemma FoldsShift(v: bv32)
    ensures Shr8(Folds(v)) == Folds(Shr8(v))
  {
    hide Pairs, Nibbles, PerByte, Shr8;
    PairsShift(v);
    NibblesShift(Pairs(v));
    PerByteShift(Nibbles(Pairs(v)));
  }

  function NibbleBits(v: bv32): bv32 { v & 0x7777_7777 }

  lemma PairsShift(v: bv32)
    ensures Shr8(Pairs(v)) == Pairs(Shr8(v))
  {
  }

  lemma NibblesShift(v: bv32)
    ensures Shr8(Nibbles(v)) == Nibbles(Shr8(v))
    ensures NibbleBits(Nibbles(v)) == Nibbles(v)
  {
  }

  lemma PerByteShift(v: bv32)
    requires NibbleBits(v) == v
    ensures Shr8(PerByte(v)) == PerByte(Shr8(v))
  {
  }

  /** One more when bit m of v is set. */
  function Tally(a: bv32, v: bv32, m: bv32): bv32 { if BitTest(v, m) then a + 1 else a }

  lemma TallyCounts(a: bv32, v: bv32, k: nat)
    requires k < 32 && Val(a) == Ones(v, k)
    ensures Val(Tally(a, v, OneShl(k))) == Ones(v, k + 1)
  {
    hide OneShl;
    Increment(a);
  }

  lemma Increment(a: bv32)
    requires Val(a) <= 31
    ensures Val(a + 1) == Val(a) + 1
  {
    if a <= 31 {
    } else {
      NotSmall(a);
    }
  }

  lemma NotSmall(a: bv32)
    requires a > 31
    ensures Val(a) > 31
  {
  }

  lemma LowByteCount(v: bv32)
    ensures Val(Low08(Folds(v))) == Ones(v, 8) <= 8
  {
    hide *;
    FoldsLowByte(v);
    LowShifts();
    NoOnes(v);
    var t0: bv32 := 0;
    var t1 := Tally(t0, v, 1);
    var t2 := Tally(t1, v, 2);
    var t3 := Tally(t2, v, 4);
    var t4 := Tally(t3, v, 8);
    var t5 := Tally(t4, v, 16);
    var t6 := Tally(t5, v, 32);
    var t7 := Tally(t6, v, 64);
    TallyCounts(t0, v, 0);
    TallyCounts(t1, v, 1);
    TallyCounts(t2, v, 2);
    TallyCounts(t3, v, 3);
    TallyCounts(t4, v, 4);
    TallyCounts(t5, v, 5);
    TallyCounts(t6, v, 6);
    TallyCounts(t7, v, 7);
    LowTallyIs(t0, v);
    HighTallyIs(t4, v);
  }

  lemma LowTallyIs(a: bv32, v: bv32)
    ensures LowTally(a, v) == Tally(Tally(Tally(Tally(a, v, 1), v, 2), v, 4), v, 8)
  {
  }

  lemma HighTallyIs(a: bv32, v: bv32)
    ensures HighTally(a, v) == Tally(Tally(Tally(Tally(a, v, 16), v, 32), v, 64), v, 128)
  {
  }

  lemma NoOnes(v: bv32)
    ensures Val(0) == Ones(v, 0) == 0
  {
  }

  function Low04(v: bv32): bv32 { v & 0xF }

  function Shr4(v: bv32): bv32 { v >> 4 }

  /** The bits of a nibble added to a, and those of the next nibble. */
  function LowTally(a: bv32, v: bv32): bv32 { Tally(Tally(Tally(Tally(a, v, 1), v, 2), v, 4), v, 8) }

  function HighTally(a: bv32, v: bv32): bv32 { Tally(Tally(Tally(Tally(a, v, 16), v, 32), v, 64), v, 128) }

  lemma FoldsLowByte(v: bv32)
    ensures Low08(Folds(v)) == HighTally(LowTally(0, v), v)
  {
    hide *;
    var n := Nibbles(Pairs(v));
    FoldsAre(v);
    LowNibble(v);
    LowNibble(Shr4(v));
    NextNibble(v);
    PerByteLow(n);
    HighFromLow(LowTally(0, v), v);
    TallyAdds(LowTally(0, v), Shr4(v));
  }

  lemma LowNibble(v: bv32)
    ensures Low04(Nibbles(Pairs(v))) == LowTally(0, v)
  {
  }

  lemma NextNibble(v: bv32)
    ensures Low04(Shr4(Nibbles(Pairs(v)))) == Low04(Nibbles(Pairs(Shr4(v))))
  {
  }

  lemma PerByteLow(n: bv32)
    ensures Low08(PerByte(n)) == Plus(Low04(n), Low04(Shr4(n)))
  {
  }

  lemma HighFromLow(a: bv32, v: bv32)
    ensures HighTally(a, v) == LowTally(a, Shr4(v))
  {
    hide *;
    NibbleTests(v);
    var w := Shr4(v);
    HighTallyIs(a, v);
    LowTallyIs(a, w);
    SameTally(a, v, 16, w, 1);
    SameTally(Tally(a, v, 16), v, 32, w, 2);
    SameTally(Tally(Tally(a, v, 16), v, 32), v, 64, w, 4);
    SameTally(Tally(Tally(Tally(a, v, 16), v, 32), v, 64), v, 128, w, 8);
  }

  lemma SameTally(a: bv32, v: bv32, m: bv32, w: bv32, n: bv32)
    requires BitTest(v, m) == BitTest(w, n)
    ensures Tally(a, v, m) == Tally(a, w, n)
  {
    hide BitTest;
  }

  lemma NibbleTests(v: bv32)
    ensures BitTest(v, 16) == BitTest(Shr4(v), 1) && BitTest(v, 32) == BitTest(Shr4(v), 2)
    ensures BitTest(v, 64) == BitTest(Shr4(v), 4) && BitTest(v, 128) == BitTest(Shr4(v), 8)
  {
  }

  lemma TallyAdds(a: bv32, v: bv32)
    ensures LowTally(a, v) == Plus(a, LowTally(0, v))
  {
    hide *;
    LowTallyIs(a, v);
    LowTallyIs(0, v);
    PlusZero(a);
    var t0: bv32 := 0;
    TallyPlus(a, t0, v, 1);
    TallyPlus(a, Tally(t0, v, 1), v, 2);
    TallyPlus(a, Tally(Tally(t0, v, 1), v, 2), v, 4);
    TallyPlus(a, Tally(Tally(Tally(t0, v, 1), v, 2), v, 4), v, 8);
  }

  lemma PlusZero(a: bv32)
    ensures Plus(a, 0) == a
  {
  }

  lemma TallyPlus(a: bv32, b: bv32, v: bv32, m: bv32)
    ensures Tally(Plus(a, b), v, m) == Plus(a, Tally(b, v, m))
  {
    hide BitTest, Plus;
    PlusOne(a, b);
  }

  lemma PlusOne(a: bv32, b: bv32)
    ensures Plus(a, b) + 1 == Plus(a, b + 1)
  {
  }

  lemma LowShifts()
    ensures OneShl(0) == 1 && OneShl(1) == 2 && OneShl(2) == 4 && OneShl(3) == 8
    ensures OneShl(4) == 16 && OneShl(5) == 32 && OneShl(6) == 64 && OneShl(7) == 128
  {
  }

  /** Multiplying by 0x01010101 turns byte counts into running sums, without a carry between bytes. */
  lemma SpreadSum(c: bv32)
    requires Val(Low08(c)) <= 8 && Val(Low16(c)) <= 8 && Val(Low24(c)) <= 8 && Val(All32(c)) <= 8
    ensures Val(Low08(Spread(c))) == Val(Low08(c))
    ensures Val(Low16(Spread(c))) == Val(Low08(c)) + Val(Low16(c))
    ensures Val(Low24(Spread(c))) == Val(Low08(c)) + Val(Low16(c)) + Val(Low24(c))
    ensures Val(All32(Spread(c))) == Val(Low08(c)) + Val(Low16(c)) + Val(Low24(c)) + Val(All32(c))
  {
    hide *;
    var a, b, d, e := Low08(c), Low16(c), Low24(c), All32(c);
    AtMostEight(a);
    AtMostEight(b);
    AtMostEight(d);
    AtMostEight(e);
    SpreadBytes(c);
    AddSmall(a, b);
    AddSmall(Plus(a, b), d);
    AddSmall(Plus(Plus(a, b), d), e);
  }

  function Plus(a: bv32, b: bv32): bv32 { a + b }

  lemma AtMostEight(a: bv32)
    requires Val(a) <= 8
    ensures a <= 8
  {
  }

  lemma AddSmall(a: bv32, b: bv32)
    requires Val(a) <= 24 && Val(b) <= 8
    ensures Val(Plus(a, b)) == Val(a) + Val(b)
  {
    SmallWord(a);
    AtMostEight(b);
  }

  lemma SmallWord(a: bv32)
    requires Val(a) <= 24
    ensures a <= 24
  {
  }

  lemma SpreadBytes(c: bv32)
    requires Low08(c) <= 8 && Low16(c) <= 8 && Low24(c) <= 8 && All32(c) <= 8
    ensures Low08(Spread(c)) == Low08(c)
    ensures Low16(Spread(c)) == Plus(Low08(c), Low16(c))
    ensures Low24(Spread(c)) == Plus(Plus(Low08(c), Low16(c)), Low24(c))
    ensures All32(Spread(c)) == Plus(Plus(Plus(Low08(c), Low16(c)), Low24(c)), All32(c))
  {
  }

  lemma {:induction false} OnesShift8(w: bv32, k: nat)
    requires k <= 24
    ensures Ones(Shr8(w), k) == Ones(w, k + 8) - Ones(w, 8)
  {
    hide Bit, Shr8;
    if k > 0 {
      OnesShift8(w, k - 1);
      BitShift8(w, k - 1);
    }
  }

  lemma BitShift8(w: bv32, k: nat)
    requires k < 24
    ensures Bit(Shr8(w), k) == Bit(w, k + 8)
  {
    hide OneShl, BitTest, Shr8, Shl8;
    OneShlBound(k);
    OneShlAdd8(k);
    ShiftedTest(w, OneShl(k));
  }

  lemma ShiftedTest(w: bv32, p: bv32)
    requires p <= 0x80_0000
    ensures BitTest(Shr8(w), p) == BitTest(w, Shl8(p))
  {
  }

  function Shl4(p: bv32): bv32 { p << 4 }

  function Shl2(p: bv32): bv32 { p << 2 }

  function Shl1(p: bv32): bv32 { p << 1 }

  lemma OneShlAdd8(k: nat)
    ensures OneShl(k + 8) == Shl8(OneShl(k))
  {
    hide *;
    OneShlAdd4(k);
    OneShlAdd4(k + 4);
    ShlFours(OneShl(k));
  }

  lemma OneShlAdd4(k: nat)
    ensures OneShl(k + 4) == Shl4(OneShl(k))
  {
    hide *;
    OneShlAdd1(k);
    OneShlAdd1(k + 1);
    OneShlAdd1(k + 2);
    OneShlAdd1(k + 3);
    ShlOnes(OneShl(k));
    ShlOnes(OneShl(k + 2));
    ShlTwos(OneShl(k));
  }

  lemma OneShlAdd1(k: nat)
    ensures OneShl(k + 1) == Shl1(OneShl(k))
  {
  }

  lemma ShlOnes(p: bv32)
    ensures Shl1(Shl1(p)) == Shl2(p)
  {
  }

  lemma ShlTwos(p: bv32)
    ensures Shl2(Shl2(p)) == Shl4(p)
  {
  }

  lemma ShlFours(p: bv32)
    ensures Shl4(Shl4(p)) == Shl8(p)
  {
  }
}
