// Every bit sequence has well-formed tables, and the wide group searches miss
// bits on some of them.

module SparseArrayBuild {
  import opened Words
  import opened BitVectors
  import opened SparseArrays
  import BitFacts

  ghost function RankDiff(bits: Bits, g: nat, j: nat): u32
    requires j < 8
  {
    RankMono(bits, true, 512 * g, 512 * g + 64 * j);
    Rank(bits, true, 512 * g + 64 * j) - Rank(bits, true, 512 * g)
  }

  ghost function BuildCounts(bits: Bits, g: nat): (bc: BaseCounts)
    requires 512 * g < TWO32
  {
    BaseCounts(Rank(bits, true, 512 * g), RankDiff(bits, g, 1), RankDiff(bits, g, 2), RankDiff(bits, g, 3),
               RankDiff(bits, g, 4), RankDiff(bits, g, 5), RankDiff(bits, g, 6), RankDiff(bits, g, 7))
  }

  function BlocksFor(bits: Bits): nat { (32 * |bits| + 511) / 512 }

  ghost function BuildSelect(bits: Bits, total: nat, b: bool): seq<u32>
    requires total <= 32 * |bits| < TWO32 - 512
  {
    var n := Rank(bits, b, total);
    seq((n + 511) / 512 + 1, k requires 0 <= k =>
      if 512 * k < n then Select(bits, b, 512 * k, total) else 512 * BlocksFor(bits))
  }

  ghost function Build(bits: Bits, total: nat): SparseArray
    requires total <= 32 * |bits| < TWO32 - 512
  {
    SparseArray(
      bits,
      seq(BlocksFor(bits) + 1, g requires 0 <= g <= BlocksFor(bits) => BuildCounts(bits, g)),
      BuildSelect(bits, total, false),
      BuildSelect(bits, total, true),
      total,
      Rank(bits, true, total))
  }

  /** The format can hold every bit sequence: its tables exist and are well formed. */
  lemma BuildWellFormed(bits: Bits, total: nat)
    requires total <= 32 * |bits| < TWO32 - 512
    ensures Build(bits, total).WellFormed()
    ensures Build(bits, total).ItemBits == bits && Build(bits, total).TotalItemCount == total
  {
    hide Present, Rank;
    var a := Build(bits, total);
    forall g | 0 <= g < a.Blocks()
      ensures a.BlockCounts(g)
    {
      CountsOk(bits, total, g);
    }
    SelectOk(bits, total, false);
    SelectOk(bits, total, true);
  }

  lemma CountsOk(bits: Bits, total: nat, g: nat)
    requires total <= 32 * |bits| < TWO32 - 512 && g < BlocksFor(bits)
    ensures Build(bits, total).BlockCounts(g)
  {
    hide Present, Rank, BuildSelect;
  }

  lemma SelectOk(bits: Bits, total: nat, b: bool)
    requires total <= 32 * |bits| < TWO32 - 512
    ensures Build(bits, total).SelectTableOk(b)
  {
    hide Present, Rank, BuildCounts;
    var a := Build(bits, total);
    var n := Rank(bits, b, total);
    assert a.IndexToItem(b) == BuildSelect(bits, total, b);
    forall k | 0 <= 512 * k < n
      ensures a.SelectEntryOk(b, k)
    {
      assert k < (n + 511) / 512;
    }
  }

  /** 176 words whose only b-bits stand at 0 and at 1536. */
  function TwoBits(b: bool): (r: Bits)
    ensures |r| == 176
  {
    seq(176, i => if i == 0 || i == 48 then (if b then 1 else !1) else (if b then 0 else !0))
  }

  lemma WordsOfTwoBits(b: bool, i: nat)
    requires i < 176
    ensures WordCount(TwoBits(b)[i], b, 32) == if i == 0 || i == 48 then 1 else 0
  {
    assert Ones(1, 32) == 1 && Ones(0, 32) == 0 && Ones(!1, 32) == 31 && Ones(!0, 32) == 32 by {
      OnesOfConstants(32);
    }
  }

  lemma {:induction false} OnesOfConstants(k: nat)
    requires k <= 32
    ensures Ones(0, k) == 0 && Ones(!0, k) == k
    ensures Ones(1, k) == if k == 0 then 0 else 1
    ensures Ones(!1, k) == if k == 0 then 0 else k - 1
  {
    hide OneShl;
    if k > 0 {
      OnesOfConstants(k - 1);
      ConstantBits(k - 1);
    }
  }

  lemma ConstantBits(k: nat)
    requires k < 32
    ensures !Bit(0, k) && Bit(!0, k)
    ensures Bit(1, k) <==> k == 0
    ensures Bit(!1, k) <==> k != 0
  {
    hide OneShl;
    OneShlSingle(k);
    assert OneShl(0) == 1 by { FirstShl(); }
    if k > 0 {
      BitFacts.OneShlGrows(0, k);
    }
    TestConstants(OneShl(k));
  }

  lemma FirstShl()
    ensures OneShl(0) == 1
  {
  }

  lemma TestConstants(p: bv32)
    requires SingleBit(p)
    ensures !BitTest(0, p) && BitTest(!0, p)
    ensures p == 1 ==> BitTest(1, p) && !BitTest(!1, p)
    ensures 1 < p ==> !BitTest(1, p) && BitTest(!1, p)
  {
  }

  lemma {:induction false} RankOfTwoBits(b: bool, w: nat)
    requires w <= 176
    ensures Rank(TwoBits(b), b, 32 * w) == if w == 0 then 0 else if w <= 48 then 1 else 2
  {
    hide Present;
    if w > 0 {
      RankOfTwoBits(b, w - 1);
      WordsOfTwoBits(b, w - 1);
      RankWord(TwoBits(b), b, w - 1, 32);
    }
  }

  /** On a well-formed vector a wide search can miss the block, so select is not exact for it. */
  lemma WideSelectFails(b: bool)
    ensures var a := Build(TwoBits(b), 5632);
            a.InRange(b, 1) && !a.ExactIndex(b, 1)
  {
    hide Build, TwoBits, SparseArray.InRange, SparseArray.ExactIndex, SparseArray.BitsBefore;
    TwoBitsTables(b);
    TablesMiss(Build(TwoBits(b), 5632), b);
  }

  lemma TablesMiss(a: SparseArray, b: bool)
    requires a.InRange(b, 1) && |a.BaseVals| == 12
    requires |a.IndexToItem(b)| == 2 && a.IndexToItem(b)[0] < 512 && a.IndexToItem(b)[1] == 5632
    requires a.BitsBefore(b, 1) == 1 && a.BitsBefore(b, 5) == 2
    ensures !a.ExactIndex(b, 1)
  {
    hide *;
    a.GroupNames(b, 1);
    a.GroupFacts(b, 1);
    WrapSmall();
    assert a.LastGroup(b, 1) == 11 && a.FirstGroup(b, 1) == 0;
    assert !a.Narrow(b, 1);
  }

  lemma WrapSmall()
    ensures Wrap(11) == 11 && Wrap(6143) == 6143
  {
  }

  lemma TwoBitsTables(b: bool)
    ensures var a := Build(TwoBits(b), 5632);
            && a.InRange(b, 1)
            && |a.BaseVals| == 12
            && |a.IndexToItem(b)| == 2 && a.IndexToItem(b)[0] < 512 && a.IndexToItem(b)[1] == 5632
            && a.BitsBefore(b, 1) == 1 && a.BitsBefore(b, 5) == 2
  {
    hide Present, Rank, BuildCounts, TwoBits;
    var bits := TwoBits(b);
    var a := Build(bits, 5632);
    BuildWellFormed(bits, 5632);
    RankOfTwoBits(b, 176);
    RankOfTwoBits(b, 80);
    RankOfTwoBits(b, 16);
    assert |a.IndexToItem(b)| == 2;
    var p := a.IndexToItem(b)[0];
    assert p == Select(bits, b, 0, 5632);
    SelectBelow(bits, b, 0, p, 512);
    RankComplement(bits, 512);
    RankComplement(bits, 2560);
  }
}
