// sparseArray of internal/root/mndx/trie.go: a bit vector with two-level rank
// counts and select tables. Every method is total: on damaged tables it wraps
// and returns what the source returns, or None where the source would panic on
// an index outside bitPos8Table. The contracts say what comes out when the
// tables are well formed.

module SparseArrays {
  import opened Words
  import opened Wrappers
  import opened Popcount
  import opened BitFacts
  import opened SelectTable
  import opened BitVectors

  datatype BaseCounts = BaseCounts(
    BaseValue200: u32,
    AddValue40: u32, AddValue80: u32, AddValueC0: u32, AddValue100: u32,
    AddValue140: u32, AddValue180: u32, AddValue1C0: u32)
  {
    /** One bits in the first 64 * j positions of the block. */
    function Add(j: nat): u32
      requires j < 8
    {
      if j == 0 then 0
      else if j == 1 then AddValue40
      else if j == 2 then AddValue80
      else if j == 3 then AddValueC0
      else if j == 4 then AddValue100
      else if j == 5 then AddValue140
      else if j == 6 then AddValue180
      else AddValue1C0
    }

    /** The same count for zero bits (b false) or one bits (b true), as GetItem0 and GetItem1 compute it. */
    function Counted(b: bool, j: nat): u32
      requires j < 8
    {
      if b then Add(j) else Wrap(64 * j - Add(j))
    }
  }

  datatype SparseArray = SparseArray(
    ItemBits: Bits,
    BaseVals: seq<BaseCounts>,
    IndexToItem0: seq<u32>,
    IndexToItem1: seq<u32>,
    TotalItemCount: u32,
    ValidItemCount: u32)
  {
    /** Number of 512-bit blocks that have a full BaseVals record. */
    function Blocks(): int { |BaseVals| - 1 }

    function IndexToItem(b: bool): seq<u32> { if b then IndexToItem1 else IndexToItem0 }

    predicate IsEmpty() { TotalItemCount == 0 }

    predicate IsItemPresent(index: nat) { Present(ItemBits, index) }

    ghost predicate BlockCounts(g: nat)
      requires g < |BaseVals|
    {
      forall j :: 1 <= j < 8 ==>
        Rank(ItemBits, true, 512 * g) + BaseVals[g].Add(j) == Rank(ItemBits, true, 512 * g + 64 * j)
    }

    /** Every 512th b-bit is tabulated, and the table goes one entry further. */
    ghost predicate SelectTableOk(b: bool) {
      && (forall k :: 0 <= k < |IndexToItem(b)| ==> IndexToItem(b)[k] <= 512 * Blocks())
      && (forall k :: 0 <= 512 * k < Rank(ItemBits, b, TotalItemCount) ==> SelectEntryOk(b, k))
    }

    ghost predicate SelectEntryOk(b: bool, k: nat) {
      k + 1 < |IndexToItem(b)| && IsSelect(ItemBits, b, 512 * k, IndexToItem(b)[k])
    }

    /** One record per 512-bit block plus a final total, and the select tables with their sentinels. */
    ghost predicate WellFormed() {
      && TotalItemCount <= 32 * |ItemBits|
      && 32 * |ItemBits| < TWO32
      && 0 <= Blocks()
      && TotalItemCount <= 512 * Blocks() < TWO32
      && ValidItemCount == Rank(ItemBits, true, TotalItemCount)
      && (forall g :: 0 <= g < |BaseVals| ==> BaseVals[g].BaseValue200 == Rank(ItemBits, true, 512 * g))
      && (forall g :: 0 <= g < Blocks() ==> BlockCounts(g))
      && SelectTableOk(false)
      && SelectTableOk(true)
    }

    /** Rank: the number of one bits before index. */
    method GetItemValueAt(index: u32) returns (v: u32)
      ensures WellFormed() && index <= 512 * Blocks() ==> v == Rank(ItemBits, true, index)
    {
      hide Bit, OneShl, KeepBelow, Masked, BlockCounts, SelectTableOk, WellFormed, Rank, Ones;
      ghost var inRange := WellFormed() && index <= 512 * Blocks();
      var bvIdx := index / 512;
      if bvIdx >= |BaseVals| {
        OutsideBlocks(index);
        return 0;
      }
      var bv := BaseVals[bvIdx];
      v := Wrap(bv.BaseValue200 + bv.Add((index / 64) % 8));
      if inRange {
        RankAtPart(index);
      }
      var wordIdx := index / 32;
      if wordIdx % 2 != 0 {
        var prevWord := wordIdx - 1;
        if prevWord < |ItemBits| {
          var n := Popcount32(ItemBits[prevWord]);
          v := Wrap(v + n);
        }
      }
      if inRange {
        RankAtWord(index);
      }
      if wordIdx >= |ItemBits| {
        if inRange {
          RankPastEnd(ItemBits, 32 * wordIdx, index);
        }
        return v;
      }
      var n := Popcount32(Masked(ItemBits[wordIdx], index % 32));
      v := Wrap(v + n);
      if inRange {
        MaskOnes(ItemBits[wordIdx], index % 32, 32);
        RankWord(ItemBits, true, wordIdx, index % 32);
        RankSmall(index);
      }
    }

    lemma OutsideBlocks(index: u32)
      ensures WellFormed() && index <= 512 * Blocks() ==> index / 512 < |BaseVals|
    {
    }

    lemma RankSmall(i: nat)
      requires i < TWO32
      ensures Wrap(Rank(ItemBits, true, i)) == Rank(ItemBits, true, i)
    {
    }

    /** The rank at the start of a 64-bit part, read off the block's record. */
    lemma RankAtPart(index: u32)
      requires WellFormed() && index <= 512 * Blocks()
      ensures index / 512 < |BaseVals|
      ensures Rank(ItemBits, true, 64 * (index / 64))
           == Wrap(BaseVals[index / 512].BaseValue200 + BaseVals[index / 512].Add((index / 64) % 8))
    {
      hide Rank, SelectTableOk, BaseCounts.Add;
      var g, j := index / 512, (index / 64) % 8;
      Positions(index);
      if j > 0 {
        assert BlockCounts(g);
      } else {
        NoneBefore(BaseVals[g]);
      }
      RankSmall(64 * (index / 64));
    }

    lemma NoneBefore(bv: BaseCounts)
      ensures bv.Add(0) == 0
    {
    }

    lemma Positions(index: nat)
      ensures 512 * (index / 512) + 64 * ((index / 64) % 8) == 64 * (index / 64)
    {
      var q := index / 64;
      var g, r := q / 8, 64 * (q % 8) + index % 64;
      assert index == 512 * g + r && r < 512;
      assert index / 512 == g;
    }

    /** The rank at the start of a word: an odd word adds the popcount of the even word before it. */
    lemma RankAtWord(index: u32)
      requires WellFormed() && index <= 512 * Blocks()
      ensures var w := index / 32;
              var part := Rank(ItemBits, true, 64 * (index / 64));
              Rank(ItemBits, true, 32 * w)
                == if w % 2 == 0 || w - 1 >= |ItemBits| then part
                   else Wrap(part + Ones(ItemBits[w - 1], 32))
    {
      hide Bit, OneShl, Ones, Rank, WellFormed;
      var w := index / 32;
      WordPair(index);
      if w % 2 == 1 {
        if w - 1 < |ItemBits| {
          RankWord(ItemBits, true, w - 1, 32);
          RankSmall(32 * w);
        } else {
          RankPastEnd(ItemBits, 32 * (w - 1), 32 * w);
        }
      }
    }

    lemma WordPair(index: nat)
      ensures 64 * (index / 64) == 32 * (if index / 32 % 2 == 1 then index / 32 - 1 else index / 32)
    {
    }

    /** The 64-bit part of a block that holds the dist-th b-bit of the block. */
    method ChoosePart(b: bool, bv: BaseCounts, dist: u32) returns (j: nat)
      ensures j < 8
      ensures 0 < j ==> bv.Counted(b, j) <= dist
      ensures j < 7 ==> dist < bv.Counted(b, j + 1)
    {
      hide BaseCounts.Counted;
      if dist < bv.Counted(b, 4) {
        if dist < bv.Counted(b, 2) {
          j := if dist >= bv.Counted(b, 1) then 1 else 0;
        } else {
          j := if dist < bv.Counted(b, 3) then 2 else 3;
        }
      } else {
        if dist < bv.Counted(b, 6) {
          j := if dist < bv.Counted(b, 5) then 4 else 5;
        } else {
          j := if dist < bv.Counted(b, 7) then 6 else 7;
        }
      }
    }

    /** b-bits before block g, as the group searches read it off the records. */
    function BitsBefore(b: bool, g: nat): u32
      requires g < |BaseVals|
    {
      if b then BaseVals[g].BaseValue200 else Wrap(512 * g - BaseVals[g].BaseValue200)
    }

    /** First and one-past-last block that the select table allows for the index-th b-bit. */
    function FirstGroup(b: bool, index: u32): nat
      requires index / 512 < |IndexToItem(b)|
    {
      IndexToItem(b)[index / 512] / 512
    }

    function LastGroup(b: bool, index: u32): nat
      requires index / 512 + 1 < |IndexToItem(b)|
    {
      Wrap(IndexToItem(b)[index / 512 + 1] as int + 0x1FF) / 512
    }

    predicate Tabulated(b: bool, index: u32) {
      index / 512 + 1 < |IndexToItem(b)|
    }

    /** The searched range spans fewer than 10 blocks. */
    predicate Narrow(b: bool, index: u32)
      requires Tabulated(b, index)
    {
      Wrap(LastGroup(b, index) - FirstGroup(b, index)) < 10
    }

    /** The block a wide search for the index-th one bit settles on: one halving step. */
    function HalvedGroup(index: u32): nat
      requires Tabulated(true, index)
    {
      var first, last := FirstGroup(true, index), LastGroup(true, index);
      var mid := (last + first) / 2;
      if first + 1 < last && mid < |BaseVals| && index >= BitsBefore(true, mid) then mid else first
    }

    /** When select is exact, in terms of the tables only. */
    predicate ExactIndex(b: bool, index: u32) {
      || index % 512 == 0
      || (Tabulated(b, index)
          && (|| Narrow(b, index)
              || (var g := if b then HalvedGroup(index) else FirstGroup(b, index);
                  g + 1 < |BaseVals| && index < BitsBefore(b, g + 1))))
    }

    ghost predicate InRange(b: bool, index: u32) {
      WellFormed() && index < Rank(ItemBits, b, TotalItemCount)
    }

    /** What the group searches rely on: the first group is inside the vector and starts no later than the bit. */
    lemma GroupFacts(b: bool, index: u32)
      requires InRange(b, index)
      ensures Tabulated(b, index) && FirstGroup(b, index) < Blocks()
      ensures LastGroup(b, index) < |BaseVals|
      ensures BitsBefore(b, FirstGroup(b, index)) <= index
      ensures index < BitsBefore(b, Blocks())
      ensures forall g :: 0 <= g < |BaseVals| ==> BitsBefore(b, g) == Rank(ItemBits, b, 512 * g)
    {
      hide Present, BlockCounts, Rank, BitsBefore;
      var k := index / 512;
      assert SelectEntryOk(b, k);
      TableBounds(b, k);
      forall g | 0 <= g < |BaseVals|
        ensures BitsBefore(b, g) == Rank(ItemBits, b, 512 * g)
      {
        BeforeIsRank(b, g);
      }
      FirstStarts(b, k);
      RankMono(ItemBits, b, TotalItemCount, 512 * Blocks());
    }

    lemma BeforeIsRank(b: bool, g: nat)
      requires WellFormed() && g < |BaseVals|
      ensures BitsBefore(b, g) == Rank(ItemBits, b, 512 * g)
    {
      hide Present, BlockCounts, Rank, SelectTableOk;
      RankComplement(ItemBits, 512 * g);
    }

    lemma FirstStarts(b: bool, k: nat)
      requires WellFormed() && SelectEntryOk(b, k) && 512 * k < Rank(ItemBits, b, TotalItemCount)
      ensures IndexToItem(b)[k] / 512 < Blocks()
      ensures Rank(ItemBits, b, 512 * (IndexToItem(b)[k] / 512)) <= 512 * k
    {
      hide Present, BlockCounts, Rank, SelectTableOk;
      var p := IndexToItem(b)[k];
      SelectBelow(ItemBits, b, 512 * k, p, TotalItemCount);
      RankMono(ItemBits, b, 512 * (p / 512), p);
    }

    lemma TableBounds(b: bool, k: nat)
      requires WellFormed() && k + 1 < |IndexToItem(b)|
      ensures Wrap(IndexToItem(b)[k + 1] as int + 0x1FF) / 512 <= Blocks()
    {
      hide Present, BlockCounts, Rank, SelectEntryOk;
    }

    /** The names used in the contracts of the group searches, spelled out. */
    lemma GroupNames(b: bool, index: u32)
      ensures Blocks() == |BaseVals| - 1
      ensures Tabulated(b, index) <==> index / 512 + 1 < |IndexToItem(b)|
      ensures IndexToItem(true) == IndexToItem1 && IndexToItem(false) == IndexToItem0
      ensures Tabulated(b, index) ==> FirstGroup(b, index) == IndexToItem(b)[index / 512] / 512
      ensures Tabulated(b, index) ==> LastGroup(b, index) == Wrap(IndexToItem(b)[index / 512 + 1] as int + 0x1FF) / 512
      ensures Tabulated(b, index) ==> (Narrow(b, index) <==> Wrap(LastGroup(b, index) - FirstGroup(b, index)) < 10)
      ensures forall g :: 0 <= g < |BaseVals| ==> BitsBefore(true, g) == BaseVals[g].BaseValue200
      ensures index % 512 == 0 ==> ExactIndex(b, index)
      ensures index % 512 != 0 && Tabulated(b, index) ==>
        (ExactIndex(b, index) <==>
          || Narrow(b, index)
          || (var g := if b then HalvedGroup(index) else FirstGroup(b, index);
              g + 1 < |BaseVals| && index < BitsBefore(b, g + 1)))
      ensures Tabulated(true, index) ==>
        HalvedGroup(index) ==
          var first, last := FirstGroup(true, index), LastGroup(true, index);
          var mid := (last + first) / 2;
          if first + 1 < last && mid < |BaseVals| && index >= BitsBefore(true, mid) then mid else first
    {
      hide Present, Rank, WellFormed;
    }

    lemma BeforeMono(b: bool, index: u32, g: nat, h: nat)
      requires InRange(b, index) && g <= h < |BaseVals|
      ensures BitsBefore(b, g) <= BitsBefore(b, h)
    {
      hide Present, BlockCounts, Rank, WellFormed, BitsBefore;
      GroupFacts(b, index);
      RankMono(ItemBits, b, 512 * g, 512 * h);
    }

    /** findGroupItems0: exact on a narrow range; on a wide one only when the bit is in the first block. */
    method FindGroupItems0(index: u32) returns (minGroup: nat)
      ensures InRange(false, index) ==>
        minGroup < Blocks() && BitsBefore(false, minGroup) <= index
      ensures InRange(false, index) && index % 512 != 0 ==>
        (index < BitsBefore(false, minGroup + 1) <==> ExactIndex(false, index))
    {
      hide *;
      GroupNames(false, index);
      var g := index / 512;
      if InRange(false, index) {
        GroupFacts(false, index);
      }
      if g + 1 >= |IndexToItem0| {
        if g < |IndexToItem0| {
          return IndexToItem0[g] / 512;
        }
        return 0;
      }
      minGroup := IndexToItem0[g] / 512;
      var maxGroup := Wrap(IndexToItem0[g + 1] as int + 0x1FF) / 512;
      if Wrap(maxGroup - minGroup) < 10 {
        while minGroup + 1 < |BaseVals| && index >= BitsBefore(false, minGroup + 1)
          invariant InRange(false, index) ==> minGroup < Blocks() && BitsBefore(false, minGroup) <= index
          decreases |BaseVals| - minGroup
        {
          minGroup := minGroup + 1;
        }
      } else {
        ghost var first := minGroup;
        ghost var wasExact := InRange(false, index) && first + 1 < |BaseVals| && index < BitsBefore(false, first + 1);
        while minGroup + 1 < maxGroup
          invariant InRange(false, index) ==> maxGroup < |BaseVals| && minGroup < Blocks() && first <= minGroup
          invariant InRange(false, index) ==> BitsBefore(false, minGroup) <= index
          invariant InRange(false, index) && minGroup > first ==>
            minGroup < maxGroup && BitsBefore(false, maxGroup) <= index && !wasExact
          invariant InRange(false, index) && minGroup == first && maxGroup <= first + 1 ==>
            maxGroup == first + 1 || maxGroup == LastGroup(false, index)
          decreases maxGroup - minGroup
        {
          var mid := (maxGroup + minGroup) / 2;
          if InRange(false, index) {
            BeforeMono(false, index, mid, maxGroup);
            BeforeMono(false, index, first + 1, maxGroup);
          }
          if maxGroup < |BaseVals| && index < BitsBefore(false, maxGroup) {
            maxGroup := mid;
          } else {
            minGroup := mid;
          }
        }
        if InRange(false, index) {
          assert minGroup > first ==> minGroup + 1 == maxGroup;
        }
      }
    }

    /** findGroupItems1: exact on a narrow range; on a wide one only when one halving step reaches the block. */
    method FindGroupItems1(index: u32) returns (startV: nat)
      ensures InRange(true, index) ==>
        startV < Blocks() && BitsBefore(true, startV) <= index
      ensures InRange(true, index) && index % 512 != 0 ==>
        (index < BitsBefore(true, startV + 1) <==> ExactIndex(true, index))
    {
      hide *;
      GroupNames(true, index);
      var g := index / 512;
      if InRange(true, index) {
        GroupFacts(true, index);
      }
      if g + 1 >= |IndexToItem1| {
        if g < |IndexToItem1| {
          return IndexToItem1[g] / 512;
        }
        return 0;
      }
      startV := IndexToItem1[g] / 512;
      var nextV := Wrap(IndexToItem1[g + 1] as int + 0x1FF) / 512;
      if Wrap(nextV - startV) < 10 {
        while startV + 1 < |BaseVals| && index >= BaseVals[startV + 1].BaseValue200
          invariant InRange(true, index) ==> startV < Blocks() && BitsBefore(true, startV) <= index
          decreases |BaseVals| - startV
        {
          startV := startV + 1;
        }
      } else if startV + 1 < nextV {
        var mid := (nextV + startV) / 2;
        if mid < |BaseVals| && index >= BaseVals[mid].BaseValue200 {
          startV := mid;
        }
      }
    }

    /** Select: the block found decides whether the position found is the right one. */
    lemma BlockDecides(b: bool, index: u32, gi: nat, p: nat, r: Option<u32>)
      requires InRange(b, index) && index % 512 != 0
      requires gi < Blocks() && BitsBefore(b, gi) <= index
      requires p < TotalItemCount && IsSelect(ItemBits, b, index, p)
      requires p / 512 == gi ==> r == Some(p)
      requires r.Some? ==> r.value == 0 || r.value / 512 == gi
      ensures r == Some(p) <==> index < BitsBefore(b, gi + 1)
      ensures r.Some? && IsSelect(ItemBits, b, index, r.value) ==> r == Some(p)
    {
      hide Present, Rank, WellFormed, BitsBefore;
      GroupFacts(b, index);
      SelectBelow(ItemBits, b, index, p, 512 * gi);
      SelectBelow(ItemBits, b, index, p, 512 * (gi + 1));
      AtZero(b);
      if r.Some? && IsSelect(ItemBits, b, index, r.value) {
        SelectUnique(ItemBits, b, index, p, index, r.value);
      }
    }

    lemma AtZero(b: bool)
      ensures Rank(ItemBits, b, 0) == 0
    {
    }

    /** GetItem0: the position of the (index+1)-th zero bit. */
    method GetItem0(index: u32) returns (r: Option<u32>)
      ensures InRange(false, index) ==>
        ((r.Some? && IsSelect(ItemBits, false, index, r.value)) <==> ExactIndex(false, index))
    {
      hide Present, Rank, WellFormed, BitsBefore, IsSelect, ExactIndex;
      ghost var p := 0;
      if InRange(false, index) {
        p := Select(ItemBits, false, index, TotalItemCount);
      }
      if index % 512 == 0 {
        var g := index / 512;
        if InRange(false, index) {
          TableExact(false, index);
        }
        if g >= |IndexToItem0| {
          return Some(0);
        }
        return Some(IndexToItem0[g]);
      }
      var gi := FindGroupItems0(index);
      if gi >= |BaseVals| {
        return Some(0);
      }
      r := SelectInBlock(false, index, gi, p);
      if InRange(false, index) {
        BlockDecides(false, index, gi, p, r);
      }
    }

    /** GetItem1: the position of the (index+1)-th one bit. */
    method GetItem1(index: u32) returns (r: Option<u32>)
      ensures InRange(true, index) ==>
        ((r.Some? && IsSelect(ItemBits, true, index, r.value)) <==> ExactIndex(true, index))
    {
      hide Present, Rank, WellFormed, BitsBefore, IsSelect, ExactIndex;
      ghost var p := 0;
      if InRange(true, index) {
        p := Select(ItemBits, true, index, TotalItemCount);
      }
      if index % 512 == 0 {
        var g := index / 512;
        if InRange(true, index) {
          TableExact(true, index);
        }
        if g >= |IndexToItem1| {
          return Some(0);
        }
        return Some(IndexToItem1[g]);
      }
      var gi := FindGroupItems1(index);
      if gi >= |BaseVals| {
        return Some(0);
      }
      r := SelectInBlock(true, index, gi, p);
      if InRange(true, index) {
        BlockDecides(true, index, gi, p, r);
      }
    }

    lemma TableExact(b: bool, index: u32)
      requires InRange(b, index) && index % 512 == 0
      ensures ExactIndex(b, index)
      ensures index / 512 < |IndexToItem(b)| && IsSelect(ItemBits, b, index, IndexToItem(b)[index / 512])
    {
      hide Present, Rank, BitsBefore, IsSelect, BlockCounts;
      assert SelectEntryOk(b, index / 512);
    }

    /** How many b-bits of block gi come before the one sought. */
    static function Distance(b: bool, index: u32, base: u32, gi: nat): u32 {
      if b then Wrap(index - base) else Wrap(index + base - 512 * gi)
    }

    /** Common tail of GetItem0 and GetItem1: find the index-th b-bit inside block gi. */
    method SelectInBlock(b: bool, index: u32, gi: nat, ghost p: nat) returns (r: Option<u32>)
      requires gi < |BaseVals|
      ensures (WellFormed() && gi < Blocks() && p < TotalItemCount && p / 512 == gi
               && IsSelect(ItemBits, b, index, p)) ==> r == Some(p)
      ensures WellFormed() && gi < Blocks() && r.Some? ==> r.value == 0 || r.value / 512 == gi
    {
      hide Bit, Ones, Rank, Present, IsSelect, Select, WellFormed, InRange, BlockCounts, SelectTableOk, SelectEntryOk,
           BitsBefore, ExactIndex, HalvedGroup, FirstGroup, LastGroup, BaseCounts.Add, BaseCounts.Counted, Distance;
      var bv := BaseVals[gi];
      var dist := Distance(b, index, bv.BaseValue200, gi);
      var dwordIdx := Wrap(16 * gi);
      var j := ChoosePart(b, bv, dist);
      if j > 0 {
        dist := Wrap(dist - bv.Counted(b, j));
        dwordIdx := Wrap(dwordIdx + 2 * j);
      }
      if WellFormed() && gi < Blocks() {
        WordIndexExact(gi, j);
        if p < TotalItemCount && p / 512 == gi && IsSelect(ItemBits, b, index, p) {
          PartOf(b, index, gi, p, j);
        }
      }
      r := SelectInWords(b, dwordIdx, dist, p);
    }

    lemma WordIndexExact(gi: nat, j: nat)
      requires WellFormed() && gi < Blocks() && j < 8
      ensures Wrap(16 * gi) == 16 * gi && Wrap(16 * gi + 2 * j) == 16 * gi + 2 * j
      ensures 32 * |ItemBits| < TWO32
    {
    }

    /** The part chosen by the block's counts is the one that holds position p. */
    lemma PartOf(b: bool, index: u32, gi: nat, p: nat, j: nat)
      requires WellFormed() && gi < Blocks() && j < 8
      requires p < TotalItemCount && p / 512 == gi && IsSelect(ItemBits, b, index, p)
      requires var bv := BaseVals[gi];
               var dist := Distance(b, index, bv.BaseValue200, gi);
               && (0 < j ==> bv.Counted(b, j) <= dist)
               && (j < 7 ==> dist < bv.Counted(b, j + 1))
      ensures p < 32 * |ItemBits|
      ensures 512 * gi + 64 * j <= p < 512 * gi + 64 * j + 64
      ensures var bv := BaseVals[gi];
              var dist := Distance(b, index, bv.BaseValue200, gi);
              index == Rank(ItemBits, b, 512 * gi + 64 * j) + Wrap(dist - bv.Counted(b, j))
              && (j == 0 ==> bv.Counted(b, j) == 0)
    {
      hide Bit, Rank, SelectTableOk, BaseCounts.Counted;
      var bv := BaseVals[gi];
      var s := 512 * gi;
      DistanceIs(b, index, gi, p);
      CountedIs(b, gi, j);
      SelectBelow(ItemBits, b, index, p, s + 64 * j);
      if j < 7 {
        CountedIs(b, gi, j + 1);
        SelectBelow(ItemBits, b, index, p, s + 64 * (j + 1));
      }
    }

    lemma DistanceIs(b: bool, index: u32, gi: nat, p: nat)
      requires WellFormed() && gi < Blocks() && p / 512 == gi && IsSelect(ItemBits, b, index, p)
      ensures var base := BaseVals[gi].BaseValue200;
              Distance(b, index, base, gi) == index - Rank(ItemBits, b, 512 * gi) < 512
    {
      hide Rank, Present, SelectTableOk, BlockCounts;
      var s := 512 * gi;
      RankComplement(ItemBits, s);
      RankMono(ItemBits, b, s, p);
      RankSmall(p);
    }

    lemma CountedIs(b: bool, gi: nat, j: nat)
      requires WellFormed() && gi < Blocks() && j < 8
      ensures BaseVals[gi].Counted(b, j) == Rank(ItemBits, b, 512 * gi + 64 * j) - Rank(ItemBits, b, 512 * gi)
    {
      hide Bit, SelectTableOk, Rank, BaseCounts.Add;
      var s := 512 * gi;
      var e := s + 64 * j;
      assert BlockCounts(gi);
      NoneBefore(BaseVals[gi]);
      RankComplement(ItemBits, s);
      RankComplement(ItemBits, e);
      RankMono(ItemBits, false, s, e);
    }

    /** Position p is the wanted one, and lies in the two words from start on. */
    ghost predicate SoughtHere(b: bool, start: u32, distance: u32, p: nat) {
      && 32 * |ItemBits| < TWO32
      && p < 32 * |ItemBits|
      && 32 * start <= p < 32 * start + 64
      && IsSelect(ItemBits, b, Rank(ItemBits, b, 32 * start) + distance, p)
    }

    /** Look in one word, then in the next. */
    method SelectInWords(b: bool, start: u32, distance: u32, ghost p: nat) returns (r: Option<u32>)
      ensures SoughtHere(b, start, distance, p) ==> r == Some(p)
      ensures 32 * |ItemBits| < TWO32 && r.Some? ==> r.value == 0 || 32 * start <= r.value < 32 * start + 64
    {
      hide Bit, Ones, OneShl, Rank, Wanted, IsSelect, Present, WellFormed, Wrap;
      var dwordIdx, dist := start, distance;
      ghost var sought := SoughtHere(b, start, distance, p);
      if dwordIdx >= |ItemBits| {
        return Some(0);
      }
      if 32 * |ItemBits| < TWO32 {
        WrapFits(dwordIdx + 1);
      }
      var bitGroup := Wanted(b, ItemBits[dwordIdx]);
      var all := Popcount32(bitGroup);
      if sought {
        WordHolds(b, dwordIdx, dist, p);
      }
      if dist >= all {
        dwordIdx := Wrap(dwordIdx + 1);
        if dwordIdx >= |ItemBits| {
          return Some(0);
        }
        bitGroup := Wanted(b, ItemBits[dwordIdx]);
        WrapFits(dist - all);
        dist := Wrap(dist - all);
        if sought {
          WordHolds(b, dwordIdx, dist, p);
        }
      }
      if 32 * |ItemBits| < TWO32 {
        WrapFits(32 * dwordIdx);
      }
      ghost var k := p - 32 * dwordIdx;
      r := SelectInWord(bitGroup, dist, Wrap(32 * dwordIdx), k);
    }

    lemma PresentInWord(w: nat, k: nat)
      requires w < |ItemBits| && k < 32
      ensures Present(ItemBits, 32 * w + k) == Bit(ItemBits[w], k)
    {
      hide Bit;
      assert (32 * w + k) / 32 == w && (32 * w + k) % 32 == k;
    }

    /** Whether position p lies in word w, told by the number of b-bits of that word. */
    lemma WordHolds(b: bool, w: nat, dist: nat, p: nat)
      requires w < |ItemBits| && 32 * w <= p
      requires IsSelect(ItemBits, b, Rank(ItemBits, b, 32 * w) + dist, p)
      ensures var bitGroup := Wanted(b, ItemBits[w]);
              && (dist < Ones(bitGroup, 32) <==> p < 32 * w + 32)
              && (p < 32 * w + 32 ==> Bit(bitGroup, p - 32 * w) && Ones(bitGroup, p - 32 * w) == dist)
              && Rank(ItemBits, b, 32 * (w + 1)) == Rank(ItemBits, b, 32 * w) + Ones(bitGroup, 32)
    {
      hide Bit, Ones, OneShl, Rank, Present, Wanted;
      RankWord(ItemBits, b, w, 32);
      WantedOnes(b, ItemBits[w], 32);
      SelectBelow(ItemBits, b, Rank(ItemBits, b, 32 * w) + dist, p, 32 * w + 32);
      if p < 32 * w + 32 {
        var k := p - 32 * w;
        RankWord(ItemBits, b, w, k);
        WantedOnes(b, ItemBits[w], k);
        PresentInWord(w, k);
      }
    }
  }

  /** The word in which the wanted bits are the one bits: GetItem0 complements. */
  function Wanted(b: bool, w: bv32): bv32 { if b then w else !w }

  lemma WantedOnes(b: bool, w: bv32, k: nat)
    requires k <= 32
    ensures Ones(Wanted(b, w), k) == WordCount(w, b, k)
    ensures k < 32 ==> Bit(Wanted(b, w), k) == (Bit(w, k) == b)
  {
    hide Bit, Ones, OneShl;
    ComplementOnes(w, k);
    if k < 32 {
      ComplementBit(w, k);
    }
  }

  /** The last step of select: the byte, then the table. */
  method SelectInWord(word: bv32, distance: u32, itemIdx: u32, ghost k: int) returns (r: Option<u32>)
    ensures (0 <= k < 32 && itemIdx + 32 <= TWO32 && Bit(word, k) && Ones(word, k) == distance)
      ==> r == Some(itemIdx + k)
    ensures itemIdx + 32 <= TWO32 && r.Some? ==> itemIdx <= r.value < itemIdx + 32
  {
    hide Bit, Ones, OneShl, Val, Low08, Low16, Low24, All32, ByteOf, TableEntry;
    var zb := SetBitsAll(word);
    var low08, low16, low24 := Val(Low08(zb)), Val(Low16(zb)), Val(Low24(zb));
    NoOnes(word);
    var j, dist := 0, distance;
    if dist < low16 {
      if dist >= low08 {
        j, dist := 1, dist - low08;
      }
    } else {
      if dist < low24 {
        j, dist := 2, dist - low16;
      } else {
        j, dist := 3, dist - low24;
      }
    }
    var bitGroup := ByteOf(word, j);
    var at: nat := Wrap(256 * dist) + Val(bitGroup);
    if 0 <= k < 32 && Bit(word, k) && Ones(word, k) == distance {
      ByteHolds(word, j, k);
      TableFinds(word, j, dist, k);
    }
    if at >= 0x800 {
      return None;
    }
    TableBound(at);
    r := Some(Wrap(TableEntry(at) + itemIdx + 8 * j));
  }

  lemma TableBound(at: nat)
    requires at < 0x800
    ensures TableEntry(at) <= 7
  {
  }

  /** The byte chosen by the running counts holds bit k. */
  lemma ByteHolds(word: bv32, j: nat, k: nat)
    requires j < 4 && k < 32 && Bit(word, k)
    requires j > 0 ==> Ones(word, 8 * j) <= Ones(word, k)
    requires j < 3 ==> Ones(word, k) < Ones(word, 8 * j + 8)
    ensures 8 * j <= k < 8 * j + 8
  {
    hide Bit, OneShl;
    if k < 8 * j {
      OnesMono(word, k + 1, 8 * j);
    } else if 8 * j + 8 <= k {
      OnesMono(word, 8 * j + 8, k);
    }
  }

  lemma {:induction false} OnesMono(w: bv32, i: nat, j: nat)
    requires i <= j
    ensures Ones(w, i) <= Ones(w, j) <= Ones(w, i) + (j - i)
    decreases j
  {
    hide Bit;
    if i < j {
      OnesMono(w, i, j - 1);
    }
  }

  lemma ByteDigits(d: nat, v: nat)
    requires v < 256
    ensures (256 * d + v) / 256 == d && (256 * d + v) % 256 == v
  {
  }

  lemma TableFinds(word: bv32, j: nat, dist: nat, k: nat)
    requires j < 4 && 8 * j <= k < 8 * j + 8 && Bit(word, k) && Ones(word, k) == Ones(word, 8 * j) + dist
    ensures 256 * dist + Val(ByteOf(word, j)) < 0x800
    ensures TableEntry(256 * dist + Val(ByteOf(word, j))) == k - 8 * j
  {
    hide Bit, Ones, OneShl, Val, Low08, Low16, Low24, All32, ByteOf, BitPosFrom, TableEntry;
    var byte := ByteOf(word, j);
    ByteOnes(word, j, k - 8 * j);
    ByteOnes(word, j, 8);
    OnesMono(word, 8 * j, k);
    OnesAfter(word, k);
    OnesMono(word, k + 1, 8 * j + 8);
    ByteBound(word, j);
    NoOnes(byte);
    BitPosIsSelect(dist, byte, 0);
    SameOnes(byte, BitPosFrom(dist, byte, 0), k - 8 * j);
    EntryIs(dist, byte);
  }

  lemma EntryIs(dist: nat, byte: bv32)
    requires dist < 8 && Val(byte) < 256
    ensures 256 * dist + Val(byte) < 0x800 && TableEntry(256 * dist + Val(byte)) == BitPosFrom(dist, byte, 0)
  {
    hide BitPosFrom;
    ByteDigits(dist, Val(byte));
  }

  lemma OnesAfter(w: bv32, k: nat)
    requires Bit(w, k)
    ensures Ones(w, k + 1) == Ones(w, k) + 1
  {
    hide Bit;
  }

  lemma ByteBound(w: bv32, j: nat)
    requires j < 4
    ensures Val(ByteOf(w, j)) < 256 && Val(ByteOf(w, j)) as bv32 == ByteOf(w, j)
  {
    hide *;
    BytesFit(w);
    ByteIsOneOf(w, j);
    FitsByte(ByteOf(w, j));
  }

  predicate IsByte(x: bv32) { x <= 0xFF }

  lemma BytesFit(w: bv32)
    ensures IsByte(Low08(w)) && IsByte(Low16(w)) && IsByte(Low24(w)) && IsByte(All32(w))
  {
  }

  lemma ByteIsOneOf(w: bv32, j: nat)
    requires j < 4
    ensures ByteOf(w, j) == Low08(w) || ByteOf(w, j) == Low16(w) || ByteOf(w, j) == Low24(w) || ByteOf(w, j) == All32(w)
  {
    hide Low08, Low16, Low24, All32;
  }

  lemma FitsByte(x: bv32)
    requires IsByte(x)
    ensures Val(x) < 256 && Val(x) as bv32 == x
  {
  }

  lemma {:induction false} SameOnes(w: bv32, i: nat, k: nat)
    requires Bit(w, i) && Bit(w, k) && Ones(w, i) == Ones(w, k)
    ensures i == k
  {
    hide Bit, Ones, OneShl;
    OnesAfter(w, i);
    OnesAfter(w, k);
    if i < k {
      OnesMono(w, i + 1, k);
    } else if k < i {
      OnesMono(w, k + 1, i);
    }
  }
}
