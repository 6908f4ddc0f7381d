// bitEntryArray of internal/root/mndx/trie.go: integers of BitsPerEntry bits
// packed into 32-bit words, straddling word boundaries.

module BitEntries {
  import opened Words
  import opened BitVectors

  // Shifts by a variable amount, one place at a time; 32 places or more clear the word.
  function Shr(w: bv32, s: nat): bv32 { if s == 0 then w else Shr(w, s - 1) >> 1 }

  function Shl(w: bv32, s: nat): bv32 { if s == 0 then w else Shl(w, s - 1) << 1 }

  function Joined(v: bv32, m: bv32): bv32 { v | m }

  function Masked(v: bv32, m: bv32): bv32 { v & m }

  /** The number whose binary digits are the k lowest bits of w. */
  function WordValue(w: bv32, k: nat): (n: nat)
    requires k <= 32
    ensures n < PowerOf2(k)
  {
    if k == 0 then 0 else WordValue(w, k - 1) + if Bit(w, k - 1) then PowerOf2(k - 1) else 0
  }

  function PowerOf2(k: nat): (n: nat)
    ensures n > 0
  {
    if k == 0 then 1 else 2 * PowerOf2(k - 1)
  }

  /** A word as a Go uint32 value. */
  function Number(w: bv32): u32 {
    PowerOf32();
    WordValue(w, 32)
  }

  lemma PowerOf32()
    ensures PowerOf2(32) == TWO32
  {
    assert PowerOf2(8) == 0x100;
    assert PowerOf2(16) == 0x1_0000;
    assert PowerOf2(24) == 0x100_0000;
    assert PowerOf2(32) == 0x1_0000_0000;
  }

  /** The number whose binary digits are the bits start, start + 1, ... of the packed words. */
  ghost function SliceValue(items: Bits, start: nat, k: nat): nat {
    if k == 0 then 0
    else SliceValue(items, start, k - 1) + if Present(items, start + k - 1) then PowerOf2(k - 1) else 0
  }

  datatype BitEntryArray = BitEntryArray(Items: Bits, BitsPerEntry: u32, EntryBitMask: bv32, TotalEntries: u32) {

    /** The mask keeps exactly one entry. */
    predicate WellFormed() {
      BitsPerEntry <= 32 && forall j :: 0 <= j < 32 ==> (Bit(EntryBitMask, j) <==> j < BitsPerEntry)
    }

    method Get(idx: u32) returns (r: u32)
      ensures WellFormed() && idx * BitsPerEntry < TWO32 ==>
        r == SliceValue(Items, idx * BitsPerEntry, BitsPerEntry)
    {
      hide Bit, Present, Shr, Shl, Joined, Masked, SliceValue, Number, WellFormed;
      if BitsPerEntry == 0 || |Items| == 0 {
        NothingStored(idx);
        return 0;
      }
      var at := ProductWrap(idx, BitsPerEntry);
      var wordIdx := at / 32;
      var startBit := at % 32;
      var endBit := startBit + BitsPerEntry;
      var v: bv32 := 0;
      if endBit > 32 {
        if wordIdx + 1 >= |Items| {
          if wordIdx < |Items| {
            v := Shr(Items[wordIdx], startBit);
          }
        } else {
          v := Joined(Shl(Items[wordIdx + 1], 32 - startBit), Shr(Items[wordIdx], startBit));
        }
      } else {
        if wordIdx >= |Items| {
          NothingThere(idx);
          return 0;
        }
        v := Shr(Items[wordIdx], startBit);
      }
      if WellFormed() && idx * BitsPerEntry < TWO32 {
        FetchedBits(at, v);
      }
      r := Number(Masked(v, EntryBitMask));
    }

    lemma NothingStored(idx: u32)
      requires BitsPerEntry == 0 || |Items| == 0
      ensures SliceValue(Items, idx * BitsPerEntry, BitsPerEntry) == 0
    {
      hide Bit;
      if BitsPerEntry > 0 {
        EmptySlice(Items, idx * BitsPerEntry, BitsPerEntry);
      }
    }

    lemma NothingThere(idx: u32)
      requires ProductWrap(idx, BitsPerEntry) / 32 >= |Items|
      ensures idx * BitsPerEntry < TWO32 ==> SliceValue(Items, idx * BitsPerEntry, BitsPerEntry) == 0
    {
      hide Bit;
      if idx * BitsPerEntry < TWO32 {
        EmptySlice(Items, idx * BitsPerEntry, BitsPerEntry);
      }
    }

    /** What Get fetched before masking has the wanted bits in its low places. */
    lemma FetchedBits(at: nat, v: bv32)
      requires WellFormed() && 0 < BitsPerEntry
      requires var w, s := at / 32, at % 32;
               v == if s + BitsPerEntry > 32
                    then if w + 1 >= |Items| then if w < |Items| then Shr(Items[w], s) else 0
                         else Joined(Shl(Items[w + 1], 32 - s), Shr(Items[w], s))
                    else if w < |Items| then Shr(Items[w], s) else 0
      ensures Number(Masked(v, EntryBitMask)) == SliceValue(Items, at, BitsPerEntry)
    {
      hide Bit, Shr, Shl, Joined, Masked, Present;
      var x := Masked(v, EntryBitMask);
      forall j | 0 <= j < BitsPerEntry
        ensures Bit(x, j) == Present(Items, at + j)
      {
        FetchedBit(at, v, j);
        AndBit(v, EntryBitMask, j);
      }
      forall j | BitsPerEntry <= j < 32
        ensures !Bit(x, j)
      {
        AndBit(v, EntryBitMask, j);
      }
      SameDigits(Items, at, x, BitsPerEntry);
      NoMoreDigits(x, BitsPerEntry, 32);
    }

    lemma FetchedBit(at: nat, v: bv32, j: nat)
      requires BitsPerEntry <= 32 && j < BitsPerEntry
      requires var w, s := at / 32, at % 32;
               v == if s + BitsPerEntry > 32
                    then if w + 1 >= |Items| then if w < |Items| then Shr(Items[w], s) else 0
                         else Joined(Shl(Items[w + 1], 32 - s), Shr(Items[w], s))
                    else if w < |Items| then Shr(Items[w], s) else 0
      ensures Bit(v, j) == Present(Items, at + j)
    {
      hide Bit, Shr, Shl, Joined, Present;
      var w, s := at / 32, at % 32;
      ZeroBit(j);
      PresentAt(Items, at + j);
      if w < |Items| {
        ShrBit(Items[w], s, j);
      }
      if s + BitsPerEntry > 32 && w + 1 < |Items| {
        StraddlingBit(Items[w], Items[w + 1], s, j);
      }
      SumDigits(at, j);
    }
  }

  /** A bit of an entry that straddles two words. */
  lemma StraddlingBit(lo: bv32, hi: bv32, s: nat, j: nat)
    requires s < 32 && j < 32
    ensures Bit(Joined(Shl(hi, 32 - s), Shr(lo, s)), j)
         == ((j >= 32 - s && Bit(hi, j - (32 - s))) || (s + j < 32 && Bit(lo, s + j)))
  {
    hide *;
    ShlBit(hi, 32 - s, j);
    ShrBit(lo, s, j);
    OrBit(Shl(hi, 32 - s), Shr(lo, s), j);
  }

  lemma SumDigits(at: nat, j: nat)
    requires j < 32
    ensures (at + j) / 32 == at / 32 + (if at % 32 + j < 32 then 0 else 1)
    ensures (at + j) % 32 == at % 32 + j - (if at % 32 + j < 32 then 0 else 32)
  {
  }

  lemma PresentAt(items: Bits, i: nat)
    ensures Present(items, i) == (i / 32 < |items| && Bit(items[i / 32], i % 32))
  {
    hide Bit;
  }

  /** The product of two counters, as 32-bit multiplication leaves it. */
  function ProductWrap(a: u32, b: u32): u32 { Wrap(a * b) }

  lemma {:induction false} EmptySlice(items: Bits, start: nat, k: nat)
    requires start / 32 >= |items|
    ensures SliceValue(items, start, k) == 0
  {
    hide Bit;
    if k > 0 {
      EmptySlice(items, start, k - 1);
      assert (start + k - 1) / 32 >= |items|;
    }
  }

  lemma {:induction false} SameDigits(items: Bits, start: nat, w: bv32, k: nat)
    requires k <= 32
    requires forall j :: 0 <= j < k ==> Bit(w, j) == Present(items, start + j)
    ensures WordValue(w, k) == SliceValue(items, start, k)
  {
    hide Bit, Present;
    if k > 0 {
      SameDigits(items, start, w, k - 1);
    }
  }

  lemma {:induction false} NoMoreDigits(w: bv32, k: nat, n: nat)
    requires k <= n <= 32
    requires forall j :: k <= j < n ==> !Bit(w, j)
    ensures WordValue(w, n) == WordValue(w, k)
    decreases n
  {
    hide Bit;
    if k < n {
      NoMoreDigits(w, k, n - 1);
    }
  }

  lemma ZeroBit(j: nat)
    ensures !Bit(0, j)
  {
    hide OneShl;
  }

  lemma AndBit(v: bv32, m: bv32, j: nat)
    requires j < 32
    ensures Bit(Masked(v, m), j) == (Bit(v, j) && Bit(m, j))
  {
    hide OneShl, SingleBit, BitTest, Masked;
    OneShlSingle(j);
    AndTest(v, m, OneShl(j));
  }

  lemma AndTest(v: bv32, m: bv32, p: bv32)
    requires SingleBit(p)
    ensures BitTest(Masked(v, m), p) == (BitTest(v, p) && BitTest(m, p))
  {
    if BitTest(v, p) && BitTest(m, p) {
      WholeBit(v, p);
      WholeBit(m, p);
      BothWhole(v, m, p);
    } else {
      EitherNone(v, m, p);
    }
  }

  lemma WholeBit(v: bv32, p: bv32)
    requires SingleBit(p) && BitTest(v, p)
    ensures v & p == p
  {
  }

  lemma BothWhole(v: bv32, m: bv32, p: bv32)
    requires v & p == p && m & p == p && p != 0
    ensures BitTest(Masked(v, m), p)
  {
  }

  lemma EitherNone(v: bv32, m: bv32, p: bv32)
    requires v & p == 0 || m & p == 0
    ensures !BitTest(Masked(v, m), p)
  {
  }

  lemma OrBit(v: bv32, m: bv32, j: nat)
    requires j < 32
    ensures Bit(Joined(v, m), j) == (Bit(v, j) || Bit(m, j))
  {
    hide OneShl, BitTest, SingleBit, Joined;
    OneShlSingle(j);
    if Bit(v, j) || Bit(m, j) {
      OrKeeps(v, m, OneShl(j));
    } else {
      OrAdds(v, m, OneShl(j));
    }
  }

  lemma OrKeeps(v: bv32, m: bv32, p: bv32)
    requires SingleBit(p) && (BitTest(v, p) || BitTest(m, p))
    ensures BitTest(Joined(v, m), p)
  {
    if Joined(v, m) & p == 0 {
      OrNone(v, m, p);
    }
  }

  lemma OrNone(v: bv32, m: bv32, p: bv32)
    requires Joined(v, m) & p == 0
    ensures v & p == 0 && m & p == 0
  {
  }

  lemma OrAdds(v: bv32, m: bv32, p: bv32)
    requires !BitTest(v, p) && !BitTest(m, p)
    ensures !BitTest(Joined(v, m), p)
  {
  }

  lemma {:induction false} ShrBit(w: bv32, s: nat, j: nat)
    requires j < 32
    ensures Bit(Shr(w, s), j) == (s + j < 32 && Bit(w, s + j))
  {
    hide Bit, OneShl;
    if s > 0 {
      var x := Shr(w, s - 1);
      ShrOne(x, j);
      if j < 31 {
        ShrBit(w, s - 1, j + 1);
      }
    }
  }

  lemma ShrOne(x: bv32, j: nat)
    requires j < 32
    ensures Bit(x >> 1, j) == (j < 31 && Bit(x, j + 1))
  {
    hide OneShl, BitTest;
    NextShl(j);
    if j < 31 {
      OneShlBound(j);
      ShrTest(x, OneShl(j), OneShl(j + 1));
    } else {
      TopShl();
      TopTest(x);
    }
  }

  lemma NextShl(j: nat)
    ensures OneShl(j + 1) == OneShl(j) << 1
  {
  }

  lemma TopShl()
    ensures OneShl(31) == 0x8000_0000
  {
    OneShlBoundTop();
  }

  lemma OneShlBoundTop()
    ensures OneShl(31) == 0x8000_0000
  {
    assert OneShl(8) == 0x100;
    assert OneShl(16) == 0x1_0000;
    assert OneShl(24) == 0x100_0000;
  }

  lemma ShrTest(x: bv32, p: bv32, q: bv32)
    requires p <= 0x4000_0000 && q == p << 1
    ensures BitTest(x >> 1, p) == BitTest(x, q)
  {
  }

  lemma TopTest(x: bv32)
    ensures !BitTest(x >> 1, 0x8000_0000)
  {
  }

  lemma {:induction false} ShlBit(w: bv32, s: nat, j: nat)
    requires j < 32
    ensures Bit(Shl(w, s), j) == (j >= s && Bit(w, j - s))
  {
    hide Bit, OneShl;
    if s > 0 {
      ShlOne(Shl(w, s - 1), j);
      if j > 0 {
        ShlBit(w, s - 1, j - 1);
      }
    }
  }

  lemma ShlOne(x: bv32, j: nat)
    requires j < 32
    ensures Bit(x << 1, j) == (j > 0 && Bit(x, j - 1))
  {
    hide OneShl, BitTest;
    if j > 0 {
      NextShl(j - 1);
      OneShlBound(j - 1);
      ShlTest(x, OneShl(j - 1), OneShl(j));
    } else {
      FirstShl();
      BottomTest(x);
    }
  }

  lemma FirstShl()
    ensures OneShl(0) == 1
  {
  }

  lemma ShlTest(x: bv32, p: bv32, q: bv32)
    requires p <= 0x4000_0000 && q == p << 1
    ensures BitTest(x << 1, q) == BitTest(x, p)
  {
  }

  lemma BottomTest(x: bv32)
    ensures !BitTest(x << 1, 1)
  {
  }
}
