// pathFragmentTable.comparePathFragment of internal/root/mndx/trie.go: one
// fragment against the rest of a search mask, for both forms of the table.

module FragmentTexts {
  import opened Words
  import opened BitVectors
  import opened SparseArrays
  import opened FileNames
  import opened Restoring

  /** What is compared: the fragment's text, where a zero byte at its very start does not end it. */
  function Compared(p: PathFragmentTable, off: nat): seq<byte> {
    if off < |p.PathFragments| && p.PathMarks.IsEmpty() then [p.PathFragments[off]] + FragmentText(p, off + 1)
    else FragmentText(p, off)
  }

  /** The text has its end mark: a zero byte behind it, or a mark on its last byte. */
  predicate Ended(p: PathFragmentTable, off: nat) {
    var n := |Compared(p, off)|;
    n > 0 && if p.PathMarks.IsEmpty() then off + n < |p.PathFragments| else p.PathMarks.IsItemPresent(off + n - 1)
  }

  /** With marks, the offset into the table is tested against the length of the mask behind every byte but the last. */
  predicate InReach(p: PathFragmentTable, off: nat, maskLength: nat) {
    p.PathMarks.IsEmpty() || |Compared(p, off)| <= 1 || off + |Compared(p, off)| <= maskLength
  }

  /** The mask, from position k on, begins with the fragment, and the code gets to see that. */
  predicate Agrees(p: PathFragmentTable, off: nat, mask: seq<byte>, k: nat) {
    Ended(p, off) && k <= |mask| && Compared(p, off) <= mask[k..] && InReach(p, off, |mask|)
  }

  /** The bytes from start to off agree with the mask; the rest of the text begins at off. */
  ghost predicate Halfway(p: PathFragmentTable, start: nat, off: nat, mask: seq<byte>, k: nat) {
    && start <= off
    && k + (off - start) <= |mask|
    && (off > start ==> off <= |p.PathFragments| && p.PathFragments[start] == mask[k])
    && |Compared(p, start)| >= off - start
    && Compared(p, start)[off - start..] == Compared(p, off)
    && Compared(p, start)[..off - start] == mask[k..k + (off - start)]
  }

  lemma ComparedHead(p: PathFragmentTable, off: nat)
    requires off < |p.PathFragments|
    ensures |Compared(p, off)| > 0 && Compared(p, off)[0] == p.PathFragments[off]
    ensures p.PathMarks.IsEmpty() ==>
              Compared(p, off)[1..] == if off + 1 < |p.PathFragments| && p.PathFragments[off + 1] != 0 then Compared(p, off + 1) else []
    ensures !p.PathMarks.IsEmpty() ==>
              Compared(p, off)[1..] == if p.PathMarks.IsItemPresent(off) then [] else Compared(p, off + 1)
  {
    hide Present;
  }

  /** One more byte agrees and the text goes on. */
  lemma Further(p: PathFragmentTable, start: nat, off: nat, mask: seq<byte>, k: nat)
    requires Halfway(p, start, off, mask, k) && off < |p.PathFragments| && k + (off - start) < |mask|
    requires p.PathFragments[off] == mask[k + (off - start)]
    requires Compared(p, off)[1..] == Compared(p, off + 1)
    ensures Halfway(p, start, off + 1, mask, k)
  {
    hide Compared;
    ComparedHead(p, off);
    var t, i := Compared(p, start), off - start;
    assert t[i..][0] == t[i] && t[i..][1..] == t[i + 1..];
    assert t[..i + 1] == t[..i] + [t[i]];
    assert mask[k..k + i + 1] == mask[k..k + i] + [mask[k + i]];
  }

  /** One more byte agrees and the text is over. */
  lemma Over(p: PathFragmentTable, start: nat, off: nat, mask: seq<byte>, k: nat)
    requires Halfway(p, start, off, mask, k) && off < |p.PathFragments| && k + (off - start) < |mask|
    requires p.PathFragments[off] == mask[k + (off - start)]
    requires |Compared(p, off)| == 1
    ensures Compared(p, start) <= mask[k..] && |Compared(p, start)| == off - start + 1
    ensures Stopped(p, start, mask, k, k + (off - start) + 1)
  {
    hide Compared;
    ComparedHead(p, off);
    var t, i := Compared(p, start), off - start;
    assert t[i..][0] == t[i];
    assert t == t[..i] + [t[i]];
    assert mask[k..][..i + 1] == mask[k..k + i] + [mask[k + i]];
  }

  /** The text goes on and the mask does not, or with another byte. */
  lemma Apart(p: PathFragmentTable, start: nat, off: nat, mask: seq<byte>, k: nat)
    requires Halfway(p, start, off, mask, k) && off < |p.PathFragments|
    requires k + (off - start) == |mask| || p.PathFragments[off] != mask[k + (off - start)]
    ensures !(Compared(p, start) <= mask[k..])
  {
    hide Compared;
    ComparedHead(p, off);
    var t, i := Compared(p, start), off - start;
    assert t[i..][0] == t[i];
    if k + i < |mask| {
      assert mask[k..][i] == mask[k + i];
    }
  }

  /** Behind the end of the table, or with nothing left to compare, the end mark is missing. */
  lemma NoEnd(p: PathFragmentTable, start: nat, off: nat, mask: seq<byte>, k: nat)
    requires Halfway(p, start, off, mask, k) && Compared(p, off) == []
    requires !p.PathMarks.IsEmpty() && off > start ==> !p.PathMarks.IsItemPresent(off - 1)
    requires p.PathMarks.IsEmpty() ==> off >= |p.PathFragments|
    ensures !Ended(p, start)
  {
    hide Compared, Present;
    assert |Compared(p, start)| == off - start;
  }

  /** comparePathFragment, for any table and offset. */
  method CompareText(p: PathFragmentTable, sr: MndxSearch, start: u32) returns (r: bool)
    requires sr.PathLength <= |sr.searchMask|
    modifies sr`PathLength
    ensures r <==> Agrees(p, start, sr.searchMask, old(sr.PathLength))
    ensures r ==> sr.PathLength == old(sr.PathLength) + |Compared(p, start)|
    ensures !r ==> Stopped(p, start, sr.searchMask, old(sr.PathLength), sr.PathLength)
  {
    hide Compared, Present, Ended, Stopped, SparseArray.IsItemPresent;
    if p.PathMarks.IsEmpty() {
      r := CompareUnmarked(p, sr, start);
    } else {
      r := CompareMarked(p, sr, start);
    }
  }

  /** After a failure the position moved only if the first byte agreed. */
  predicate Stopped(p: PathFragmentTable, start: nat, mask: seq<byte>, k: nat, k': nat) {
    k <= k' <= |mask| && (k < k' ==> start < |p.PathFragments| && mask[k] == p.PathFragments[start])
  }

  lemma StoppedHalfway(p: PathFragmentTable, start: nat, off: nat, mask: seq<byte>, k: nat)
    requires Halfway(p, start, off, mask, k)
    ensures Stopped(p, start, mask, k, k + (off - start))
  {
    hide Compared;
  }

  lemma Started(p: PathFragmentTable, start: nat, mask: seq<byte>, k: nat)
    requires k <= |mask|
    ensures Halfway(p, start, start, mask, k)
  {
    hide Compared;
  }

  /** The loop over text that ends at a zero byte. */
  method CompareUnmarked(p: PathFragmentTable, sr: MndxSearch, start: u32) returns (r: bool)
    requires p.PathMarks.IsEmpty() && sr.PathLength <= |sr.searchMask|
    modifies sr`PathLength
    ensures r <==> Agrees(p, start, sr.searchMask, old(sr.PathLength))
    ensures r ==> sr.PathLength == old(sr.PathLength) + |Compared(p, start)|
    ensures !r ==> Stopped(p, start, sr.searchMask, old(sr.PathLength), sr.PathLength)
  {
    hide Compared, Present, Halfway, Stopped;
    ghost var mask, k := sr.searchMask, sr.PathLength;
    var off: nat := start;
    Started(p, start, mask, k);
    while off < |p.PathFragments| && sr.PathLength < |sr.searchMask| && p.PathFragments[off] == sr.searchMask[sr.PathLength]
      invariant start <= off && sr.PathLength == k + (off - start) <= |mask|
      invariant off > start ==> off < |p.PathFragments| && sr.PathLength < |mask|
      invariant Halfway(p, start, off, mask, k)
      decreases |p.PathFragments| - off
    {
      ComparedHead(p, off);
      sr.PathLength := sr.PathLength + 1;
      ghost var here := off;
      off := off + 1;
      if off >= |p.PathFragments| {
        Over(p, start, here, mask, k);
        return false;
      }
      if p.PathFragments[off] == 0 {
        Over(p, start, here, mask, k);
        return true;
      }
      Further(p, start, here, mask, k);
      if sr.PathLength >= |sr.searchMask| {
        Apart(p, start, off, mask, k);
        StoppedHalfway(p, start, off, mask, k);
        return false;
      }
    }
    StoppedHalfway(p, start, off, mask, k);
    if off < |p.PathFragments| {
      Apart(p, start, off, mask, k);
    } else {
      NothingThere(p, off);
    }
    return false;
  }

  lemma NothingThere(p: PathFragmentTable, off: nat)
    requires off >= |p.PathFragments|
    ensures Compared(p, off) == []
  {
  }

  /** The loop over text that ends at a marked byte. */
  method CompareMarked(p: PathFragmentTable, sr: MndxSearch, start: u32) returns (r: bool)
    requires !p.PathMarks.IsEmpty() && sr.PathLength <= |sr.searchMask|
    modifies sr`PathLength
    ensures r <==> Agrees(p, start, sr.searchMask, old(sr.PathLength))
    ensures r ==> sr.PathLength == old(sr.PathLength) + |Compared(p, start)|
    ensures !r ==> Stopped(p, start, sr.searchMask, old(sr.PathLength), sr.PathLength)
  {
    hide Compared, Present, Halfway, Stopped;
    ghost var mask, k := sr.searchMask, sr.PathLength;
    var off: nat := start;
    Started(p, start, mask, k);
    while off < |p.PathFragments| && sr.PathLength < |sr.searchMask| && p.PathFragments[off] == sr.searchMask[sr.PathLength]
      invariant start <= off && sr.PathLength == k + (off - start) <= |mask|
      invariant off > start ==> off < |mask| && !p.PathMarks.IsItemPresent(off - 1)
      invariant Halfway(p, start, off, mask, k)
      decreases |p.PathFragments| - off
    {
      ComparedHead(p, off);
      sr.PathLength := sr.PathLength + 1;
      if p.PathMarks.IsItemPresent(off) {
        Over(p, start, off, mask, k);
        return true;
      }
      Further(p, start, off, mask, k);
      off := off + 1;
      if off >= |sr.searchMask| {
        StoppedHalfway(p, start, off, mask, k);
        OutOfReach(p, start, off, mask, k);
        return false;
      }
    }
    StoppedHalfway(p, start, off, mask, k);
    if off < |p.PathFragments| {
      Apart(p, start, off, mask, k);
    } else {
      NothingThere(p, off);
      NoEnd(p, start, off, mask, k);
    }
    return false;
  }

  /** The text goes on where the test of the offset gives up: it does not end, or ends too far back. */
  lemma OutOfReach(p: PathFragmentTable, start: nat, off: nat, mask: seq<byte>, k: nat)
    requires Halfway(p, start, off, mask, k) && start < off && off >= |mask|
    requires !p.PathMarks.IsEmpty() && !p.PathMarks.IsItemPresent(off - 1)
    ensures !Agrees(p, start, mask, k)
  {
    hide Compared, Present;
    if Compared(p, off) == [] {
      NoEnd(p, start, off, mask, k);
    }
  }

  /** Marked text that is compared but never found: "ab" behind one other byte. */
  lemma MarkedTextMissed(marks: SparseArray)
    requires !marks.IsEmpty() && marks.IsItemPresent(2) && !marks.IsItemPresent(1)
    ensures var p := PathFragmentTable([0x78, 0x61, 0x62], marks);
            && FragmentText(p, 1) == [0x61, 0x62] && Ended(p, 1)
            && !Agrees(p, 1, [0x61, 0x62], 0)
  {
    hide Present;
    var p := PathFragmentTable([0x78, 0x61, 0x62], marks);
    assert FragmentText(p, 2) == [0x62];
    assert FragmentText(p, 1) == [0x61, 0x62];
  }
}
