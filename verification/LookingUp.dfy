// findFileInDatabase of internal/root/mndx/trie.go: exact lookup of a name,
// helped by a hash cache that is trusted on the parent alone.

module LookingUp {
  import opened Words
  import Seqs
  import opened BitVectors
  import opened Louds
  import opened FileNames
  import opened Restoring
  import opened FragmentTexts
  import opened Preorder
  import opened SlotHash
  import Enumerating

  /** The text at off is not empty and ends at a zero byte of a table without marks. */
  predicate TextReady(p: PathFragmentTable, off: nat) {
    var n := |FragmentText(p, off)|;
    p.PathMarks.IsEmpty() && 0 < n && off + n < |p.PathFragments| && p.PathFragments[off + n] == 0
  }

  ghost predicate FragmentReady(db: FileNameDB, off: nat) {
    if db.ChildDB.Some? then FragmentExists(db, off) else TextReady(db.PathFragments, off)
  }

  ghost predicate NodeReady(db: FileNameDB, v: nat) {
    if db.IsPathFragmentString(v) then FragmentReady(db, FragmentOffset(db, v)) else v < |db.LoBitsTable|
  }

  ghost predicate SlotReady(db: FileNameDB, he: HashEntry) {
    he.NextIndex < db.Size() && !he.IsSingleChar() ==> FragmentReady(db, he.FragmentOffset)
  }

  /** Every label can be compared: single bytes are there, texts are zero-terminated, at every nesting level. */
  ghost predicate Comparable(db: FileNameDB)
    decreases db
  {
    && WellFormed(db)
    && (forall v :: 1 <= v < db.Size() ==> NodeReady(db, v))
    && (forall i :: 0 <= i < |db.HashTable| ==> SlotReady(db, db.HashTable[i]))
    && (db.ChildDB.Some? ==> Comparable(db.ChildDB.value))
  }

  ghost function FirstByte(db: FileNameDB, v: nat): byte {
    if Label(db, v) == [] then 0 else Label(db, v)[0]
  }

  ghost predicate SiblingsDiffer(db: FileNameDB) {
    forall c, d :: 1 <= c < db.Size() && 1 <= d < db.Size() && c != d && Up(db, c) == Up(db, d) ==>
      FirstByte(db, c) != FirstByte(db, d)
  }

  /** Used slots are filed under their parent and first byte, in a table whose length is a multiple of 256. */
  ghost predicate Filed(db: FileNameDB) {
    && db.HashTableMask % 256 == 255
    && forall i :: 0 <= i < |db.HashTable| && db.HashTable[i].NodeIndex < db.Size() ==>
         i == HashSlot(FirstByte(db, db.HashTable[i].NextIndex), db.HashTable[i].NodeIndex, db.HashTableMask)
  }

  ghost predicate Lookupable(db: FileNameDB) {
    Comparable(db) && SiblingsDiffer(db) && Filed(db)
  }

  /** The outcome of comparing text with the mask from position k on, the position afterwards being k'. */
  ghost predicate Matched(mask: seq<byte>, k: nat, text: seq<byte>, r: bool, k': nat)
    requires k < |mask| && text != []
  {
    && (r <==> text <= mask[k..])
    && (r ==> k' == k + |text|)
    && (!r ==> k <= k' <= |mask| && (k' > k ==> mask[k] == text[0]))
  }

  /** On such text comparePathFragment does what it is for. */
  lemma TextMatched(p: PathFragmentTable, off: nat, mask: seq<byte>, k: nat, r: bool, k': nat)
    requires TextReady(p, off) && k < |mask|
    requires r <==> Agrees(p, off, mask, k)
    requires r ==> k' == k + |Compared(p, off)|
    requires !r ==> Stopped(p, off, mask, k, k')
    ensures Matched(mask, k, FragmentText(p, off), r, k')
  {
    hide Present;
  }

  lemma {:induction false} RestoreNonEmpty(db: FileNameDB, idx: nat)
    requires Comparable(db) && EndsAtLevelOne(db) && 1 <= idx < db.Size()
    ensures Label(db, idx) != [] && Restore(db, idx) != []
    decreases db, 1
  {
    hide WellFormed, SlotReady, Up, EndsAtLevelOne, FragmentOffset, TablesOk, Present;
    LabelNonEmpty(db, idx);
  }

  lemma {:induction false} LabelNonEmpty(db: FileNameDB, v: nat)
    requires Comparable(db) && 1 <= v < db.Size()
    ensures Label(db, v) != []
    decreases db, 0
  {
    hide SlotReady, Up, EndsAtLevelOne, FragmentOffset, TablesOk, Present, SlotOk;
    assert NodeReady(db, v);
    if db.IsPathFragmentString(v) && db.ChildDB.Some? {
      RestoreNonEmpty(db.ChildDB.value, FragmentOffset(db, v));
    }
  }

  lemma FragmentNonEmpty(db: FileNameDB, off: nat)
    requires Comparable(db) && FragmentReady(db, off)
    ensures Fragment(db, off) != []
  {
    hide SlotReady, NodeReady, Up, EndsAtLevelOne, TablesOk, Present, SlotOk, NodeOk, Restore;
    if db.ChildDB.Some? {
      RestoreNonEmpty(db.ChildDB.value, off);
    }
  }

  /** Compare with fragment number off of db. */
  method CompareFragment(db: FileNameDB, sr: MndxSearch, off: u32) returns (r: bool)
    requires Comparable(db) && FragmentReady(db, off) && sr.PathLength < |sr.searchMask|
    modifies sr`PathLength
    ensures Fragment(db, off) != []
    ensures Matched(sr.searchMask, old(sr.PathLength), Fragment(db, off), r, sr.PathLength)
    decreases db, 0
  {
    hide SlotReady, NodeReady, Up, EndsAtLevelOne, TablesOk, Present, SlotOk, NodeOk, Restore, FragmentText, Matched;
    FragmentNonEmpty(db, off);
    if db.ChildDB.Some? {
      r := ComparePathFragmentByIndex(db.ChildDB.value, sr, off);
    } else {
      ghost var k := sr.PathLength;
      r := CompareText(db.PathFragments, sr, off);
      TextMatched(db.PathFragments, off, sr.searchMask, k, r, sr.PathLength);
    }
  }

  /** The mask agrees with the labels walked over so far, and there is more of both. */
  ghost predicate Comparing(db: FileNameDB, start: u32, idx: u32, mask: seq<byte>, k: nat, done: seq<byte>, pos: nat) {
    && Comparable(db) && EndsAtLevelOne(db) && 1 <= start < db.Size() && 1 <= idx < db.Size()
    && pos == k + |done| < |mask|
    && done <= mask[k..]
    && done + Restore(db, idx) == Restore(db, start) != []
    && (done != [] ==> mask[k] == Restore(db, start)[0])
  }

  lemma CompareStarts(db: FileNameDB, start: u32, mask: seq<byte>, k: nat)
    requires Comparable(db) && EndsAtLevelOne(db) && 1 <= start < db.Size() && k < |mask|
    ensures Restore(db, start) != []
    ensures Comparing(db, start, start, mask, k, [], k)
  {
    hide Comparable, EndsAtLevelOne, Restore, Present;
    RestoreNonEmpty(db, start);
    assert [] + Restore(db, start) == Restore(db, start);
  }

  /** What one round of the comparison finds. */
  lemma CompareStep(db: FileNameDB, start: u32, idx: u32, mask: seq<byte>, k: nat, done: seq<byte>, pos: nat)
    requires Comparing(db, start, idx, mask, k, done, pos)
    ensures Comparable(db) && Restorable(db, idx) && Label(db, idx) != [] && pos < |mask|
    ensures db.Slot(idx) < |db.HashTable|
    ensures var he := db.HashTable[db.Slot(idx)];
            he.NextIndex == idx ==>
              && he.NodeIndex == Up(db, idx) && (he.NodeIndex == 0 <==> Top(db, idx))
              && (he.IsSingleChar() ==> Label(db, idx) == [he.SingleChar()])
              && (!he.IsSingleChar() ==> FragmentReady(db, he.FragmentOffset)
                                         && Label(db, idx) == Fragment(db, he.FragmentOffset))
    ensures var he := db.HashTable[db.Slot(idx)];
            he.NextIndex != idx ==>
              && (db.IsPathFragmentString(idx) ==>
                    FragmentReady(db, FragmentOffset(db, idx)) && Label(db, idx) == Fragment(db, FragmentOffset(db, idx)))
              && (!db.IsPathFragmentString(idx) ==>
                    idx < |db.LoBitsTable| && Label(db, idx) == [db.LoBitsTable[idx]])
    ensures TablesOk(db) && Navigable(db.CollisionTable) && idx < db.Size() == Nodes(db.CollisionTable)
    ensures Top(db, idx) <==> idx <= db.Field214
    ensures !Top(db, idx) ==> 1 <= Up(db, idx) && Up(db, idx) == Parent(db.CollisionTable, idx)
    ensures !Top(db, idx) ==> Up(db, idx) < idx
  {
    hide Restore, RestoreCost, FragmentOffset, Fragment, FragmentCost, Present, FileNameDB.IsPathFragmentString,
         FragmentExists, TextReady, TablesOk, NodeOk, SlotOk, EndsAtLevelOne, Label, HereCost, Top;
    WalkStep(db, idx);
    assert NodeReady(db, idx);
    assert SlotReady(db, db.HashTable[db.Slot(idx)]);
    LabelNonEmpty(db, idx);
    RestoreNonEmpty(db, idx);
  }

  lemma OneByteMatch(mask: seq<byte>, pos: nat, c: byte)
    requires pos < |mask|
    ensures mask[pos] == c ==> Matched(mask, pos, [c], true, pos + 1)
    ensures mask[pos] != c ==> Matched(mask, pos, [c], false, pos)
  {
    assert mask[pos..][0] == mask[pos];
  }

  /** After comparing a label: decided, or on to the parent. */
  lemma CompareOn(db: FileNameDB, start: u32, idx: u32, mask: seq<byte>, k: nat, done: seq<byte>, pos: nat,
                  same: bool, pos': nat)
    requires Comparing(db, start, idx, mask, k, done, pos) && Label(db, idx) != []
    requires Matched(mask, pos, Label(db, idx), same, pos')
    ensures Restore(db, start) != []
    ensures !same ==> Matched(mask, k, Restore(db, start), false, pos')
    ensures same && Top(db, idx) ==> Matched(mask, k, Restore(db, start), true, pos')
    ensures same && !Top(db, idx) && pos' >= |mask| ==> Matched(mask, k, Restore(db, start), false, pos')
    ensures same && !Top(db, idx) && pos' < |mask| ==>
      Up(db, idx) < TWO32 && Comparing(db, start, Up(db, idx), mask, k, done + Label(db, idx), pos')
  {
    hide Comparable, EndsAtLevelOne, Label, Restore, Up, Present, Top;
    SplitsAt(db, idx);
    var part, rest := Label(db, idx), if Top(db, idx) then [] else Restore(db, Up(db, idx));
    if !Top(db, idx) {
      RestoreNonEmpty(db, Up(db, idx));
    }
    MatchSplits(mask, k, done, part, rest, Restore(db, start), same, pos');
  }

  lemma SplitsAt(db: FileNameDB, idx: u32)
    requires Comparable(db) && EndsAtLevelOne(db) && 1 <= idx < db.Size()
    ensures Restore(db, idx) == Label(db, idx) + if Top(db, idx) then [] else Restore(db, Up(db, idx))
    ensures !Top(db, idx) ==> 1 <= Up(db, idx) < db.Size() && Up(db, idx) < TWO32
  {
    hide Label, TablesOk, SlotOk, NodeOk, SlotReady, NodeReady, RestoreCost;
    WalkSplits(db, idx);
  }

  lemma MatchSplits(mask: seq<byte>, k: nat, done: seq<byte>, part: seq<byte>, rest: seq<byte>, full: seq<byte>,
                    same: bool, pos': nat)
    requires k + |done| < |mask| && done <= mask[k..] && part != [] && full == done + (part + rest)
    requires done != [] ==> mask[k] == full[0]
    requires Matched(mask, k + |done|, part, same, pos')
    ensures !same ==> Matched(mask, k, full, false, pos')
    ensures same ==> done + part <= mask[k..] && mask[k] == full[0] && pos' == k + |done + part| <= |mask|
    ensures same && rest == [] ==> Matched(mask, k, full, true, pos')
    ensures same && rest != [] && pos' >= |mask| ==> Matched(mask, k, full, false, pos')
    ensures done + (part + rest) == (done + part) + rest
  {
    Seqs.Assoc(done, part, rest);
    var tail := mask[k..];
    assert mask[k + |done|..] == tail[|done|..];
    assert tail == done + tail[|done|..];
    if full <= tail {
      assert tail[|done|..][..|part|] == full[|done|..][..|part|] == part;
    }
    if same {
      assert tail[|done|..][..|part|] == part;
      assert tail[..|done + part|] == done + part;
    }
    if done == [] {
      assert full[0] == part[0];
    }
  }

  /** comparePathFragmentByIndex: compare the mask with the labels met walking up. */
  method ComparePathFragmentByIndex(db: FileNameDB, sr: MndxSearch, start: u32) returns (r: bool)
    requires Comparable(db) && EndsAtLevelOne(db) && 1 <= start < db.Size() && sr.PathLength < |sr.searchMask|
    modifies sr`PathLength
    ensures Restore(db, start) != []
    ensures Matched(sr.searchMask, old(sr.PathLength), Restore(db, start), r, sr.PathLength)
    decreases db, 1
  {
    hide *;
    ghost var k, mask := sr.PathLength, sr.searchMask;
    ghost var done: seq<byte> := [];
    var tableIdx: u32 := start;
    RestoreNonEmpty(db, start);
    CompareStarts(db, start, mask, k);
    while true
      invariant Comparing(db, start, tableIdx, mask, k, done, sr.PathLength)
      decreases tableIdx
    {
      ghost var pos := sr.PathLength;
      CompareStep(db, start, tableIdx, mask, k, done, pos);
      var he := db.HashTable[db.Slot(tableIdx)];
      var here := tableIdx;
      var same: bool;
      if tableIdx == he.NextIndex {
        if !he.IsSingleChar() {
          same := CompareFragment(db, sr, he.FragmentOffset);
        } else {
          same := sr.searchMask[sr.PathLength] == he.SingleChar();
          OneByteMatch(mask, sr.PathLength, he.SingleChar());
          if same {
            sr.PathLength := sr.PathLength + 1;
          }
        }
      } else {
        if db.IsPathFragmentString(tableIdx) {
          var fragOff := FragmentOffset1(db, tableIdx);
          same := CompareFragment(db, sr, fragOff);
        } else {
          same := db.LoBitsTable[tableIdx] == sr.searchMask[sr.PathLength];
          OneByteMatch(mask, sr.PathLength, db.LoBitsTable[tableIdx]);
          if same {
            sr.PathLength := sr.PathLength + 1;
          }
        }
      }
      CompareOn(db, start, here, mask, k, done, pos, same, sr.PathLength);
      if !same {
        return false;
      }
      done := done + Label(db, here);
      if tableIdx == he.NextIndex {
        tableIdx := he.NodeIndex;
        if tableIdx == 0 {
          return true;
        }
        if sr.PathLength >= |sr.searchMask| {
          return false;
        }
      } else {
        if tableIdx <= db.Field214 {
          return true;
        }
        if sr.PathLength >= |sr.searchMask| {
          return false;
        }
        var up := ParentOf(db.CollisionTable, tableIdx);
        tableIdx := up.value;
      }
    }
  }

  /** The child of v that comparePathFragment moved to, or that there is none to move to. */
  ghost predicate Descended(db: FileNameDB, mask: seq<byte>, v: nat, k: nat, r: bool, v': nat, k': nat)
    requires k < |mask|
  {
    && (r ==> 1 <= v' < db.Size() && Up(db, v') == v && Label(db, v') <= mask[k..] && k' == k + |Label(db, v')|)
    && (!r ==> forall c :: 1 <= c < db.Size() && Up(db, c) == v ==> !(Label(db, c) <= mask[k..]))
  }

  /** A slot found for the mask's next byte and the current node, matching on the parent alone, is of the right child. */
  lemma HitForcesLabel(db: FileNameDB, node: u32, b: byte)
    requires Lookupable(db) && node < db.Size()
    requires HashSlot(b, node, db.HashTableMask) < |db.HashTable|
    requires db.HashTable[HashSlot(b, node, db.HashTableMask)].NodeIndex == node
    ensures var he := db.HashTable[HashSlot(b, node, db.HashTableMask)];
            && 1 <= he.NextIndex < db.Size() && Up(db, he.NextIndex) == node
            && Label(db, he.NextIndex) != [] && Label(db, he.NextIndex)[0] == b
            && (he.IsSingleChar() ==> Label(db, he.NextIndex) == [b])
            && (!he.IsSingleChar() ==> FragmentReady(db, he.FragmentOffset)
                                       && Label(db, he.NextIndex) == Fragment(db, he.FragmentOffset))
  {
    hide Label, Fragment, TablesOk, Present, NodeOk, NodeReady, FragmentReady, FragmentExists, HashSlot, Up,
         SiblingsDiffer, EndsAtLevelOne;
    var i := HashSlot(b, node, db.HashTableMask);
    var he := db.HashTable[i];
    assert SlotOk(db, he) && SlotReady(db, he);
    LabelNonEmpty(db, he.NextIndex);
    SlotTellsByte(FirstByte(db, he.NextIndex), b, node, db.HashTableMask);
  }

  /** Siblings that do not begin with the mask's next byte cannot match. */
  lemma OthersFail(db: FileNameDB, mask: seq<byte>, v: nat, k: nat, c: nat)
    requires Comparable(db) && SiblingsDiffer(db) && k < |mask| && 1 <= c < db.Size() && Up(db, c) == v
    requires Label(db, c) != [] && Label(db, c)[0] == mask[k]
    ensures forall d :: 1 <= d < db.Size() && Up(db, d) == v && d != c ==> !(Label(db, d) <= mask[k..])
  {
    hide Label, Up, WellFormed, NodeReady, SlotReady, Present;
    forall d | 1 <= d < db.Size() && Up(db, d) == v && d != c
      ensures !(Label(db, d) <= mask[k..])
    {
      LabelNonEmpty(db, d);
      assert FirstByte(db, c) != FirstByte(db, d);
      assert mask[k..][0] == mask[k];
    }
  }

  /** comparePathFragment: descend to the child whose label the mask continues with. */
  method ComparePathFragment(db: FileNameDB, sr: MndxSearch) returns (r: bool)
    requires Lookupable(db) && sr.NodeIndex < db.Size() && sr.PathLength < |sr.searchMask|
    modifies sr`PathLength, sr`NodeIndex
    ensures Descended(db, sr.searchMask, old(sr.NodeIndex), old(sr.PathLength), r, sr.NodeIndex, sr.PathLength)
  {
    hide *;
    ghost var v, k, mask := sr.NodeIndex, sr.PathLength, sr.searchMask;
    SlotInTable(db, sr.searchMask[sr.PathLength], sr.NodeIndex);
    var hashIdx := HashSlot(sr.searchMask[sr.PathLength], sr.NodeIndex, db.HashTableMask);
    var he := db.HashTable[hashIdx];
    if he.NodeIndex == sr.NodeIndex {
      HitForcesLabel(db, sr.NodeIndex, sr.searchMask[sr.PathLength]);
      if !he.IsSingleChar() {
        var same := CompareFragment(db, sr, he.FragmentOffset);
        if !same {
          HitDecides(db, mask, v, k, he.NextIndex, same, sr.PathLength);
          return false;
        }
      } else {
        OneByteMatch(mask, k, mask[k]);
        sr.PathLength := sr.PathLength + 1;
      }
      HitDecides(db, mask, v, k, he.NextIndex, true, sr.PathLength);
      sr.NodeIndex := he.NextIndex;
      return true;
    }
    r := CompareChildren(db, sr);
  }

  lemma SlotInTable(db: FileNameDB, b: byte, node: u32)
    requires Lookupable(db)
    ensures HashSlot(b, node, db.HashTableMask) < |db.HashTable| && Comparable(db)
  {
    hide NodeOk, SlotOk, NodeReady, SlotReady, Present;
  }

  lemma HitDecides(db: FileNameDB, mask: seq<byte>, v: nat, k: nat, c: nat, same: bool, k': nat)
    requires Lookupable(db) && k < |mask| && 1 <= c < db.Size() && Up(db, c) == v
    requires Label(db, c) != [] && Label(db, c)[0] == mask[k]
    requires Matched(mask, k, Label(db, c), same, k')
    ensures same ==> Descended(db, mask, v, k, true, c, k')
    ensures !same ==> forall v', k' :: Descended(db, mask, v, k, false, v', k')
  {
    hide Label, Up, Comparable, SiblingsDiffer, Filed, Present;
    if !same {
      OthersFail(db, mask, v, k, c);
    }
  }

  /** The part of comparePathFragment that tries the children one by one. */
  method CompareChildren(db: FileNameDB, sr: MndxSearch) returns (r: bool)
    requires Lookupable(db) && sr.NodeIndex < db.Size() && sr.PathLength < |sr.searchMask|
    modifies sr`PathLength, sr`NodeIndex
    ensures Descended(db, sr.searchMask, old(sr.NodeIndex), old(sr.PathLength), r, sr.NodeIndex, sr.PathLength)
  {
    hide *;
    ghost var v, k, mask := sr.NodeIndex, sr.PathLength, sr.searchMask;
    var start := RunStart(db.CollisionTable, sr.NodeIndex);
    ChildRun(db, mask, v, k);
    var colTblIdx: u32 := start.value;
    sr.NodeIndex := Wrap(colTblIdx - sr.NodeIndex - 1);
    var hiBits: u32 := INVALID;
    while db.CollisionTable.IsItemPresent(colTblIdx)
      invariant Trying(db, mask, v, k, sr.NodeIndex, colTblIdx, hiBits)
      invariant sr.PathLength == k
      decreases TWO32 - sr.NodeIndex
    {
      TryFacts(db, mask, v, k, sr.NodeIndex, colTblIdx, hiBits);
      ghost var c := sr.NodeIndex;
      var wasHi := hiBits;
      if db.IsPathFragmentString(sr.NodeIndex) {
        var fragOff, hi := Enumerating.FragmentOffset2(db, hiBits, sr.NodeIndex);
        hiBits := hi;
        var savedLen := sr.PathLength;
        var same := CompareFragment(db, sr, fragOff);
        TryDecides(db, mask, v, k, c, same, sr.PathLength);
        if same {
          return true;
        }
        if sr.PathLength != savedLen {
          return false;
        }
      } else {
        OneByteMatch(mask, k, db.LoBitsTable[sr.NodeIndex]);
        if db.LoBitsTable[sr.NodeIndex] == sr.searchMask[sr.PathLength] {
          sr.PathLength := sr.PathLength + 1;
          TryDecides(db, mask, v, k, c, true, sr.PathLength);
          return true;
        }
        TryDecides(db, mask, v, k, c, false, sr.PathLength);
      }
      TryNext(db, mask, v, k, c, colTblIdx, wasHi, hiBits);
      sr.NodeIndex := Wrap(sr.NodeIndex as int + 1);
      colTblIdx := Wrap(colTblIdx as int + 1);
    }
    TryEnds(db, mask, v, k, sr.NodeIndex, colTblIdx, hiBits);
    return false;
  }

  /** Children of v below c have failed; the cursor and the cached string rank belong to c. */
  ghost predicate Trying(db: FileNameDB, mask: seq<byte>, v: nat, k: nat, c: u32, pos: u32, hiBits: u32) {
    && Lookupable(db) && v < db.Size() && k < |mask|
    && IsTree(db.CollisionTable)
    && First(db.CollisionTable, v) <= c <= First(db.CollisionTable, v + 1)
    && pos == c + v + 1
    && Enumerating.CacheOk(db.CollisionHiBitsIndexes.ItemBits, hiBits, c)
    && forall d :: First(db.CollisionTable, v) <= d < c ==> !(Label(db, d) <= mask[k..])
  }

  lemma ChildRun(db: FileNameDB, mask: seq<byte>, v: u32, k: nat)
    requires Lookupable(db) && v < db.Size() && k < |mask|
    ensures Navigable(db.CollisionTable) && v < Nodes(db.CollisionTable)
    ensures IsTree(db.CollisionTable)
    ensures var start := First(db.CollisionTable, v) + v + 1;
            && start < TWO32
            && Wrap(start - v - 1) == First(db.CollisionTable, v)
            && Trying(db, mask, v, k, First(db.CollisionTable, v), start, INVALID)
  {
    hide NodeOk, SlotOk, NodeReady, SlotReady, Present, Rank, First, Shape, Label, SiblingsDiffer, Filed;
    Enumerating.RunFits(db, v);
    FirstMono(db.CollisionTable, v, v + 1);
  }

  lemma TryFacts(db: FileNameDB, mask: seq<byte>, v: nat, k: nat, c: u32, pos: u32, hiBits: u32)
    requires Trying(db, mask, v, k, c, pos, hiBits) && db.CollisionTable.IsItemPresent(pos)
    ensures 1 <= c < db.Size() && Up(db, c) == v && TablesOk(db) && Comparable(db)
    ensures Enumerating.CacheOk(db.CollisionHiBitsIndexes.ItemBits, hiBits, c)
    ensures Label(db, c) != []
    ensures db.IsPathFragmentString(c) ==>
      FragmentReady(db, FragmentOffset(db, c)) && Label(db, c) == Fragment(db, FragmentOffset(db, c))
    ensures !db.IsPathFragmentString(c) ==> c < |db.LoBitsTable| && Label(db, c) == [db.LoBitsTable[c]]
  {
    hide NodeOk, SlotOk, SlotReady, Present, Rank, First, Shape, SiblingsDiffer, Filed, Enumerating.CacheOk, TablesOk,
         FragmentReady, Fragment, FragmentOffset, EndsAtLevelOne;
    var t := db.CollisionTable;
    CursorBit(t, v, c);
    assert c < First(t, v + 1);
    Enumerating.ChildOf(db, v, c);
    assert NodeReady(db, c);
    LabelNonEmpty(db, c);
  }

  lemma TryDecides(db: FileNameDB, mask: seq<byte>, v: nat, k: nat, c: nat, same: bool, k': nat)
    requires Lookupable(db) && k < |mask| && 1 <= c < db.Size() && Up(db, c) == v && Label(db, c) != []
    requires Matched(mask, k, Label(db, c), same, k')
    ensures same || k' != k ==> Descended(db, mask, v, k, same, c, k')
    ensures !same ==> !(Label(db, c) <= mask[k..])
  {
    hide Label, Up, Comparable, SiblingsDiffer, Filed, Present;
    if !same && k' != k {
      OthersFail(db, mask, v, k, c);
    }
  }

  lemma TryNext(db: FileNameDB, mask: seq<byte>, v: nat, k: nat, c: u32, pos: u32, hiBits: u32, hiBits': u32)
    requires Trying(db, mask, v, k, c, pos, hiBits) && db.CollisionTable.IsItemPresent(pos)
    requires !(Label(db, c) <= mask[k..])
    requires hiBits' == if db.IsPathFragmentString(c) then db.StringRank(c) else hiBits
    ensures c + 1 < TWO32 && pos + 1 < TWO32 && Wrap(c as int + 1) == c + 1 && Wrap(pos as int + 1) == pos + 1
    ensures Trying(db, mask, v, k, c + 1, pos + 1, hiBits')
  {
    hide Lookupable, Present, Rank, First, Shape, Enumerating.CacheOk, TablesOk, Comparable, Label, Up,
         FragmentReady, Fragment, FragmentOffset;
    TryFacts(db, mask, v, k, c, pos, hiBits);
    CursorBit(db.CollisionTable, v, c);
    Enumerating.CacheAdvances(db.CollisionHiBitsIndexes.ItemBits, hiBits, c);
    Enumerating.CacheFilled(db, c);
  }

  lemma TryEnds(db: FileNameDB, mask: seq<byte>, v: nat, k: nat, c: u32, pos: u32, hiBits: u32)
    requires Trying(db, mask, v, k, c, pos, hiBits) && !db.CollisionTable.IsItemPresent(pos)
    ensures forall v', k' :: Descended(db, mask, v, k, false, v', k')
  {
    hide NodeOk, SlotOk, SlotReady, Present, Rank, First, Shape, SiblingsDiffer, Filed, Enumerating.CacheOk,
         FragmentReady, Fragment, FragmentOffset, EndsAtLevelOne, Label, NodeReady, TablesOk;
    var t := db.CollisionTable;
    CursorBit(t, v, c);
    forall d | 1 <= d < db.Size() && Up(db, d) == v
      ensures !(Label(db, d) <= mask[k..])
    {
      ChildrenAreRun(t, v, d);
    }
  }

  // ----- paths determine nodes -----

  /** v is u or one of its ancestors. */
  ghost predicate Above(db: FileNameDB, v: nat, u: nat) {
    v == u || (u > 0 && Above(db, v, Up(db, u)))
  }

  lemma {:induction false} AboveIsBefore(db: FileNameDB, v: nat, u: nat)
    requires Above(db, v, u)
    ensures v <= u && PathOf(db, v) <= PathOf(db, u)
    decreases u
  {
    hide Up, Label;
    if v != u {
      AboveIsBefore(db, v, Up(db, u));
      assert PathOf(db, u) == PathOf(db, Up(db, u)) + Label(db, u);
    }
  }

  lemma {:induction false} RootAbove(db: FileNameDB, u: nat)
    ensures Above(db, 0, u)
    decreases u
  {
    hide Up;
    if u > 0 {
      RootAbove(db, Up(db, u));
    }
  }

  /** The child through which v reaches a node below it. */
  lemma {:induction false} ChildTowards(db: FileNameDB, v: nat, u: nat) returns (c: nat)
    requires Above(db, v, u) && v != u && u < db.Size()
    ensures 1 <= c < db.Size() && Up(db, c) == v && Above(db, c, u)
    decreases u
  {
    hide Up, Present, Rank;
    if Up(db, u) == v {
      c := u;
    } else {
      c := ChildTowards(db, v, Up(db, u));
    }
  }

  lemma UpBelow(db: FileNameDB, u: nat)
    requires 0 < u < db.Size()
    ensures Up(db, u) < db.Size()
  {
  }

  /** A node whose path begins another node's path lies above it. */
  lemma {:induction false} PathsNest(db: FileNameDB, v: nat, u: nat)
    requires Comparable(db) && SiblingsDiffer(db) && v < db.Size() && u < db.Size()
    requires PathOf(db, v) <= PathOf(db, u)
    ensures Above(db, v, u)
    decreases v
  {
    hide Up, Label, Comparable, Present, Rank, Above;
    if v == 0 {
      RootAbove(db, u);
    } else {
      var p := Up(db, v);
      UpBelow(db, v);
      LabelNonEmpty(db, v);
      assert PathOf(db, v) == PathOf(db, p) + Label(db, v);
      PathsNest(db, p, u);
      assert p != u;
      var c := ChildTowards(db, p, u);
      LabelNonEmpty(db, c);
      AboveIsBefore(db, c, u);
      assert PathOf(db, c) == PathOf(db, p) + Label(db, c);
      var at := |PathOf(db, p)|;
      assert PathOf(db, u)[at] == Label(db, v)[0];
      assert PathOf(db, u)[at] == Label(db, c)[0];
      assert c == v;
    }
  }

  lemma PathIsUnique(db: FileNameDB, v: nat, u: nat)
    requires Comparable(db) && SiblingsDiffer(db) && v < db.Size() && u < db.Size()
    requires PathOf(db, v) == PathOf(db, u)
    ensures v == u
  {
    hide *;
    PathsNest(db, v, u);
    PathsNest(db, u, v);
    AboveIsBefore(db, v, u);
    AboveIsBefore(db, u, v);
  }

  /** No child of v continues towards the mask, so no node has the mask as its path. */
  lemma DeadEnd(db: FileNameDB, mask: seq<byte>, v: nat, k: nat, u: nat)
    requires Comparable(db) && SiblingsDiffer(db) && v < db.Size() && u < db.Size() && k < |mask|
    requires PathOf(db, v) == mask[..k]
    requires forall c :: 1 <= c < db.Size() && Up(db, c) == v ==> !(Label(db, c) <= mask[k..])
    ensures PathOf(db, u) != mask
  {
    hide Up, Label, Comparable, Present, Rank, Above, PathOf;
    if PathOf(db, u) == mask {
      PathsNest(db, v, u);
      assert v != u;
      var c := ChildTowards(db, v, u);
      AboveIsBefore(db, c, u);
      ChildPath(db, c);
    }
  }

  lemma ChildPath(db: FileNameDB, c: nat)
    requires c > 0
    ensures PathOf(db, c) == PathOf(db, Up(db, c)) + Label(db, c)
  {
    hide Up, Label;
  }

  lemma StepDown(db: FileNameDB, mask: seq<byte>, v: nat, k: nat, c: nat, k': nat)
    requires k < |mask| && PathOf(db, v) == mask[..k]
    requires Descended(db, mask, v, k, true, c, k')
    ensures k' <= |mask| && PathOf(db, c) == mask[..k']
  {
    hide Up, Label, PathOf;
    ChildPath(db, c);
    assert mask[k..k'] == Label(db, c);
  }

  /** findFileInDatabase: succeeds with index i exactly when (mask, i) is in the trie's name list. */
  method FindFileInDatabase(db: FileNameDB, sr: MndxSearch) returns (found: bool)
    requires Lookupable(db)
    modifies sr
    ensures IsTree(db.CollisionTable)
    ensures found ==> sr.foundPath == old(sr.searchMask) && (old(sr.searchMask), sr.foundIndex as nat) in AllNames(db)
    ensures !found ==> forall i :: (old(sr.searchMask), i) !in AllNames(db)
  {
    hide *;
    ghost var mask := sr.searchMask;
    StartFacts(db);
    sr.NodeIndex := 0;
    sr.PathLength := 0;
    sr.SearchPhase := SearchInit;
    assert mask[..0] == [] == PathOf(db, 0);
    while sr.PathLength < |sr.searchMask|
      invariant sr.searchMask == mask && sr.NodeIndex < db.Size() && sr.PathLength <= |mask|
      invariant PathOf(db, sr.NodeIndex) == mask[..sr.PathLength]
      decreases |mask| - sr.PathLength
    {
      ghost var v, k := sr.NodeIndex, sr.PathLength;
      var descended := ComparePathFragment(db, sr);
      if !descended {
        NotListed(db, mask, v, k);
        return false;
      }
      DescentFacts(db, mask, v, k, sr.NodeIndex, sr.PathLength);
      StepDown(db, mask, v, k, sr.NodeIndex, sr.PathLength);
    }
    assert mask[..sr.PathLength] == mask;
    if !db.IsTerminal(sr.NodeIndex) {
      NotAName(db, mask, sr.NodeIndex);
      return false;
    }
    Listed(db, mask, sr.NodeIndex);
    sr.foundPath := sr.searchMask;
    sr.foundIndex := db.FileNameIndexes.GetItemValueAt(sr.NodeIndex);
    return true;
  }

  lemma StartFacts(db: FileNameDB)
    requires Lookupable(db)
    ensures IsTree(db.CollisionTable) && 0 < db.Size() && PathOf(db, 0) == []
  {
    hide NodeOk, SlotOk, NodeReady, SlotReady, Present, Rank, SiblingsDiffer, Filed, Shape;
    RootFacts(db.CollisionTable);
  }

  lemma DescentFacts(db: FileNameDB, mask: seq<byte>, v: nat, k: nat, c: nat, k': nat)
    requires Lookupable(db) && k < |mask| && Descended(db, mask, v, k, true, c, k')
    ensures c < db.Size() && k' > k
  {
    hide Up, Label, Comparable, SiblingsDiffer, Filed, Present;
    LabelNonEmpty(db, c);
  }

  lemma NotListed(db: FileNameDB, mask: seq<byte>, v: nat, k: nat)
    requires Lookupable(db) && v < db.Size() && k < |mask| && PathOf(db, v) == mask[..k]
    requires exists c, k' :: Descended(db, mask, v, k, false, c, k')
    requires IsTree(db.CollisionTable)
    ensures forall i :: (mask, i) !in AllNames(db)
  {
    hide Up, Label, Comparable, SiblingsDiffer, Filed, Present, PathOf, AllNames, IsTree;
    forall i | (mask, i) in AllNames(db)
      ensures false
    {
      var u := NameNode(db, mask, i);
      DeadEnd(db, mask, v, k, u);
    }
  }

  lemma NotAName(db: FileNameDB, mask: seq<byte>, v: nat)
    requires Lookupable(db) && v < db.Size() && PathOf(db, v) == mask && !db.IsTerminal(v)
    requires IsTree(db.CollisionTable)
    ensures forall i :: (mask, i) !in AllNames(db)
  {
    hide Up, Label, Comparable, SiblingsDiffer, Filed, Present, PathOf, AllNames, IsTree;
    forall i | (mask, i) in AllNames(db)
      ensures false
    {
      var u := NameNode(db, mask, i);
      PathIsUnique(db, u, v);
    }
  }

  lemma Listed(db: FileNameDB, mask: seq<byte>, v: nat)
    requires Lookupable(db) && v < db.Size() && PathOf(db, v) == mask && db.IsTerminal(v)
    requires IsTree(db.CollisionTable)
    ensures (mask, db.TerminalRank(v)) in AllNames(db)
    ensures db.TerminalRank(v) < TWO32 && db.FileNameIndexes.WellFormed() && v <= 512 * db.FileNameIndexes.Blocks()
    ensures db.TerminalRank(v) == Rank(db.FileNameIndexes.ItemBits, true, v)
  {
    hide NodeOk, SlotOk, NodeReady, SlotReady, Present, Rank, SiblingsDiffer, Filed, Shape, Label, Up, AllNames, PathOf;
    EveryNameOnce(db, v);
    Enumerating.CacheFilled(db, v);
  }

  /** The node an entry of the name list stands for. */
  lemma NameNode(db: FileNameDB, path: seq<byte>, i: nat) returns (u: nat)
    requires IsTree(db.CollisionTable) && (path, i) in AllNames(db)
    ensures u < db.Size() && db.IsTerminal(u) && PathOf(db, u) == path && db.TerminalRank(u) == i
  {
    hide Up, Label, Present, PathOf, Shape, Pre, Names, Rank;
    var t := db.CollisionTable;
    RootFacts(t);
    var nodes := Pre(t, 0, 1);
    OnlyNames(db, nodes, (path, i));
    u :| u in nodes && db.IsTerminal(u) && (path, i) == (PathOf(db, u), db.TerminalRank(u));
    PreInRange(t, 0, 1);
  }
}
