// The search state of internal/root/mndx/trie.go and the copying of fragments
// into its path buffer.

module Restoring {
  import opened Words
  import Seqs
  import opened BitVectors
  import opened SparseArrays
  import opened BitEntries
  import opened Louds
  import opened FileNames

  const INVALID: u32 := 0xFFFF_FFFF

  datatype PathStop = PathStop(LoBitsIndex: u32, Field4: u32, Count: nat, HiBitsIndexPathFragment: u32, Field10: u32)

  datatype Phase = SearchInit | SearchSearching | SearchFinished

  /** mndxSearch with the searchState embedded in it. */
  class MndxSearch {
    var PathStops: seq<PathStop>
    var PathBuffer: seq<byte>
    var NodeIndex: u32
    var PathLength: nat
    var ItemCount: nat
    var SearchPhase: Phase
    var searchMask: seq<byte>
    var foundPath: seq<byte>
    var foundIndex: u32
    var totalSteps: nat

    constructor (mask: seq<byte>)
      ensures searchMask == mask && SearchPhase == SearchInit && totalSteps == 0
    {
      PathStops, PathBuffer, NodeIndex, PathLength, ItemCount := [], [], 0, 0, 0;
      SearchPhase, searchMask, foundPath, foundIndex, totalSteps := SearchInit, mask, [], 0, 0;
    }

    /** pathFragmentTable.copyPathFragment: append the text at off. */
    method CopyText(p: PathFragmentTable, offset: u32)
      modifies `PathBuffer
      ensures PathBuffer == old(PathBuffer) + FragmentText(p, offset)
    {
      hide Present, SparseArray.IsItemPresent;
      var off: nat := offset;
      if p.PathMarks.IsEmpty() {
        while off < |p.PathFragments| && p.PathFragments[off] != 0
          invariant old(PathBuffer) + FragmentText(p, offset) == PathBuffer + FragmentText(p, off)
          decreases |p.PathFragments| - off
        {
          Seqs.Assoc(PathBuffer, [p.PathFragments[off]], FragmentText(p, off + 1));
          PathBuffer := PathBuffer + [p.PathFragments[off]];
          off := off + 1;
        }
        assert PathBuffer + [] == PathBuffer;
        return;
      }
      while off < |p.PathFragments|
        invariant old(PathBuffer) + FragmentText(p, offset) == PathBuffer + FragmentText(p, off)
        decreases |p.PathFragments| - off
      {
        var marked := p.PathMarks.IsItemPresent(off);
        Seqs.Assoc(PathBuffer, [p.PathFragments[off]], if marked then [] else FragmentText(p, off + 1));
        PathBuffer := PathBuffer + [p.PathFragments[off]];
        assert PathBuffer + [] == PathBuffer;
        if marked {
          return;
        }
        off := off + 1;
      }
      assert PathBuffer + [] == PathBuffer;
    }
  }

  method FragmentOffset1(db: FileNameDB, loBitsIdx: u32) returns (r: u32)
    ensures TablesOk(db) && loBitsIdx < db.Size() ==> r == FragmentOffset(db, loBitsIdx)
  {
    hide Present, Rank, SliceValue, SparseArray.WellFormed, TablesOk, BitEntryArray.WellFormed;
    var lo: byte := 0;
    if loBitsIdx < |db.LoBitsTable| {
      lo := db.LoBitsTable[loBitsIdx];
    }
    var hi := db.CollisionHiBitsIndexes.GetItemValueAt(loBitsIdx);
    var v := db.HiBitsTable.Get(hi);
    r := Wrap(256 * v + lo);
    if TablesOk(db) && loBitsIdx < db.Size() {
      RankFits(db, loBitsIdx);
    }
  }

  /** A packed entry read at any string rank lies inside 32-bit bit positions. */
  lemma RankFits(db: FileNameDB, v: nat)
    requires TablesOk(db) && v <= db.Size()
    ensures db.StringRank(v) * db.HiBitsTable.BitsPerEntry < TWO32 && db.StringRank(v) < INVALID
    ensures db.HiBitsTable.WellFormed()
    ensures db.CollisionHiBitsIndexes.WellFormed() && v <= 512 * db.CollisionHiBitsIndexes.Blocks()
  {
    hide Present, Rank, SparseArray.WellFormed, Navigable;
    ProductMono(db.StringRank(v), db.Size(), db.HiBitsTable.BitsPerEntry);
  }

  lemma ProductMono(a: nat, b: nat, k: nat)
    requires a <= b
    ensures a * k <= b * k
  {
  }

  /** A copy of text at a price of cost steps, cut short when the shared budget runs out. */
  ghost predicate Copied(before: seq<byte>, steps: nat, text: seq<byte>, cost: nat, after: seq<byte>, steps': nat) {
    && steps <= steps'
    && before <= after <= before + text
    && (steps + cost < MAX_TRIE_STEPS ==> after == before + text && steps' == steps + cost)
    && (steps + cost >= MAX_TRIE_STEPS ==> steps' >= MAX_TRIE_STEPS)
  }

  /** A node whose path upwards copyPathFragmentByIndex restores. */
  ghost predicate Restorable(db: FileNameDB, idx: nat) {
    WellFormed(db) && EndsAtLevelOne(db) && 1 <= idx < db.Size()
  }

  /** Copy fragment number off of db: its text, or the path of a node of the nested trie. */
  method CopyFragment(db: FileNameDB, sr: MndxSearch, off: u32) returns (ok: bool)
    modifies sr`PathBuffer, sr`totalSteps
    ensures sr.totalSteps >= old(sr.totalSteps)
    ensures WellFormed(db) && FragmentExists(db, off) ==> ok
    ensures WellFormed(db) && FragmentExists(db, off) ==>
      Copied(old(sr.PathBuffer), old(sr.totalSteps), Fragment(db, off), FragmentCost(db, off), sr.PathBuffer, sr.totalSteps)
    decreases db, 0
  {
    hide TablesOk, SlotOk, NodeOk, EndsAtLevelOne, Restore, RestoreCost, FragmentText;
    if db.ChildDB.Some? {
      ok := CopyPathFragmentByIndex(db.ChildDB.value, sr, off);
    } else {
      sr.CopyText(db.PathFragments, off);
      ok := true;
    }
  }

  /** copyPathFragmentByIndex: terminates on any tables; false stands for a panic. */
  method CopyPathFragmentByIndex(db: FileNameDB, sr: MndxSearch, start: u32) returns (ok: bool)
    modifies sr`PathBuffer, sr`totalSteps
    ensures sr.totalSteps >= old(sr.totalSteps)
    ensures Restorable(db, start) ==> ok
    ensures Restorable(db, start) ==>
      Copied(old(sr.PathBuffer), old(sr.totalSteps), Restore(db, start), RestoreCost(db, start), sr.PathBuffer, sr.totalSteps)
    decreases db, 1
  {
    hide *;
    ghost var before, steps := sr.PathBuffer, sr.totalSteps;
    ghost var good := Restorable(db, start);
    if good {
      WalkStarts(db, start, before, steps);
    }
    var tableIdx: u32 := start;
    while sr.totalSteps < MAX_TRIE_STEPS
      invariant sr.totalSteps >= steps
      invariant good ==> Underway(db, start, tableIdx, before, steps, sr.PathBuffer, sr.totalSteps)
      decreases MAX_TRIE_STEPS - sr.totalSteps
    {
      ghost var now, steps' := sr.PathBuffer, sr.totalSteps;
      if good {
        NotCutYet(db, start, tableIdx, before, steps, now, steps');
        WalkStep(db, tableIdx);
        OneByte(now, steps');
      }
      if |db.HashTable| <= db.Slot(tableIdx) {
        return false;
      }
      var he := db.HashTable[db.Slot(tableIdx)];
      ghost var here := tableIdx;
      if tableIdx == he.NextIndex {
        if !he.IsSingleChar() {
          var copied := CopyFragment(db, sr, he.FragmentOffset);
          if !copied {
            return false;
          }
        } else {
          sr.PathBuffer := sr.PathBuffer + [he.SingleChar()];
        }
        if good {
          WalkOn(db, start, here, before, steps, now, steps', sr.PathBuffer, sr.totalSteps);
        }
        tableIdx := he.NodeIndex;
        if tableIdx == 0 {
          return true;
        }
      } else {
        if db.IsPathFragmentString(tableIdx) {
          var fragOff := FragmentOffset1(db, tableIdx);
          var copied := CopyFragment(db, sr, fragOff);
          if !copied {
            return false;
          }
        } else if tableIdx < |db.LoBitsTable| {
          sr.PathBuffer := sr.PathBuffer + [db.LoBitsTable[tableIdx]];
        }
        if good {
          WalkOn(db, start, here, before, steps, now, steps', sr.PathBuffer, sr.totalSteps);
        }
        if tableIdx <= db.Field214 {
          return true;
        }
        var up := ParentOf(db.CollisionTable, tableIdx);
        if up.None? {
          return false;
        }
        tableIdx := up.value;
      }
      sr.totalSteps := sr.totalSteps + 1;
    }
    if good {
      CutShort(db, start, tableIdx, before, steps, sr.PathBuffer, sr.totalSteps);
    }
    return true;
  }

  /** Either the walk is exact so far, or the budget is gone and a prefix was copied. */
  ghost predicate Underway(db: FileNameDB, start: u32, idx: u32, before: seq<byte>, steps: nat, now: seq<byte>, steps': nat) {
    || Exact(db, start, idx, before, steps, now, steps')
    || (&& steps' >= MAX_TRIE_STEPS
        && steps + RestoreCost(db, start) >= MAX_TRIE_STEPS
        && before <= now <= before + Restore(db, start))
  }

  ghost predicate Exact(db: FileNameDB, start: u32, idx: u32, before: seq<byte>, steps: nat, now: seq<byte>, steps': nat) {
    && Restorable(db, idx)
    && before <= now
    && now + Restore(db, idx) == before + Restore(db, start)
    && steps <= steps'
    && steps' + RestoreCost(db, idx) == steps + RestoreCost(db, start)
  }

  lemma WalkStarts(db: FileNameDB, start: u32, before: seq<byte>, steps: nat)
    requires Restorable(db, start)
    ensures Underway(db, start, start, before, steps, before, steps)
  {
    hide Restore, RestoreCost, Restorable;
  }

  lemma NotCutYet(db: FileNameDB, start: u32, idx: u32, before: seq<byte>, steps: nat, now: seq<byte>, steps': nat)
    requires Underway(db, start, idx, before, steps, now, steps') && steps' < MAX_TRIE_STEPS
    ensures Exact(db, start, idx, before, steps, now, steps') && Restorable(db, idx)
    ensures WellFormed(db)
  {
    hide Restore, RestoreCost, WellFormed;
  }

  lemma CutShort(db: FileNameDB, start: u32, idx: u32, before: seq<byte>, steps: nat, now: seq<byte>, steps': nat)
    requires Underway(db, start, idx, before, steps, now, steps') && steps' >= MAX_TRIE_STEPS && steps <= steps'
    ensures Copied(before, steps, Restore(db, start), RestoreCost(db, start), now, steps')
  {
    hide Restore, RestoreCost, Restorable;
  }

  lemma OneByte(now: seq<byte>, steps: nat)
    requires steps < MAX_TRIE_STEPS
    ensures forall c: byte :: Copied(now, steps, [c], 0, now + [c], steps)
    ensures Copied(now, steps, [], 0, now, steps)
  {
  }

  /** Does the walk end at idx? */
  ghost predicate Top(db: FileNameDB, idx: nat) { idx <= db.Field214 }

  /** The cost of the label at idx, by way of the slot when it is cached. */
  ghost function HereCost(db: FileNameDB, idx: u32): nat {
    if db.Cached(idx) then EntryCost(db, db.HashTable[db.Slot(idx)]) else LabelCost(db, idx)
  }

  /** What one round of the walk finds: the slot, if it is of this node, agrees with the tables. */
  lemma WalkStep(db: FileNameDB, idx: u32)
    requires Restorable(db, idx)
    ensures db.Slot(idx) < |db.HashTable|
    ensures db.Cached(idx) <==> db.HashTable[db.Slot(idx)].NextIndex == idx
    ensures var he := db.HashTable[db.Slot(idx)];
            db.Cached(idx) ==>
              && EntryLabel(db, he) == Label(db, idx)
              && he.NodeIndex == Up(db, idx)
              && (he.NodeIndex == 0 <==> Top(db, idx))
              && (he.IsSingleChar() ==> Label(db, idx) == [he.SingleChar()] && HereCost(db, idx) == 0)
              && (!he.IsSingleChar() ==>
                    && FragmentExists(db, he.FragmentOffset)
                    && Label(db, idx) == Fragment(db, he.FragmentOffset)
                    && HereCost(db, idx) == FragmentCost(db, he.FragmentOffset))
    ensures !db.Cached(idx) && db.IsPathFragmentString(idx) ==>
      && FragmentExists(db, FragmentOffset(db, idx))
      && Label(db, idx) == Fragment(db, FragmentOffset(db, idx))
      && HereCost(db, idx) == FragmentCost(db, FragmentOffset(db, idx))
    ensures !db.Cached(idx) && !db.IsPathFragmentString(idx) ==>
      && HereCost(db, idx) == 0
      && Label(db, idx) == if idx < |db.LoBitsTable| then [db.LoBitsTable[idx]] else []
    ensures Top(db, idx) <==> idx <= db.Field214
    ensures TablesOk(db) && Navigable(db.CollisionTable) && idx < db.Size() == Nodes(db.CollisionTable)
    ensures !Top(db, idx) ==> 1 <= Up(db, idx) && Up(db, idx) == Parent(db.CollisionTable, idx)
  {
    hide Restore, RestoreCost, FragmentOffset, Fragment, FragmentCost, Present, FileNameDB.IsPathFragmentString, FragmentExists;
    assert SlotOk(db, db.HashTable[db.Slot(idx)]);
    assert NodeOk(db, idx);
  }

  /** After the label of a node the walk either is complete or stands at the parent. */
  lemma WalkOn(db: FileNameDB, start: u32, idx: u32, before: seq<byte>, steps: nat,
               now: seq<byte>, steps': nat, next: seq<byte>, steps'': nat)
    requires Exact(db, start, idx, before, steps, now, steps')
    requires Copied(now, steps', Label(db, idx), HereCost(db, idx), next, steps'')
    ensures Top(db, idx) ==> Copied(before, steps, Restore(db, start), RestoreCost(db, start), next, steps'')
    ensures !Top(db, idx) ==> Underway(db, start, Up(db, idx), before, steps, next, steps'' + 1)
  {
    hide Label, HereCost, WellFormed, Up, EndsAtLevelOne;
    WalkSplits(db, idx);
    var rest := if Top(db, idx) then [] else Restore(db, Up(db, idx));
    Seqs.Assoc(now, Label(db, idx), rest);
    Parts(before, Restore(db, start), now, Label(db, idx), rest, next);
  }

  lemma WalkSplits(db: FileNameDB, idx: u32)
    requires Restorable(db, idx)
    ensures Restore(db, idx) == Label(db, idx) + if Top(db, idx) then [] else Restore(db, Up(db, idx))
    ensures RestoreCost(db, idx) == HereCost(db, idx) + if Top(db, idx) then 0 else 1 + RestoreCost(db, Up(db, idx))
    ensures !Top(db, idx) ==> Restorable(db, Up(db, idx)) && Up(db, idx) < TWO32
  {
    hide Label, TablesOk, SlotOk, NodeOk;
  }

  lemma Parts<T>(before: seq<T>, full: seq<T>, now: seq<T>, part: seq<T>, rest: seq<T>, next: seq<T>)
    requires before <= now && now + (part + rest) == before + full
    requires now <= next <= now + part
    ensures before <= next <= before + full
    ensures next == now + part ==> next + rest == before + full
    ensures next == now + part && rest == [] ==> next == before + full
  {
    Seqs.Assoc(now, part, rest);
  }
}
