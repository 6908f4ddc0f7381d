// doSearch of internal/root/mndx/trie.go: a resumable depth-first enumerator
// that keeps one cursor per level and never recomputes a child range after the
// first node of a level.

module Enumerating {
  import opened Words
  import opened BitVectors
  import opened SparseArrays
  import opened Louds
  import BitEntries
  import Seqs
  import opened FileNames
  import opened Restoring
  import opened Preorder

  function NewPathStop(a: u32, b: u32, c: nat): PathStop { PathStop(a, b, c, INVALID, INVALID) }

  /** A cached rank: not yet computed, or one less than the rank of the next node of the level. */
  ghost predicate CacheOk(bits: Bits, cache: u32, next: nat) {
    cache == INVALID || cache + 1 == Rank(bits, true, next)
  }

  /** The next node of level k that enumeration has not visited, when levels below m are on the current path. */
  ghost function NextAt(stops: seq<PathStop>, m: nat, k: nat): nat
    requires k < |stops|
  {
    stops[k].LoBitsIndex + if k < m then 1 else 0
  }

  /** Level k's persistent cursor stands at the next unvisited bit of its level. */
  ghost predicate CursorOk(t: SparseArray, stops: seq<PathStop>, m: nat, k: nat)
    requires IsTree(t) && 1 <= k < |stops|
  {
    var above, here := stops[k - 1].LoBitsIndex, stops[k].LoBitsIndex;
    && above <= Nodes(t)
    && stops[k].Field4 == NextAt(stops, m, k) + above + 1
    && (k < m ==> above < Nodes(t) && First(t, above) <= here < First(t, above + 1))
    && (k == m ==> above < Nodes(t) && First(t, above) <= here <= First(t, above + 1))
    && (k > m ==> here == First(t, above))
  }

  ghost predicate CachesOk(db: FileNameDB, stops: seq<PathStop>, m: nat, k: nat)
    requires k < |stops|
  {
    && CacheOk(db.CollisionHiBitsIndexes.ItemBits, stops[k].HiBitsIndexPathFragment, NextAt(stops, m, k))
    && CacheOk(db.FileNameIndexes.ItemBits, stops[k].Field10, NextAt(stops, m, k))
  }

  ghost predicate AllCursors(t: SparseArray, stops: seq<PathStop>, m: nat)
    requires IsTree(t)
  {
    forall k :: 1 <= k < |stops| ==> CursorOk(t, stops, m, k)
  }

  ghost predicate AllCaches(db: FileNameDB, stops: seq<PathStop>, m: nat) {
    forall k :: 1 <= k < |stops| ==> CachesOk(db, stops, m, k)
  }

  /** The path buffer holds the path of the current node, and each active level knows its own length. */
  ghost predicate PathsOk(db: FileNameDB, stops: seq<PathStop>, m: nat, buf: seq<byte>)
    requires 1 <= m <= |stops|
  {
    && (forall k :: 0 <= k < m ==> stops[k].Count == |PathOf(db, stops[k].LoBitsIndex)|)
    && buf == PathOf(db, stops[m - 1].LoBitsIndex)
  }

  /** The all-levels invariant of the enumeration. */
  ghost predicate StackOk(db: FileNameDB, stops: seq<PathStop>, m: nat, buf: seq<byte>) {
    && IsTree(db.CollisionTable)
    && 1 <= m <= |stops|
    && stops[0].LoBitsIndex == 0
    && AllCursors(db.CollisionTable, stops, m)
    && AllCaches(db, stops, m)
    && PathsOk(db, stops, m, buf)
  }

  ghost predicate NodesBelow(t: SparseArray, stops: seq<PathStop>, j: nat) {
    j <= |stops| && forall k :: 0 <= k < j ==> stops[k].LoBitsIndex < Nodes(t)
  }

  /** Nodes still to be visited: on level j from next on, then on the levels above. */
  ghost function Todo(t: SparseArray, stops: seq<PathStop>, j: nat, next: nat): seq<nat>
    requires IsTree(t) && 1 <= j && NodesBelow(t, stops, j)
  {
    var v := stops[j - 1].LoBitsIndex;
    Pre(t, next, First(t, v + 1)) + if j == 1 then [] else Todo(t, stops, j - 1, v + 1)
  }

  ghost function NextNode(t: SparseArray, stops: seq<PathStop>, m: nat): nat
    requires IsTree(t) && 1 <= m && NodesBelow(t, stops, m)
  {
    if m < |stops| then stops[m].LoBitsIndex else First(t, stops[m - 1].LoBitsIndex)
  }

  ghost function Pending(db: FileNameDB, stops: seq<PathStop>, m: nat): seq<nat>
    requires IsTree(db.CollisionTable) && 1 <= m && NodesBelow(db.CollisionTable, stops, m)
  {
    Todo(db.CollisionTable, stops, m, NextNode(db.CollisionTable, stops, m))
  }

  lemma ActiveNodes(db: FileNameDB, stops: seq<PathStop>, m: nat, buf: seq<byte>)
    requires StackOk(db, stops, m, buf)
    ensures NodesBelow(db.CollisionTable, stops, m)
  {
    hide Shape, First, Nodes, PathOf, CachesOk, Present;
    var t := db.CollisionTable;
    RootFacts(t);
    forall k | 0 <= k < m
      ensures stops[k].LoBitsIndex < Nodes(t)
    {
      if k > 0 {
        assert CursorOk(t, stops, m, k);
      }
    }
  }

  lemma {:induction false} TodoFrame(t: SparseArray, s1: seq<PathStop>, s2: seq<PathStop>, j: nat, next: nat)
    requires IsTree(t) && 1 <= j && NodesBelow(t, s1, j) && NodesBelow(t, s2, j)
    requires forall k :: 0 <= k < j ==> s1[k].LoBitsIndex == s2[k].LoBitsIndex
    ensures Todo(t, s1, j, next) == Todo(t, s2, j, next)
  {
    hide Shape, First, Nodes, Pre;
    if j > 1 {
      TodoFrame(t, s1, s2, j - 1, s1[j - 1].LoBitsIndex + 1);
    }
  }

  /** A level visited for the first time starts at the first child of the level above. */
  lemma PushStep(db: FileNameDB, stops: seq<PathStop>, m: nat, buf: seq<byte>, stops': seq<PathStop>, start: u32)
    requires StackOk(db, stops, m, buf) && m == |stops|
    requires NodesBelow(db.CollisionTable, stops, m)
    requires var v := stops[m - 1].LoBitsIndex;
             start == First(db.CollisionTable, v) + v + 1 && start - v - 1 < TWO32
             && stops' == stops + [NewPathStop(start - v - 1, start, 0)]
    ensures StackOk(db, stops', m, buf)
    ensures NodesBelow(db.CollisionTable, stops', m)
    ensures Pending(db, stops', m) == Pending(db, stops, m)
  {
    hide Shape, First, Nodes, Pre, PathOf, Present, Rank;
    var t := db.CollisionTable;
    var v := stops[m - 1].LoBitsIndex;
    FirstMono(t, v, v + 1);
    TodoFrame(t, stops, stops', m, First(t, v));
    forall k | 1 <= k < |stops'|
      ensures CursorOk(t, stops', m, k) && CachesOk(db, stops', m, k)
    {
      if k < m {
        assert CursorOk(t, stops, m, k) && CachesOk(db, stops, m, k);
      }
    }
  }

  /** The stop of level m after its next node was visited. */
  ghost predicate Advanced(db: FileNameDB, was: PathStop, now: PathStop, length: nat) {
    && now.LoBitsIndex == was.LoBitsIndex
    && now.Field4 == was.Field4 + 1
    && now.Count == length
    && CacheOk(db.CollisionHiBitsIndexes.ItemBits, now.HiBitsIndexPathFragment, was.LoBitsIndex + 1)
    && CacheOk(db.FileNameIndexes.ItemBits, now.Field10, was.LoBitsIndex + 1)
  }

  /** A set bit under the cursor: the next node of the level becomes the current one. */
  lemma VisitStep(db: FileNameDB, stops: seq<PathStop>, m: nat, buf: seq<byte>, now: PathStop, buf': seq<byte>)
    requires StackOk(db, stops, m, buf) && m < |stops|
    requires NodesBelow(db.CollisionTable, stops, m)
    requires stops[m].LoBitsIndex < First(db.CollisionTable, stops[m - 1].LoBitsIndex + 1)
    requires buf' == buf + Label(db, stops[m].LoBitsIndex)
    requires Advanced(db, stops[m], now, |buf'|)
    ensures var v := stops[m].LoBitsIndex;
            && buf' == PathOf(db, v)
            && StackOk(db, stops[m := now], m + 1, buf')
            && NodesBelow(db.CollisionTable, stops[m := now], m + 1)
            && Pending(db, stops, m) == [v] + Pending(db, stops[m := now], m + 1)
  {
    hide Shape, Present, Rank, Label, AllCaches, AllCursors, Pending;
    var t := db.CollisionTable;
    var v, above := stops[m].LoBitsIndex, stops[m - 1].LoBitsIndex;
    var stops' := stops[m := now];
    assert CursorOk(t, stops, m, m) by { ACursor(t, stops, m, m); }
    ChildOf(db, above, v);
    VisitCursors(db, stops, m, buf, now);
    VisitCaches(db, stops, m, buf, now, buf');
    VisitPending(db, stops, m, buf, now);
  }

  lemma ACursor(t: SparseArray, stops: seq<PathStop>, m: nat, k: nat)
    requires IsTree(t) && AllCursors(t, stops, m) && 1 <= k < |stops|
    ensures CursorOk(t, stops, m, k)
  {
    hide Shape, CursorOk;
  }

  lemma ChildOf(db: FileNameDB, above: nat, v: nat)
    requires IsTree(db.CollisionTable) && above < db.Size()
    requires First(db.CollisionTable, above) <= v < First(db.CollisionTable, above + 1)
    ensures v < db.Size() && 1 <= v && Up(db, v) == above
    ensures PathOf(db, v) == PathOf(db, above) + Label(db, v)
  {
    hide Shape, Label;
    ChildrenAreRun(db.CollisionTable, above, v);
    FirstAhead(db.CollisionTable, above);
  }

  lemma VisitCursors(db: FileNameDB, stops: seq<PathStop>, m: nat, buf: seq<byte>, now: PathStop)
    requires StackOk(db, stops, m, buf) && m < |stops|
    requires NodesBelow(db.CollisionTable, stops, m)
    requires stops[m].LoBitsIndex < First(db.CollisionTable, stops[m - 1].LoBitsIndex + 1)
    requires now.LoBitsIndex == stops[m].LoBitsIndex < db.Size() && now.Field4 == stops[m].Field4 + 1
    ensures AllCursors(db.CollisionTable, stops[m := now], m + 1)
  {
    hide Shape, Present, First, Nodes, CachesOk, PathsOk;
    var t := db.CollisionTable;
    var v: nat := stops[m].LoBitsIndex;
    FirstMono(t, v, v + 1);
    var stops', m' := stops[m := now], m + 1;
    forall k | 1 <= k < |stops'|
      ensures CursorOk(t, stops', m', k)
    {
      assert CursorOk(t, stops, m, k);
    }
  }

  lemma VisitCaches(db: FileNameDB, stops: seq<PathStop>, m: nat, buf: seq<byte>, now: PathStop, buf': seq<byte>)
    requires StackOk(db, stops, m, buf) && m < |stops|
    requires Advanced(db, stops[m], now, |buf'|)
    requires buf' == PathOf(db, stops[m].LoBitsIndex)
    ensures AllCaches(db, stops[m := now], m + 1)
    ensures PathsOk(db, stops[m := now], m + 1, buf')
  {
    hide Shape, Present, First, Nodes, CursorOk, CacheOk, PathOf;
    var stops', m' := stops[m := now], m + 1;
    forall k | 1 <= k < |stops'|
      ensures CachesOk(db, stops', m', k)
    {
      assert CachesOk(db, stops, m, k);
    }
  }

  lemma VisitPending(db: FileNameDB, stops: seq<PathStop>, m: nat, buf: seq<byte>, now: PathStop)
    requires StackOk(db, stops, m, buf) && m < |stops|
    requires NodesBelow(db.CollisionTable, stops, m)
    requires now.LoBitsIndex == stops[m].LoBitsIndex < db.Size()
    requires stops[m].LoBitsIndex < First(db.CollisionTable, stops[m - 1].LoBitsIndex + 1)
    ensures NodesBelow(db.CollisionTable, stops[m := now], m + 1)
    ensures Pending(db, stops, m) == [stops[m].LoBitsIndex] + Pending(db, stops[m := now], m + 1)
  {
    hide Shape, Present, First, Nodes, AllCaches, PathsOk, Pre, Todo;
    var t := db.CollisionTable;
    var stops' := stops[m := now];
    var v: nat := stops[m].LoBitsIndex;
    if m + 1 < |stops| {
      assert CursorOk(t, stops, m, m + 1);
    }
    assert NextNode(t, stops', m + 1) == First(t, v);
    TodoFrame(t, stops, stops', m, v + 1);
    TodoSplits(t, stops, m, v);
    TodoUnfold(t, stops', m + 1, First(t, v));
  }

  lemma TodoUnfold(t: SparseArray, stops: seq<PathStop>, j: nat, next: nat)
    requires IsTree(t) && 1 <= j && NodesBelow(t, stops, j)
    ensures var v := stops[j - 1].LoBitsIndex;
            Todo(t, stops, j, next)
              == Pre(t, next, First(t, v + 1)) + if j == 1 then [] else Todo(t, stops, j - 1, v + 1)
  {
    hide Shape, Present, First, Nodes, Pre;
  }

  lemma TodoSplits(t: SparseArray, stops: seq<PathStop>, m: nat, v: nat)
    requires IsTree(t) && 1 <= m && NodesBelow(t, stops, m)
    requires v < First(t, stops[m - 1].LoBitsIndex + 1)
    ensures v < Nodes(t)
    ensures Todo(t, stops, m, v) == [v] + (Pre(t, First(t, v), First(t, v + 1)) + Todo(t, stops, m, v + 1))
  {
    hide Shape, Present, First, Nodes, Pre, Todo;
    var w: nat := stops[m - 1].LoBitsIndex;
    TodoUnfold(t, stops, m, v);
    TodoUnfold(t, stops, m, v + 1);
    PreSplits(t, v, First(t, w + 1));
    var upper := if m == 1 then [] else Todo(t, stops, m - 1, w + 1);
    Seqs.Assoc4([v], Pre(t, First(t, v), First(t, v + 1)), Pre(t, v + 1, First(t, w + 1)), upper);
  }

  lemma PreSplits(t: SparseArray, lo: nat, hi: nat)
    requires IsTree(t) && lo < hi <= Nodes(t)
    ensures Pre(t, lo, hi) == [lo] + Pre(t, First(t, lo), First(t, lo + 1)) + Pre(t, lo + 1, hi)
  {
    hide Shape, Present, First, Nodes;
  }

  /** A clear bit under the cursor: back to the level above, whose node is done. */
  lemma PopStep(db: FileNameDB, stops: seq<PathStop>, m: nat, buf: seq<byte>, stops': seq<PathStop>)
    requires StackOk(db, stops, m, buf) && 2 <= m < |stops|
    requires NodesBelow(db.CollisionTable, stops, m)
    requires stops[m].LoBitsIndex == First(db.CollisionTable, stops[m - 1].LoBitsIndex + 1)
    requires stops[m].Field4 + 1 < TWO32 && stops[m - 1].LoBitsIndex + 1 < TWO32
    requires stops' == stops[m := stops[m].(Field4 := stops[m].Field4 + 1)]
                            [m - 1 := stops[m - 1].(LoBitsIndex := stops[m - 1].LoBitsIndex + 1)]
    ensures var edi := stops[m - 2].Count;
            && edi <= |buf|
            && StackOk(db, stops', m - 1, buf[..edi])
            && NodesBelow(db.CollisionTable, stops', m - 1)
            && Pending(db, stops', m - 1) == Pending(db, stops, m)
  {
    hide Shape, Present, Rank, Label, CachesOk, CursorOk, Pre;
    PopCursors(db, stops, m, buf, stops');
    PopCaches(db, stops, m, buf, stops');
    var t := db.CollisionTable;
    assert CursorOk(t, stops, m, m - 1);
    ParentPath(db, stops, m, buf);
    TodoFrame(t, stops, stops', m - 1, stops[m - 1].LoBitsIndex + 1);
    EmptyPre(t, stops[m].LoBitsIndex);
  }

  lemma EmptyPre(t: SparseArray, lo: nat)
    requires IsTree(t) && lo <= Nodes(t)
    ensures Pre(t, lo, lo) == []
  {
  }

  lemma ParentPath(db: FileNameDB, stops: seq<PathStop>, m: nat, buf: seq<byte>)
    requires StackOk(db, stops, m, buf) && 2 <= m
    ensures stops[m - 2].Count <= |buf|
    ensures buf[..stops[m - 2].Count] == PathOf(db, stops[m - 2].LoBitsIndex)
  {
    hide Shape, Present, Rank, Label, CachesOk, PathOf;
    assert CursorOk(db.CollisionTable, stops, m, m - 1);
    ChildOf(db, stops[m - 2].LoBitsIndex, stops[m - 1].LoBitsIndex);
  }

  lemma PopCursors(db: FileNameDB, stops: seq<PathStop>, m: nat, buf: seq<byte>, stops': seq<PathStop>)
    requires StackOk(db, stops, m, buf) && 2 <= m < |stops|
    requires NodesBelow(db.CollisionTable, stops, m)
    requires stops[m].LoBitsIndex == First(db.CollisionTable, stops[m - 1].LoBitsIndex + 1)
    requires stops[m].Field4 + 1 < TWO32 && stops[m - 1].LoBitsIndex + 1 < TWO32
    requires stops' == stops[m := stops[m].(Field4 := stops[m].Field4 + 1)]
                            [m - 1 := stops[m - 1].(LoBitsIndex := stops[m - 1].LoBitsIndex + 1)]
    ensures AllCursors(db.CollisionTable, stops', m - 1)
  {
    hide Shape, Present, First, Nodes, CachesOk, PathsOk;
    var t := db.CollisionTable;
    var m' := m - 1;
    forall k | 1 <= k < |stops'|
      ensures CursorOk(t, stops', m', k)
    {
      assert CursorOk(t, stops, m, k);
    }
  }

  lemma PopCaches(db: FileNameDB, stops: seq<PathStop>, m: nat, buf: seq<byte>, stops': seq<PathStop>)
    requires StackOk(db, stops, m, buf) && 2 <= m < |stops|
    requires stops[m].Field4 + 1 < TWO32 && stops[m - 1].LoBitsIndex + 1 < TWO32
    requires stops' == stops[m := stops[m].(Field4 := stops[m].Field4 + 1)]
                            [m - 1 := stops[m - 1].(LoBitsIndex := stops[m - 1].LoBitsIndex + 1)]
    ensures AllCaches(db, stops', m - 1)
  {
    hide Shape, Present, First, Nodes, CursorOk, CacheOk, PathsOk;
    var m' := m - 1;
    forall k | 1 <= k < |stops'|
      ensures CachesOk(db, stops', m', k)
    {
      assert CachesOk(db, stops, m, k);
    }
  }

  /** The bottom level is exhausted: nothing is left. */
  lemma DoneStep(db: FileNameDB, stops: seq<PathStop>, buf: seq<byte>)
    requires StackOk(db, stops, 1, buf) && 1 < |stops|
    requires NodesBelow(db.CollisionTable, stops, 1)
    requires stops[1].LoBitsIndex == First(db.CollisionTable, stops[0].LoBitsIndex + 1)
    ensures Pending(db, stops, 1) == []
  {
    hide Shape, Present;
    EmptyPre(db.CollisionTable, stops[1].LoBitsIndex);
  }

  /** What the bit under the cursor says. */
  lemma CursorReads(db: FileNameDB, stops: seq<PathStop>, m: nat, buf: seq<byte>)
    requires StackOk(db, stops, m, buf) && m < |stops|
    ensures stops[m - 1].LoBitsIndex < db.Size()
    ensures var next := First(db.CollisionTable, stops[m - 1].LoBitsIndex + 1);
            && (db.CollisionTable.IsItemPresent(stops[m].Field4) <==> stops[m].LoBitsIndex < next)
            && stops[m].LoBitsIndex <= next <= db.Size()
    ensures stops[m].Field4 + 1 < TWO32
  {
    hide Shape, Present, First, CachesOk, PathsOk;
    var t := db.CollisionTable;
    assert CursorOk(t, stops, m, m);
    CursorBit(t, stops[m - 1].LoBitsIndex, stops[m].LoBitsIndex);
  }

  /** getPathFragmentOffset2: the string rank is computed once per level, then counted. */
  method FragmentOffset2(db: FileNameDB, hiBits: u32, loBitsIdx: u32) returns (r: u32, hi: u32)
    ensures TablesOk(db) && loBitsIdx < db.Size() && CacheOk(db.CollisionHiBitsIndexes.ItemBits, hiBits, loBitsIdx) ==>
      r == FragmentOffset(db, loBitsIdx) && hi == db.StringRank(loBitsIdx)
  {
    hide Present, Rank, BitEntries.SliceValue, SparseArray.WellFormed, TablesOk, BitEntries.BitEntryArray.WellFormed, CacheOk,
         Wrap;
    var lo: byte := 0;
    if loBitsIdx < |db.LoBitsTable| {
      lo := db.LoBitsTable[loBitsIdx];
    }
    if hiBits == INVALID {
      hi := db.CollisionHiBitsIndexes.GetItemValueAt(loBitsIdx);
    } else {
      hi := Wrap(hiBits as int + 1);
    }
    var v := db.HiBitsTable.Get(hi);
    r := Wrap(256 * v + lo);
    if TablesOk(db) && loBitsIdx < db.Size() {
      RankFits(db, loBitsIdx);
      CountedRank(db, hiBits, loBitsIdx);
    }
  }

  /** Unless it is still unknown, the cached rank is one short of the rank of the next node. */
  lemma CountedRank(db: FileNameDB, hiBits: u32, loBitsIdx: u32)
    requires db.StringRank(loBitsIdx) < INVALID
    ensures CacheOk(db.CollisionHiBitsIndexes.ItemBits, hiBits, loBitsIdx) && hiBits != INVALID ==>
      Wrap(hiBits as int + 1) == db.StringRank(loBitsIdx)
  {
    hide Present, Rank;
  }

  /** What the caller of doSearch may rely on: the invariant, unless the step cap was hit. */
  ghost predicate Ready(db: FileNameDB, sr: MndxSearch)
    reads sr
  {
    && WellFormed(db)
    && (sr.SearchPhase == SearchInit ==> sr.searchMask == [])
    && (sr.SearchPhase == SearchSearching && sr.totalSteps < MAX_TRIE_STEPS ==>
          StackOk(db, sr.PathStops, sr.ItemCount, sr.PathBuffer))
  }

  /** The names not yet reported. */
  ghost function Remaining(db: FileNameDB, sr: MndxSearch): seq<(seq<byte>, nat)>
    requires Ready(db, sr) && sr.totalSteps < MAX_TRIE_STEPS
    reads sr
  {
    match sr.SearchPhase
    case SearchInit => AllNames(db)
    case SearchFinished => []
    case SearchSearching =>
      ActiveNodes(db, sr.PathStops, sr.ItemCount, sr.PathBuffer);
      Names(db, Pending(db, sr.PathStops, sr.ItemCount))
  }

  /** Steps taken so far and steps still needed, together. */
  ghost function Budget(db: FileNameDB, sr: MndxSearch): nat
    requires Ready(db, sr) && sr.totalSteps < MAX_TRIE_STEPS
    reads sr
  {
    match sr.SearchPhase
    case SearchInit => sr.totalSteps + TotalWork(db)
    case SearchFinished => sr.totalSteps
    case SearchSearching =>
      ActiveNodes(db, sr.PathStops, sr.ItemCount, sr.PathBuffer);
      sr.totalSteps + Work(db, Pending(db, sr.PathStops, sr.ItemCount)) + (sr.ItemCount - 1)
  }

  /** Exact so far: the rest of the run reports names and spends steps as promised; or the cap was hit. */
  ghost predicate OnTrack(db: FileNameDB, stops: seq<PathStop>, m: nat, buf: seq<byte>, steps: nat,
                          names: seq<(seq<byte>, nat)>, budget: nat)
  {
    steps < MAX_TRIE_STEPS ==>
      && StackOk(db, stops, m, buf)
      && NodesBelow(db.CollisionTable, stops, m)
      && Names(db, Pending(db, stops, m)) == names
      && steps + Work(db, Pending(db, stops, m)) + (m - 1) == budget
  }

  lemma HeadAccounts(db: FileNameDB, v: nat, rest: seq<nat>)
    ensures Names(db, [v] + rest)
         == (if db.IsTerminal(v) then [(PathOf(db, v), db.TerminalRank(v))] else []) + Names(db, rest)
    ensures Work(db, [v] + rest) == LabelCost(db, v) + 1 + (if db.IsTerminal(v) then 0 else 1) + Work(db, rest)
  {
    hide Present, PathOf, Rank, LabelCost;
    assert ([v] + rest)[1..] == rest;
  }

  /** First visit to a level: append its stop. */
  method PushLevel(db: FileNameDB, sr: MndxSearch, ghost names: seq<(seq<byte>, nat)>, ghost budget: nat)
    requires WellFormed(db) && sr.totalSteps < MAX_TRIE_STEPS
    requires OnTrack(db, sr.PathStops, sr.ItemCount, sr.PathBuffer, sr.totalSteps, names, budget)
    requires sr.ItemCount == |sr.PathStops|
    modifies sr`PathStops
    ensures sr.ItemCount < |sr.PathStops|
    ensures OnTrack(db, sr.PathStops, sr.ItemCount, sr.PathBuffer, sr.totalSteps, names, budget)
  {
    hide SlotOk, NodeOk, StackOk, Pending, Names, Work, Navigable, EndsAtLevelOne, CursorOk, Present, First, RankReady;
    ActiveNodes(db, sr.PathStops, sr.ItemCount, sr.PathBuffer);
    StackSize(db, sr.PathStops, sr.ItemCount, sr.PathBuffer);
    var last := sr.PathStops[|sr.PathStops| - 1];
    var start := RunStart(db.CollisionTable, last.LoBitsIndex);
    RunFits(db, last.LoBitsIndex);
    ghost var stops := sr.PathStops;
    sr.PathStops := sr.PathStops + [NewPathStop(Wrap(start.value - last.LoBitsIndex - 1), start.value, 0)];
    PushStep(db, stops, sr.ItemCount, sr.PathBuffer, sr.PathStops, start.value);
  }

  lemma StackSize(db: FileNameDB, stops: seq<PathStop>, m: nat, buf: seq<byte>)
    requires StackOk(db, stops, m, buf)
    ensures 1 <= m <= |stops| && IsTree(db.CollisionTable)
  {
  }

  lemma RunFits(db: FileNameDB, v: nat)
    requires TablesOk(db) && v < db.Size()
    ensures IsTree(db.CollisionTable)
    ensures First(db.CollisionTable, v) + v + 1 < TWO32
    ensures Wrap(First(db.CollisionTable, v) + v + 1 - v - 1) == First(db.CollisionTable, v)
  {
    hide First, Shape, RankReady;
    CursorBitLimit(db.CollisionTable, v);
  }

  lemma CursorBitLimit(t: SparseArray, v: nat)
    requires IsTree(t) && v < Nodes(t)
    ensures First(t, v) + v + 1 < t.TotalItemCount
  {
    hide First, Nodes, Shape;
    FirstMono(t, v, v + 1);
    CursorBit(t, v, First(t, v));
  }

  /** What is known on entering the next node of level m. */
  lemma VisitFacts(db: FileNameDB, stops: seq<PathStop>, m: nat, buf: seq<byte>)
    requires WellFormed(db) && StackOk(db, stops, m, buf) && m < |stops|
    requires db.CollisionTable.IsItemPresent(stops[m].Field4)
    ensures NodesBelow(db.CollisionTable, stops, m)
    ensures var v := stops[m].LoBitsIndex;
            && v < First(db.CollisionTable, stops[m - 1].LoBitsIndex + 1)
            && 1 <= v < db.Size()
            && CacheOk(db.CollisionHiBitsIndexes.ItemBits, stops[m].HiBitsIndexPathFragment, v)
            && CacheOk(db.FileNameIndexes.ItemBits, stops[m].Field10, v)
    ensures Wrap(stops[m].Field4 as int + 1) == stops[m].Field4 + 1
    ensures TablesOk(db)
  {
    hide Shape, First, Nodes, PathOf, Present, Rank, SlotOk, NodeOk, CacheOk, EndsAtLevelOne, Navigable, RankReady;
    ActiveNodes(db, stops, m, buf);
    CursorReads(db, stops, m, buf);
    assert CursorOk(db.CollisionTable, stops, m, m);
    assert CachesOk(db, stops, m, m);
    ChildOf(db, stops[m - 1].LoBitsIndex, stops[m].LoBitsIndex);
  }

  lemma LabelFacts(db: FileNameDB, v: nat)
    requires WellFormed(db) && 1 <= v < db.Size()
    ensures db.IsPathFragmentString(v) ==>
      && FragmentExists(db, FragmentOffset(db, v))
      && Label(db, v) == Fragment(db, FragmentOffset(db, v))
      && LabelCost(db, v) == FragmentCost(db, FragmentOffset(db, v))
    ensures !db.IsPathFragmentString(v) ==>
      && LabelCost(db, v) == 0
      && Label(db, v) == if v < |db.LoBitsTable| then [db.LoBitsTable[v]] else []
  {
    hide TablesOk, SlotOk, EndsAtLevelOne, FragmentExists, FragmentOffset, Fragment, FragmentCost, Present;
    assert NodeOk(db, v);
  }

  lemma CacheAdvances(bits: Bits, cache: u32, v: nat)
    requires CacheOk(bits, cache, v)
    ensures !Present(bits, v) ==> CacheOk(bits, cache, v + 1)
    ensures Present(bits, v) ==> Rank(bits, true, v + 1) == Rank(bits, true, v) + 1
    ensures cache != INVALID ==> Wrap(cache as int + 1) == Rank(bits, true, v) || Rank(bits, true, v) == TWO32
  {
    hide Present;
  }

  lemma CacheFilled(db: FileNameDB, v: nat)
    requires TablesOk(db) && v < db.Size()
    ensures db.IsTerminal(v) ==>
      db.TerminalRank(v) < INVALID && CacheOk(db.FileNameIndexes.ItemBits, db.TerminalRank(v), v + 1)
    ensures db.IsPathFragmentString(v) ==>
      db.StringRank(v) < INVALID && CacheOk(db.CollisionHiBitsIndexes.ItemBits, db.StringRank(v), v + 1)
    ensures Rank(db.FileNameIndexes.ItemBits, true, v) < TWO32
    ensures db.FileNameIndexes.WellFormed() && v <= 512 * db.FileNameIndexes.Blocks()
  {
    hide Present, SparseArray.WellFormed, Navigable;
  }

  /** What is reported is the next name, whose path may be cut short. */
  ghost predicate Reported(path: seq<byte>, index: nat, names: seq<(seq<byte>, nat)>) {
    names != [] && path <= names[0].0 && index == names[0].1
  }

  /** The books after a visit. */
  lemma VisitDone(db: FileNameDB, stops: seq<PathStop>, m: nat, buf: seq<byte>, steps: nat,
                  names: seq<(seq<byte>, nat)>, budget: nat, now: PathStop, buf': seq<byte>, steps': nat)
    requires StackOk(db, stops, m, buf) && NodesBelow(db.CollisionTable, stops, m) && m < |stops|
    requires steps < MAX_TRIE_STEPS && OnTrack(db, stops, m, buf, steps, names, budget)
    requires stops[m].LoBitsIndex < First(db.CollisionTable, stops[m - 1].LoBitsIndex + 1)
    requires Copied(buf, steps, Label(db, stops[m].LoBitsIndex), LabelCost(db, stops[m].LoBitsIndex), buf', steps')
    requires Advanced(db, stops[m], now, |buf'|)
    ensures db.IsTerminal(stops[m].LoBitsIndex) ==> Reported(buf', db.TerminalRank(stops[m].LoBitsIndex), names)
    ensures db.IsTerminal(stops[m].LoBitsIndex) ==>
      && (budget < MAX_TRIE_STEPS ==> steps' < MAX_TRIE_STEPS)
      && (steps' < MAX_TRIE_STEPS ==>
            && names != [] && names[0] == (buf', db.TerminalRank(stops[m].LoBitsIndex))
            && OnTrack(db, stops[m := now], m + 1, buf', steps', names[1..], budget))
    ensures !db.IsTerminal(stops[m].LoBitsIndex) ==>
      && (budget < MAX_TRIE_STEPS ==> steps' + 1 < MAX_TRIE_STEPS)
      && OnTrack(db, stops[m := now], m + 1, buf', steps' + 1, names, budget)
  {
    hide StackOk, Pending, Names, Work, Present, First, Advanced, Label, LabelCost, PathOf, Rank, NodesBelow, Shape;
    StackSize(db, stops, m, buf);
    var v := stops[m].LoBitsIndex;
    if steps + LabelCost(db, v) < MAX_TRIE_STEPS {
      VisitStep(db, stops, m, buf, now, buf');
      var rest := Pending(db, stops[m := now], m + 1);
      HeadAccounts(db, v, rest);
    } else {
      PendingHead(db, stops, m, buf, now);
      HeadPath(db, stops, m, buf);
    }
  }

  /** The buffer and the next node's label make up the node's path. */
  lemma HeadPath(db: FileNameDB, stops: seq<PathStop>, m: nat, buf: seq<byte>)
    requires StackOk(db, stops, m, buf) && NodesBelow(db.CollisionTable, stops, m) && m < |stops|
    requires stops[m].LoBitsIndex < First(db.CollisionTable, stops[m - 1].LoBitsIndex + 1)
    ensures PathOf(db, stops[m].LoBitsIndex) == buf + Label(db, stops[m].LoBitsIndex)
  {
    hide Shape, Present, First, Nodes, AllCaches, Label;
    ACursor(db.CollisionTable, stops, m, m);
    ChildOf(db, stops[m - 1].LoBitsIndex, stops[m].LoBitsIndex);
  }

  /** The next node comes first among the pending ones, and its price is part of what is still to be paid. */
  lemma PendingHead(db: FileNameDB, stops: seq<PathStop>, m: nat, buf: seq<byte>, now: PathStop)
    requires StackOk(db, stops, m, buf) && NodesBelow(db.CollisionTable, stops, m) && m < |stops|
    requires stops[m].LoBitsIndex < First(db.CollisionTable, stops[m - 1].LoBitsIndex + 1)
    ensures LabelCost(db, stops[m].LoBitsIndex) <= Work(db, Pending(db, stops, m))
    ensures db.IsTerminal(stops[m].LoBitsIndex) ==>
              var v, names := stops[m].LoBitsIndex, Names(db, Pending(db, stops, m));
              names != [] && names[0] == (PathOf(db, v), db.TerminalRank(v))
  {
    hide Shape, Present, First, Nodes, Pre, Todo, LabelCost, PathsOk, AllCaches, AllCursors, Names, Work, PathOf;
    var v: nat := stops[m].LoBitsIndex;
    TodoSplits(db.CollisionTable, stops, m, v);
    HeadAccounts(db, v, Pre(db.CollisionTable, First(db.CollisionTable, v), First(db.CollisionTable, v + 1))
                        + Todo(db.CollisionTable, stops, m, v + 1));
  }

  /** A set bit under the cursor: enter the node, copy its label, and report it when it is a name. */
  method VisitNode(db: FileNameDB, sr: MndxSearch, ghost names: seq<(seq<byte>, nat)>, ghost budget: nat)
    returns (reported: bool)
    requires WellFormed(db) && sr.totalSteps < MAX_TRIE_STEPS
    requires OnTrack(db, sr.PathStops, sr.ItemCount, sr.PathBuffer, sr.totalSteps, names, budget)
    requires sr.ItemCount < |sr.PathStops|
    requires db.CollisionTable.IsItemPresent(sr.PathStops[sr.ItemCount].Field4)
    modifies sr`PathStops, sr`ItemCount, sr`PathBuffer, sr`foundPath, sr`foundIndex, sr`totalSteps
    ensures old(sr.totalSteps) <= sr.totalSteps
    ensures reported ==> Reported(sr.foundPath, sr.foundIndex, names)
    ensures reported ==>
      && (budget < MAX_TRIE_STEPS ==> sr.totalSteps < MAX_TRIE_STEPS)
      && (sr.totalSteps < MAX_TRIE_STEPS ==>
            && names != [] && (sr.foundPath, sr.foundIndex) == names[0]
            && OnTrack(db, sr.PathStops, sr.ItemCount, sr.PathBuffer, sr.totalSteps, names[1..], budget))
    ensures !reported ==>
      && (budget < MAX_TRIE_STEPS ==> sr.totalSteps + 1 < MAX_TRIE_STEPS)
      && OnTrack(db, sr.PathStops, sr.ItemCount, sr.PathBuffer, sr.totalSteps + 1, names, budget)
  {
    hide StackOk, Pending, Names, Work, Present, First, Label, LabelCost, PathOf, Rank, NodesBelow, WellFormed, TablesOk,
         CacheOk, Copied, FragmentExists, FragmentOffset, Fragment, FragmentCost, Shape, IsTree, SparseArray.WellFormed;
    ghost var stops, m, buf, steps := sr.PathStops, sr.ItemCount, sr.PathBuffer, sr.totalSteps;
    VisitFacts(db, stops, m, buf);
    var i := sr.ItemCount;
    var ps := sr.PathStops[i];
    ghost var v := ps.LoBitsIndex;
    LabelFacts(db, v);
    OneByte(buf, steps);
    CacheFilled(db, v);
    CacheAdvances(db.CollisionHiBitsIndexes.ItemBits, ps.HiBitsIndexPathFragment, v);
    CacheAdvances(db.FileNameIndexes.ItemBits, ps.Field10, v);
    ps := ps.(Field4 := Wrap(ps.Field4 as int + 1));
    sr.ItemCount := sr.ItemCount + 1;
    if db.IsPathFragmentString(ps.LoBitsIndex) {
      var fragOff, hi := FragmentOffset2(db, ps.HiBitsIndexPathFragment, ps.LoBitsIndex);
      ps := ps.(HiBitsIndexPathFragment := hi);
      var _ := CopyFragment(db, sr, fragOff);
    } else if ps.LoBitsIndex < |db.LoBitsTable| {
      sr.PathBuffer := sr.PathBuffer + [db.LoBitsTable[ps.LoBitsIndex]];
    }
    ps := ps.(Count := |sr.PathBuffer|);
    sr.PathStops := sr.PathStops[i := ps];
    assert Copied(buf, steps, Label(db, v), LabelCost(db, v), sr.PathBuffer, sr.totalSteps);
    if db.IsTerminal(ps.LoBitsIndex) {
      if ps.Field10 == INVALID {
        var rank := db.FileNameIndexes.GetItemValueAt(ps.LoBitsIndex);
        ps := ps.(Field10 := rank);
      } else {
        ps := ps.(Field10 := Wrap(ps.Field10 as int + 1));
      }
      sr.PathStops := sr.PathStops[i := ps];
      sr.foundPath := sr.PathBuffer;
      sr.foundIndex := ps.Field10;
      reported := true;
    } else {
      reported := false;
    }
    assert Advanced(db, stops[m], ps, |sr.PathBuffer|);
    VisitDone(db, stops, m, buf, steps, names, budget, ps, sr.PathBuffer, sr.totalSteps);
    assert sr.PathStops == stops[m := ps];
  }

  /** A clear bit under the cursor, above the bottom level: the node of the level above is done. */
  method LeaveNode(db: FileNameDB, sr: MndxSearch, ghost names: seq<(seq<byte>, nat)>, ghost budget: nat)
    requires WellFormed(db) && sr.totalSteps < MAX_TRIE_STEPS
    requires OnTrack(db, sr.PathStops, sr.ItemCount, sr.PathBuffer, sr.totalSteps, names, budget)
    requires 2 <= sr.ItemCount < |sr.PathStops|
    requires !db.CollisionTable.IsItemPresent(sr.PathStops[sr.ItemCount].Field4)
    modifies sr`PathStops, sr`ItemCount, sr`PathBuffer
    ensures OnTrack(db, sr.PathStops, sr.ItemCount, sr.PathBuffer, sr.totalSteps + 1, names, budget)
    ensures budget < MAX_TRIE_STEPS ==> sr.totalSteps + 1 < MAX_TRIE_STEPS
  {
    hide StackOk, Pending, Names, Work, Present, First, PathOf, Rank, NodesBelow, WellFormed, TablesOk,
         Shape, IsTree, SparseArray.WellFormed;
    ghost var stops, m, buf := sr.PathStops, sr.ItemCount, sr.PathBuffer;
    LeaveFacts(db, stops, m, buf);
    var i := sr.ItemCount;
    var ps := sr.PathStops[i];
    sr.PathStops := sr.PathStops[i := ps.(Field4 := Wrap(ps.Field4 as int + 1))];
    var above := sr.PathStops[i - 1];
    sr.PathStops := sr.PathStops[i - 1 := above.(LoBitsIndex := Wrap(above.LoBitsIndex as int + 1))];
    PopStep(db, stops, m, buf, sr.PathStops);
    var edi := sr.PathStops[i - 2].Count;
    sr.PathBuffer := sr.PathBuffer[..edi];
    sr.ItemCount := i - 1;
  }

  lemma LeaveFacts(db: FileNameDB, stops: seq<PathStop>, m: nat, buf: seq<byte>)
    requires WellFormed(db) && StackOk(db, stops, m, buf) && m < |stops|
    requires !db.CollisionTable.IsItemPresent(stops[m].Field4)
    ensures NodesBelow(db.CollisionTable, stops, m)
    ensures stops[m].LoBitsIndex == First(db.CollisionTable, stops[m - 1].LoBitsIndex + 1)
    ensures Wrap(stops[m].Field4 as int + 1) == stops[m].Field4 + 1
    ensures Wrap(stops[m - 1].LoBitsIndex as int + 1) == stops[m - 1].LoBitsIndex + 1
  {
    hide Shape, First, Nodes, PathOf, Present, Rank, SlotOk, NodeOk, CacheOk, EndsAtLevelOne, Navigable, RankReady;
    ActiveNodes(db, stops, m, buf);
    CursorReads(db, stops, m, buf);
  }

  /** The searching phase of doSearch. */
  method Advance(db: FileNameDB, sr: MndxSearch, ghost names: seq<(seq<byte>, nat)>, ghost budget: nat)
    returns (found: bool)
    requires WellFormed(db) && sr.SearchPhase == SearchSearching
    requires OnTrack(db, sr.PathStops, sr.ItemCount, sr.PathBuffer, sr.totalSteps, names, budget)
    modifies sr
    ensures sr.SearchPhase == if found then SearchSearching else SearchFinished
    ensures sr.searchMask == old(sr.searchMask) && old(sr.totalSteps) <= sr.totalSteps
    ensures old(sr.totalSteps) >= MAX_TRIE_STEPS ==> !found
    ensures old(sr.totalSteps) < MAX_TRIE_STEPS && budget < MAX_TRIE_STEPS ==> sr.totalSteps < MAX_TRIE_STEPS
    ensures found ==> Reported(sr.foundPath, sr.foundIndex, names)
    ensures found && sr.totalSteps < MAX_TRIE_STEPS ==>
      && names != [] && (sr.foundPath, sr.foundIndex) == names[0]
      && OnTrack(db, sr.PathStops, sr.ItemCount, sr.PathBuffer, sr.totalSteps, names[1..], budget)
    ensures !found && sr.totalSteps < MAX_TRIE_STEPS ==> names == [] && sr.totalSteps == budget
  {
    hide StackOk, Pending, Names, Work, Present, First, PathOf, Rank, NodesBelow, WellFormed, TablesOk,
         Shape, IsTree, SparseArray.WellFormed, OnTrack;
    while sr.totalSteps < MAX_TRIE_STEPS
      invariant sr.SearchPhase == SearchSearching
      invariant sr.searchMask == old(sr.searchMask) && old(sr.totalSteps) <= sr.totalSteps
      invariant OnTrack(db, sr.PathStops, sr.ItemCount, sr.PathBuffer, sr.totalSteps, names, budget)
      invariant old(sr.totalSteps) < MAX_TRIE_STEPS && budget < MAX_TRIE_STEPS ==> sr.totalSteps < MAX_TRIE_STEPS
      decreases MAX_TRIE_STEPS - sr.totalSteps
    {
      TrackSize(db, sr.PathStops, sr.ItemCount, sr.PathBuffer, sr.totalSteps, names, budget);
      if sr.ItemCount == |sr.PathStops| {
        PushLevel(db, sr, names, budget);
      }
      if db.CollisionTable.IsItemPresent(sr.PathStops[sr.ItemCount].Field4) {
        var reported := VisitNode(db, sr, names, budget);
        if reported {
          return true;
        }
      } else {
        if sr.ItemCount == 1 {
          TrackDone(db, sr.PathStops, sr.PathBuffer, sr.totalSteps, names, budget);
          sr.SearchPhase := SearchFinished;
          return false;
        }
        LeaveNode(db, sr, names, budget);
      }
      sr.totalSteps := sr.totalSteps + 1;
    }
    sr.SearchPhase := SearchFinished;
    return false;
  }

  lemma TrackSize(db: FileNameDB, stops: seq<PathStop>, m: nat, buf: seq<byte>, steps: nat,
                  names: seq<(seq<byte>, nat)>, budget: nat)
    requires OnTrack(db, stops, m, buf, steps, names, budget) && steps < MAX_TRIE_STEPS
    ensures 1 <= m <= |stops|
  {
    hide Pending, Names, Work, Present, First, AllCaches, AllCursors, PathsOk, Shape;
  }

  lemma TrackDone(db: FileNameDB, stops: seq<PathStop>, buf: seq<byte>, steps: nat,
                  names: seq<(seq<byte>, nat)>, budget: nat)
    requires WellFormed(db) && OnTrack(db, stops, 1, buf, steps, names, budget) && steps < MAX_TRIE_STEPS
    requires 1 < |stops| && !db.CollisionTable.IsItemPresent(stops[1].Field4)
    ensures names == [] && steps == budget
  {
    hide StackOk, Pending, Present, First, PathOf, Rank, NodesBelow, WellFormed, Shape, IsTree, SparseArray.WellFormed;
    LeaveFacts(db, stops, 1, buf);
    DoneStep(db, stops, buf);
  }

  /** doSearch with an empty mask: report the next name, or stop. */
  method DoSearch(db: FileNameDB, sr: MndxSearch) returns (found: bool)
    requires Ready(db, sr)
    modifies sr
    ensures Ready(db, sr) && sr.SearchPhase != SearchInit
    ensures old(sr.totalSteps) <= sr.totalSteps
    ensures old(sr.totalSteps) >= MAX_TRIE_STEPS && old(sr.SearchPhase) != SearchInit ==> !found
    ensures old(sr.totalSteps) < MAX_TRIE_STEPS && old(Budget(db, sr)) < MAX_TRIE_STEPS ==> sr.totalSteps < MAX_TRIE_STEPS
    ensures sr.totalSteps < MAX_TRIE_STEPS ==>
      (found <==> old(Remaining(db, sr)) != []) && (!found ==> sr.SearchPhase == SearchFinished)
    ensures sr.totalSteps < MAX_TRIE_STEPS && found ==>
      && (sr.foundPath, sr.foundIndex) == old(Remaining(db, sr))[0]
      && Remaining(db, sr) == old(Remaining(db, sr))[1..]
    ensures sr.totalSteps < MAX_TRIE_STEPS ==> Budget(db, sr) == old(Budget(db, sr))
    ensures old(sr.totalSteps) < MAX_TRIE_STEPS && found ==>
      Reported(sr.foundPath, sr.foundIndex, old(Remaining(db, sr)))
  {
    hide StackOk, Pending, Names, Work, Present, First, PathOf, Rank, WellFormed, TablesOk, Label, LabelCost,
         Shape, SparseArray.WellFormed, AllNames, TotalWork;
    ghost var capped := sr.totalSteps >= MAX_TRIE_STEPS;
    ghost var names, budget := if capped then [] else Remaining(db, sr), if capped then 0 else Budget(db, sr);
    if sr.SearchPhase == SearchInit {
      sr.PathBuffer, sr.PathLength, sr.NodeIndex := [], 0, 0;
      sr.SearchPhase := SearchSearching;
      sr.PathStops := [NewPathStop(sr.NodeIndex, 0, |sr.PathBuffer|)];
      sr.ItemCount := 1;
      RootStarts(db, sr.PathStops);
      if db.IsTerminal(sr.NodeIndex) {
        sr.foundPath := sr.PathBuffer;
        sr.foundIndex := db.FileNameIndexes.GetItemValueAt(sr.NodeIndex);
        return true;
      }
    }
    if sr.SearchPhase != SearchSearching {
      return false;
    }
    if !capped {
      NowTracked(db, sr.PathStops, sr.ItemCount, sr.PathBuffer);
    }
    found := Advance(db, sr, names, budget);
  }

  lemma NowTracked(db: FileNameDB, stops: seq<PathStop>, m: nat, buf: seq<byte>)
    requires StackOk(db, stops, m, buf)
    ensures NodesBelow(db.CollisionTable, stops, m)
  {
    ActiveNodes(db, stops, m, buf);
  }

  /** The start of an enumeration: the root is current, all its descendants are pending. */
  lemma RootStarts(db: FileNameDB, stops: seq<PathStop>)
    requires WellFormed(db) && stops == [NewPathStop(0, 0, 0)]
    ensures StackOk(db, stops, 1, [])
    ensures NodesBelow(db.CollisionTable, stops, 1)
    ensures TotalWork(db) == Work(db, Pending(db, stops, 1))
    ensures AllNames(db) == (if db.IsTerminal(0) then [([], 0)] else []) + Names(db, Pending(db, stops, 1))
    ensures db.IsTerminal(0) ==> db.TerminalRank(0) == 0
    ensures TablesOk(db) && 1 <= db.Size()
    ensures db.FileNameIndexes.WellFormed() && 0 <= db.FileNameIndexes.Blocks()
  {
    hide Present, Rank, Label, LabelCost, SlotOk, NodeOk, EndsAtLevelOne;
    var t := db.CollisionTable;
    RootFacts(t);
    AtStart(db);
    var rest := Pre(t, First(t, 0), First(t, 1));
    assert Pending(db, stops, 1) == rest;
    RootList(t);
    HeadAccounts(db, 0, rest);
  }

  lemma AtStart(db: FileNameDB)
    ensures db.TerminalRank(0) == 0 && PathOf(db, 0) == []
  {
  }

  lemma RootList(t: SparseArray)
    requires IsTree(t) && 1 <= Nodes(t)
    ensures Pre(t, 0, 1) == [0] + Pre(t, First(t, 0), First(t, 1))
  {
    hide Present, Shape, First, Nodes;
    PreSplits(t, 0, 1);
    assert Pre(t, 1, 1) == [];
  }

  lemma TreeOf(db: FileNameDB)
    requires WellFormed(db)
    ensures IsTree(db.CollisionTable)
  {
    hide SlotOk, NodeOk, EndsAtLevelOne, Present, Rank;
  }

  /** Names from the start of the list, all exact but the last, whose path may be cut short. */
  ghost predicate Leading(names: seq<(seq<byte>, nat)>, all: seq<(seq<byte>, nat)>) {
    && |names| <= |all|
    && (forall i :: 0 <= i < |names| - 1 ==> names[i] == all[i])
    && (names != [] ==> var i := |names| - 1; names[i].0 <= all[i].0 && names[i].1 == all[i].1)
  }

  lemma ReportedLeads(names: seq<(seq<byte>, nat)>, path: seq<byte>, index: nat, rest: seq<(seq<byte>, nat)>,
                      all: seq<(seq<byte>, nat)>)
    requires names + rest == all
    ensures Leading(names, all)
    ensures Reported(path, index, rest) ==> Leading(names + [(path, index)], all)
  {
    assert forall i :: 0 <= i < |names| ==> all[i] == names[i];
    assert rest != [] ==> all[|names|] == rest[0];
  }

  /** How far an enumeration has come: names noted, one more found or none, and those to follow. */
  ghost predicate Progress(all: seq<(seq<byte>, nat)>, names: seq<(seq<byte>, nat)>, found: bool, next: (seq<byte>, nat),
                           capped: bool, rest: seq<(seq<byte>, nat)>)
  {
    if capped then Leading(if found then names + [next] else names, all)
    else if found then names + [next] + rest == all
    else names == all
  }

  lemma ProgressStep(all: seq<(seq<byte>, nat)>, names: seq<(seq<byte>, nat)>, capped: bool, rest: seq<(seq<byte>, nat)>,
                     found: bool, next: (seq<byte>, nat), capped': bool, rest': seq<(seq<byte>, nat)>)
    requires if capped then Leading(names, all) && capped' && !found else names + rest == all
    requires !capped && !capped' ==> (found <==> rest != []) && (found ==> rest[0] == next && rest' == rest[1..])
    requires !capped && found ==> Reported(next.0, next.1, rest)
    ensures Progress(all, names, found, next, capped', rest')
  {
    hide Leading;
    if !capped {
      ReportedLeads(names, next.0, next.1, rest, all);
      if found {
        assert rest == [rest[0]] + rest[1..];
        Seqs.Assoc(names, [next], rest[1..]);
      }
    }
  }

  lemma ProgressEnds(all: seq<(seq<byte>, nat)>, names: seq<(seq<byte>, nat)>, next: (seq<byte>, nat), capped: bool,
                     rest: seq<(seq<byte>, nat)>)
    requires Progress(all, names, false, next, capped, rest)
    ensures Leading(names, all) && (!capped ==> names == all)
  {
  }

  /** The names not yet reported, as long as the cap is out of reach. */
  ghost function Rest(db: FileNameDB, sr: MndxSearch): seq<(seq<byte>, nat)>
    requires Ready(db, sr)
    reads sr
  {
    if sr.totalSteps >= MAX_TRIE_STEPS then [] else Remaining(db, sr)
  }

  /**
   * enumerate: all names of a trie, in pre-order; the step cap stays out of reach exactly when the
   * trie's work is below it, and otherwise the first names come out, the last one perhaps cut short.
   */
  method Enumerate(db: FileNameDB) returns (names: seq<(seq<byte>, nat)>, uncapped: bool)
    requires WellFormed(db)
    ensures IsTree(db.CollisionTable)
    ensures uncapped <==> TotalWork(db) < MAX_TRIE_STEPS
    ensures uncapped ==> names == AllNames(db)
    ensures Leading(names, AllNames(db))
  {
    hide StackOk, Pending, Names, Work, Present, First, PathOf, Rank, WellFormed, TablesOk, Label, LabelCost,
         Shape, SparseArray.WellFormed, AllNames, TotalWork, IsTree, Reported, Leading, Progress;
    TreeOf(db);
    ghost var all := AllNames(db);
    var sr := new MndxSearch([]);
    names := [];
    var found := DoSearch(db, sr);
    assert [] + all == all;
    ProgressStep(all, [], false, all, found, (sr.foundPath, sr.foundIndex), sr.totalSteps >= MAX_TRIE_STEPS, Rest(db, sr));
    while found
      invariant Ready(db, sr) && fresh(sr) && sr.SearchPhase != SearchInit
      invariant Progress(all, names, found, (sr.foundPath, sr.foundIndex), sr.totalSteps >= MAX_TRIE_STEPS, Rest(db, sr))
      invariant sr.totalSteps < MAX_TRIE_STEPS && !found ==> sr.SearchPhase == SearchFinished
      invariant sr.totalSteps < MAX_TRIE_STEPS ==> Budget(db, sr) == TotalWork(db)
      invariant TotalWork(db) < MAX_TRIE_STEPS ==> sr.totalSteps < MAX_TRIE_STEPS
      decreases found, if sr.totalSteps < MAX_TRIE_STEPS then |Rest(db, sr)| + 1 else 0
    {
      ghost var capped, rest, last := sr.totalSteps >= MAX_TRIE_STEPS, Rest(db, sr), (sr.foundPath, sr.foundIndex);
      NoteFound(all, names, last, capped, rest);
      names := names + [(sr.foundPath, sr.foundIndex)];
      found := DoSearch(db, sr);
      ProgressStep(all, names, capped, rest, found, (sr.foundPath, sr.foundIndex), sr.totalSteps >= MAX_TRIE_STEPS, Rest(db, sr));
    }
    uncapped := sr.totalSteps < MAX_TRIE_STEPS;
    ProgressEnds(all, names, (sr.foundPath, sr.foundIndex), !uncapped, Rest(db, sr));
  }

  lemma NoteFound(all: seq<(seq<byte>, nat)>, names: seq<(seq<byte>, nat)>, next: (seq<byte>, nat), capped: bool,
                  rest: seq<(seq<byte>, nat)>)
    requires Progress(all, names, true, next, capped, rest)
    ensures if capped then Leading(names + [next], all) else names + [next] + rest == all
  {
  }
}
