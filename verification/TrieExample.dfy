// A vector of fewer than ten blocks is always searched exactly, and the
// smallest trie meets every condition that enumeration and lookup ask for.

module TrieExample {
  import opened Words
  import opened Wrappers
  import opened Bitwise
  import opened BitVectors
  import opened SparseArrays
  import opened SparseArrayBuild
  import opened BitEntries
  import opened Louds
  import opened FileNames
  import opened Preorder
  import opened SlotHash
  import opened LookingUp

  /** Built tables of fewer than ten blocks answer every select exactly. */
  lemma SmallIsExact(bits: Bits, total: nat, b: bool, index: u32)
    requires total <= 32 * |bits| < TWO32 - 512 && BlocksFor(bits) < 10
    requires index < Rank(bits, b, total)
    ensures Build(bits, total).ExactIndex(b, index)
  {
    hide Present, Rank, Build, SparseArray.HalvedGroup, SparseArray.BitsBefore, SparseArray.ExactIndex, SparseArray.WellFormed,
         SparseArray.FirstGroup, SparseArray.LastGroup, SparseArray.Narrow, SparseArray.IndexToItem, SparseArray.Tabulated;
    var a := Build(bits, total);
    BuildWellFormed(bits, total);
    a.GroupFacts(b, index);
    a.GroupNames(b, index);
    TableRises(bits, total, b, index / 512);
    SpanSmall(a.IndexToItem(b)[index / 512], a.IndexToItem(b)[index / 512 + 1]);
  }

  lemma SpanSmall(p: u32, q: u32)
    requires p <= q <= 512 * 9
    ensures Wrap(Wrap(q as int + 0x1FF) / 512 - p / 512) < 10
  {
  }

  lemma TableRises(bits: Bits, total: nat, b: bool, k: nat)
    requires total <= 32 * |bits| < TWO32 - 512 && BlocksFor(bits) < 10
    requires 512 * k < Rank(bits, b, total)
    ensures var table := Build(bits, total).IndexToItem(b);
            k + 1 < |table| && table[k] <= table[k + 1] <= 512 * 9
  {
    hide Present, Rank, BuildCounts, BuildSelect;
    assert Build(bits, total).IndexToItem(b) == BuildSelect(bits, total, b);
    TableEntry(bits, total, b, k);
    TableEntry(bits, total, b, k + 1);
    var table := BuildSelect(bits, total, b);
    if 512 * (k + 1) < Rank(bits, b, total) {
      SelectUnique(bits, b, 512 * k, table[k], 512 * (k + 1), table[k + 1]);
    }
  }

  lemma TableEntry(bits: Bits, total: nat, b: bool, k: nat)
    requires total <= 32 * |bits| < TWO32 - 512 && 512 * k < Rank(bits, b, total) + 512
    ensures var table := BuildSelect(bits, total, b);
            && k < |table|
            && (512 * k < Rank(bits, b, total) ==> table[k] < total && IsSelect(bits, b, 512 * k, table[k]))
            && (512 * k >= Rank(bits, b, total) ==> table[k] == 512 * BlocksFor(bits))
  {
    hide Present, Rank, IsSelect;
  }

  function Vector(w: bv32): Bits { [w] }

  /** The trie with the single name [b]. */
  ghost function OneName(b: byte): FileNameDB {
    FileNameDB(
      Build(Vector(5), 5), Build(Vector(2), 2), Build(Vector(0), 2), [0, b],
      BitEntryArray([], 0, 0, 0), PathFragmentTable([], Build(Vector(0), 0)), None,
      seq(256, i => HashEntry(0xFFFF_FFFF, 0xFFFF_FFFF, 0)), 255, 1)
  }

  lemma FiveBits()
    ensures Present(Vector(5), 0) && !Present(Vector(5), 1) && Present(Vector(5), 2)
    ensures !Present(Vector(5), 3) && !Present(Vector(5), 4)
    ensures !Present(Vector(2), 0) && Present(Vector(2), 1)
    ensures !Present(Vector(0), 0) && !Present(Vector(0), 1)
  {
    assert OneShl(0) == 1 && OneShl(1) == 2 && OneShl(2) == 4 && OneShl(3) == 8 && OneShl(4) == 16;
  }

  lemma FiveRanks(b: bool)
    ensures Rank(Vector(5), b, 0) == 0
    ensures Rank(Vector(5), b, 1) == if b then 1 else 0
    ensures Rank(Vector(5), b, 2) == 1
    ensures Rank(Vector(5), b, 5) == if b then 2 else 3
    ensures Rank(Vector(2), true, 2) == 1 && Rank(Vector(2), true, 1) == 0 && Rank(Vector(0), true, 2) == 0
  {
    hide Present;
    FiveBits();
    assert Rank(Vector(5), b, 3) == if b then 2 else 1;
    assert Rank(Vector(5), b, 4) == 2;
  }

  lemma SmallestShape()
    ensures var t := Build(Vector(5), 5);
            Shape(t) && Nodes(t) == 2 && Rank(t.ItemBits, false, 5) == 3 && t.TotalItemCount == 5
  {
    hide Present, Rank, SparseArray.WellFormed;
    BuildWellFormed(Vector(5), 5);
    FiveBits();
    FiveRanks(true);
    FiveRanks(false);
  }

  lemma SmallestParent()
    ensures IsTree(Build(Vector(5), 5)) && Parent(Build(Vector(5), 5), 1) == 0
  {
    hide Present, Rank, SparseArray.WellFormed, BuildCounts, BuildSelect;
    var t := Build(Vector(5), 5);
    SmallestShape();
    FiveBits();
    FiveRanks(true);
    FiveRanks(false);
    assert IsSelect(t.ItemBits, true, 1, 2);
    SelectUnique(t.ItemBits, true, 1, 2, 1, Select(t.ItemBits, true, 1, 5));
  }

  lemma SmallestTree()
    ensures var t := Build(Vector(5), 5);
            Navigable(t) && Nodes(t) == 2 && First(t, 0) == 1 && First(t, 1) == 2
  {
    hide Present, Rank, SparseArray.ExactIndex, SparseArray.WellFormed, Shape, IsTree, First, Parent, Nodes;
    var t := Build(Vector(5), 5);
    SmallestShape();
    SmallestParent();
    RootFacts(t);
    LastZero(t);
    ChildrenAreRun(t, 0, 1);
    FirstMono(t, 1, 2);
    SmallestExact();
  }

  lemma SmallestExact()
    ensures var t := Build(Vector(5), 5); forall v :: 0 <= v < 2 ==> t.ExactIndex(false, v) && t.ExactIndex(true, v)
  {
    hide Present, Rank, SparseArray.ExactIndex, Build;
    FiveRanks(true);
    FiveRanks(false);
    forall v | 0 <= v < 2
      ensures Build(Vector(5), 5).ExactIndex(false, v) && Build(Vector(5), 5).ExactIndex(true, v)
    {
      SmallIsExact(Vector(5), 5, false, v);
      SmallIsExact(Vector(5), 5, true, v);
    }
  }

  /** The conditions of the trie theorems can be met together. */
  lemma OneNameIsLookupable(b: byte)
    ensures Lookupable(OneName(b)) && EndsAtLevelOne(OneName(b)) && IsTree(OneName(b).CollisionTable)
    ensures AllNames(OneName(b)) == [([b], 0)] && TotalWork(OneName(b)) == 1
  {
    hide Present, Rank, Navigable, Build, Nodes, First, Parent, SparseArray.WellFormed;
    var db := OneName(b);
    var t := db.CollisionTable;
    OneNameTables(b);
    ParentInRange(t, 1);
    assert Up(db, 1) == 0;
    assert Label(db, 1) == [b];
    assert forall i :: 0 <= i < 256 ==> SlotOk(db, db.HashTable[i]) && SlotReady(db, db.HashTable[i]);
    assert Pre(t, 2, 2) == [] && Pre(t, 1, 1) == [];
    assert Pre(t, 1, 2) == [1];
    assert Pre(t, 0, 1) == [0, 1];
    assert PathOf(db, 1) == [b];
    assert [0, 1][1..] == [1] && [1][1..] == [];
    assert Names(db, [1]) == [([b], 0)];
    assert Names(db, [0, 1]) == Names(db, [1]);
    assert Work(db, [1]) == 1;
  }

  lemma OneNameTables(b: byte)
    ensures var db := OneName(b);
            && TablesOk(db) && db.Size() == 2 && IsTree(db.CollisionTable)
            && First(db.CollisionTable, 0) == 1 && First(db.CollisionTable, 1) == 2 && First(db.CollisionTable, 2) == 2
            && !db.IsTerminal(0) && db.IsTerminal(1) && db.TerminalRank(1) == 0
            && !db.IsPathFragmentString(0) && !db.IsPathFragmentString(1)
  {
    hide Present, Rank, Navigable, SparseArray.WellFormed, BuildCounts, BuildSelect, First;
    SmallestTree();
    BuildWellFormed(Vector(2), 2);
    BuildWellFormed(Vector(0), 2);
    FiveBits();
    FiveRanks(true);
    var t := OneName(b).CollisionTable;
    NavigableTree(t);
    LastZero(t);
    NoMask();
  }

  lemma NavigableTree(t: SparseArray)
    requires Navigable(t)
    ensures IsTree(t)
  {
  }

  lemma NoMask()
    ensures BitEntryArray([], 0, 0, 0).WellFormed()
  {
    forall j | 0 <= j < 32
      ensures !Bit(0, j)
    {
      ZeroBit(j);
    }
  }

  // ---- a used slot and a nested trie ----

  const FREE_SLOT: HashEntry := HashEntry(0xFFFF_FFFF, 0xFFFF_FFFF, 0)

  /** The same name, its label being a fragment: node 1 of a nested trie, filed in the slot of b as well. */
  ghost function NestedName(b: byte): FileNameDB {
    FileNameDB(
      Build(Vector(5), 5), Build(Vector(2), 2), Build(Vector(2), 2), [0, 1],
      BitEntryArray([], 0, 0, 0), PathFragmentTable([], Build(Vector(0), 0)), Some(OneName(b)),
      seq(256, i => if i == b then HashEntry(0, 1, 1) else FREE_SLOT), 255, 1)
  }

  lemma NestedTables(b: byte)
    ensures var db := NestedName(b);
            && TablesOk(db) && db.Size() == 2 && IsTree(db.CollisionTable)
            && First(db.CollisionTable, 0) == 1 && First(db.CollisionTable, 1) == 2 && First(db.CollisionTable, 2) == 2
            && !db.IsTerminal(0) && db.IsTerminal(1) && db.TerminalRank(1) == 0
            && !db.IsPathFragmentString(0) && db.IsPathFragmentString(1)
            && FragmentOffset(db, 1) == 1
  {
    hide Present, Rank, Navigable, SparseArray.WellFormed, BuildCounts, BuildSelect, First;
    SmallestTree();
    BuildWellFormed(Vector(2), 2);
    FiveBits();
    FiveRanks(true);
    var t := NestedName(b).CollisionTable;
    NavigableTree(t);
    LastZero(t);
    NoMask();
  }

  lemma {:induction false} AndOnes(a: nat, m: nat)
    requires IsPower(m + 1) && a <= m
    ensures And(a, m) == a
  {
    if a > 0 {
      AndOnes(a / 2, m / 2);
    }
  }

  /** The slot for byte b below the root. */
  lemma OwnSlot(b: byte)
    ensures HashSlot(b, 0, 255) == b
  {
    assert IsPower(16);
    assert IsPower(256);
    AndOnes(b, 255);
  }

  /** The fragment of node 1 is the path of the nested node 1. */
  lemma NestedLabel(b: byte)
    ensures var db := NestedName(b);
            Up(db, 1) == 0 && Label(db, 1) == [b] && Fragment(db, 1) == [b] && LabelCost(db, 1) == 0
    ensures WellFormed(OneName(b)) && Comparable(OneName(b)) && EndsAtLevelOne(OneName(b)) && OneName(b).Size() == 2
  {
    hide Present, Rank, Navigable, Build, Nodes, First, Parent, SparseArray.WellFormed, FragmentOffset, AllNames, TotalWork;
    var db, inner := NestedName(b), OneName(b);
    OneNameIsLookupable(b);
    OneNameTables(b);
    NestedTables(b);
    ParentInRange(db.CollisionTable, 1);
    assert Label(inner, 1) == [b];
    assert Restore(inner, 1) == [b];
    assert RestoreCost(inner, 1) == 0;
  }

  /** All conditions of lookup hold with a used slot, a fragment and a nested trie, too. */
  lemma NestedIsLookupable(b: byte)
    ensures Lookupable(NestedName(b)) && EndsAtLevelOne(NestedName(b)) && IsTree(NestedName(b).CollisionTable)
    ensures NestedName(b).HashTable[b].NextIndex == 1 && NestedName(b).IsPathFragmentString(1)
    ensures AllNames(NestedName(b)) == [([b], 0)] && TotalWork(NestedName(b)) == 1
  {
    hide Present, Rank, Navigable, Build, Nodes, First, Parent, SparseArray.WellFormed, FragmentOffset, OneName, HashSlot,
         Restore, Label, LabelCost, Fragment, FragmentText, Up, BuildSelect, BuildCounts;
    var db := NestedName(b);
    var t := db.CollisionTable;
    NestedTables(b);
    NestedLabel(b);
    OwnSlot(b);
    assert Pre(t, 2, 2) == [] && Pre(t, 1, 1) == [];
    assert Pre(t, 1, 2) == [1];
    assert Pre(t, 0, 1) == [0, 1];
    assert PathOf(db, 1) == [b];
    assert [0, 1][1..] == [1] && [1][1..] == [];
    assert Names(db, [1]) == [([b], 0)];
    assert Names(db, [0, 1]) == Names(db, [1]);
    assert Work(db, [1]) == 1;
  }
}
