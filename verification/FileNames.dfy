// fileNameDB of internal/root/mndx/trie.go: a tree of labelled nodes whose
// labels are single bytes or fragments, fragments being stored as text or as
// paths of a nested tree. Declarations, the plain meaning of labels, and the
// well-formedness that readers rely on.

module FileNames {
  import opened Words
  import opened Wrappers
  import opened Bitwise
  import opened BitVectors
  import opened SparseArrays
  import opened BitEntries
  import opened Louds

  const MAX_TRIE_STEPS: nat := 65536

  datatype HashEntry = HashEntry(NodeIndex: u32, NextIndex: u32, FragmentOffset: u32) {
    predicate IsSingleChar() { FragmentOffset / 256 == 0xFF_FFFF }

    function SingleChar(): byte { FragmentOffset % 256 }
  }

  datatype PathFragmentTable = PathFragmentTable(PathFragments: seq<byte>, PathMarks: SparseArray)

  datatype FileNameDB = FileNameDB(
    CollisionTable: SparseArray,
    FileNameIndexes: SparseArray,
    CollisionHiBitsIndexes: SparseArray,
    LoBitsTable: seq<byte>,
    HiBitsTable: BitEntryArray,
    PathFragments: PathFragmentTable,
    ChildDB: Option<FileNameDB>,
    HashTable: seq<HashEntry>,
    HashTableMask: u32,
    Field214: u32)
  {
    ghost function Size(): nat { Nodes(CollisionTable) }

    predicate IsPathFragmentString(idx: nat) { CollisionHiBitsIndexes.IsItemPresent(idx) }

    predicate IsTerminal(idx: nat) { FileNameIndexes.IsItemPresent(idx) }

    ghost function TerminalRank(idx: nat): nat { Rank(FileNameIndexes.ItemBits, true, idx) }

    ghost function StringRank(idx: nat): nat { Rank(CollisionHiBitsIndexes.ItemBits, true, idx) }

    /** The hash slot that belongs to a table index when walking up. */
    function Slot(idx: u32): nat { And(idx, HashTableMask) }

    predicate Cached(idx: u32) {
      Slot(idx) < |HashTable| && HashTable[Slot(idx)].NextIndex == idx
    }
  }

  /** The text of a fragment: up to a zero byte, or up to and including a marked byte. */
  function FragmentText(p: PathFragmentTable, off: nat): seq<byte>
    decreases |p.PathFragments| - off
  {
    if off >= |p.PathFragments| then []
    else if p.PathMarks.IsEmpty() then
      if p.PathFragments[off] == 0 then [] else [p.PathFragments[off]] + FragmentText(p, off + 1)
    else
      [p.PathFragments[off]] + if p.PathMarks.IsItemPresent(off) then [] else FragmentText(p, off + 1)
  }

  /** The parent of c; 0 where the tables describe no tree. */
  ghost function Up(db: FileNameDB, c: nat): (p: nat)
    ensures c > 0 ==> p < c
  {
    if IsTree(db.CollisionTable) && 1 <= c < db.Size() then
      ParentInRange(db.CollisionTable, c);
      Parent(db.CollisionTable, c)
    else 0
  }

  ghost function LowByte(db: FileNameDB, v: nat): byte {
    if v < |db.LoBitsTable| then db.LoBitsTable[v] else 0
  }

  /** Fragment number of a node: packed high bits at the node's string rank, then the low byte. */
  ghost function FragmentOffset(db: FileNameDB, v: nat): u32 {
    var b := db.HiBitsTable.BitsPerEntry;
    FragmentNumber(SliceValue(db.HiBitsTable.Items, db.StringRank(v) * b, b), LowByte(db, v))
  }

  /** (hi << 8) | lo */
  function FragmentNumber(hi: nat, lo: byte): u32 { Wrap(256 * hi + lo) }

  /** The bytes of fragment off: text, or a path of the nested tree read upwards. */
  ghost function Fragment(db: FileNameDB, off: nat): seq<byte>
    decreases db, 0, 0
  {
    if db.ChildDB.Some? then Restore(db.ChildDB.value, off) else FragmentText(db.PathFragments, off)
  }

  ghost function Label(db: FileNameDB, v: nat): seq<byte>
    decreases db, 1, 0
  {
    if db.IsPathFragmentString(v) then Fragment(db, FragmentOffset(db, v))
    else if v < |db.LoBitsTable| then [db.LoBitsTable[v]]
    else []
  }

  /** The labels met walking from idx up to its ancestor on level one. */
  ghost function Restore(db: FileNameDB, idx: nat): seq<byte>
    decreases db, 2, idx
  {
    Label(db, idx) + if idx <= db.Field214 then [] else Restore(db, Up(db, idx))
  }

  ghost function EntryLabel(db: FileNameDB, he: HashEntry): seq<byte> {
    if he.IsSingleChar() then [he.SingleChar()] else Fragment(db, he.FragmentOffset)
  }

  // What the walk costs in loop iterations that do not return.
  ghost function FragmentCost(db: FileNameDB, off: nat): nat
    decreases db, 0, 0
  {
    if db.ChildDB.Some? then RestoreCost(db.ChildDB.value, off) else 0
  }

  ghost function LabelCost(db: FileNameDB, v: nat): nat
    decreases db, 1, 0
  {
    if db.IsPathFragmentString(v) then FragmentCost(db, FragmentOffset(db, v)) else 0
  }

  ghost function EntryCost(db: FileNameDB, he: HashEntry): nat
    decreases db, 1, 0
  {
    if he.IsSingleChar() then 0 else FragmentCost(db, he.FragmentOffset)
  }

  ghost function RestoreCost(db: FileNameDB, idx: nat): nat
    decreases db, 2, idx
  {
    (if idx < TWO32 && db.Cached(idx) then EntryCost(db, db.HashTable[db.Slot(idx)]) else LabelCost(db, idx))
    + if idx <= db.Field214 then 0 else 1 + RestoreCost(db, Up(db, idx))
  }

  /** A fragment number names something: any text position, or a node below the nested root. */
  ghost predicate FragmentExists(db: FileNameDB, off: nat) {
    db.ChildDB.Some? ==> 1 <= off < db.ChildDB.value.Size()
  }

  /** The slot is of no node, or repeats what the tree says about its node. */
  ghost predicate SlotOk(db: FileNameDB, he: HashEntry) {
    || (he.NodeIndex >= db.Size() && he.NextIndex >= db.Size())
    || (&& 1 <= he.NextIndex < db.Size()
        && he.NodeIndex == Up(db, he.NextIndex)
        && EntryLabel(db, he) == Label(db, he.NextIndex)
        && (he.IsSingleChar() || FragmentExists(db, he.FragmentOffset)))
  }

  ghost predicate NodeOk(db: FileNameDB, v: nat) {
    db.IsPathFragmentString(v) ==> FragmentExists(db, FragmentOffset(db, v))
  }

  ghost predicate RankReady(a: SparseArray, n: nat) {
    a.WellFormed() && n <= 512 * a.Blocks()
  }

  ghost predicate TablesOk(db: FileNameDB) {
    && Navigable(db.CollisionTable)
    && db.Size() < TWO32 - 1
    && RankReady(db.FileNameIndexes, db.Size())
    && RankReady(db.CollisionHiBitsIndexes, db.Size())
    && db.HiBitsTable.WellFormed()
    && db.Size() * db.HiBitsTable.BitsPerEntry < TWO32
    && 0 < |db.HashTable| && db.HashTableMask == |db.HashTable| - 1
  }

  /** Well-formed trie: tables, fragment numbers, hash slots, and the nested trie if there is one. */
  ghost predicate WellFormed(db: FileNameDB)
    decreases db
  {
    && TablesOk(db)
    && (forall v :: 1 <= v < db.Size() ==> NodeOk(db, v))
    && (forall i :: 0 <= i < |db.HashTable| ==> SlotOk(db, db.HashTable[i]))
    && (db.ChildDB.Some? ==> WellFormed(db.ChildDB.value) && EndsAtLevelOne(db.ChildDB.value))
  }

  /** Field214 is the last node of level one. */
  ghost predicate EndsAtLevelOne(db: FileNameDB) {
    && IsTree(db.CollisionTable)
    && (forall c :: 1 <= c < db.Size() ==> (c <= db.Field214 <==> Up(db, c) == 0))
  }
}
