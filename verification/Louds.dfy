// The level-order unary tree held by CollisionTable: node j is the j-th one
// bit, the children of v are the ones between the v-th zero and the next.

module Louds {
  import opened Words
  import opened Wrappers
  import opened BitVectors
  import opened SparseArrays

  /** Number of nodes. */
  ghost function Nodes(t: SparseArray): nat { Rank(t.ItemBits, true, t.TotalItemCount) }

  /** Well-formed tables over n ones and n + 1 zeros, starting with the super-root 10. */
  ghost predicate Shape(t: SparseArray) {
    && t.WellFormed()
    && Rank(t.ItemBits, false, t.TotalItemCount) == Nodes(t) + 1
    && Present(t.ItemBits, 0) && !Present(t.ItemBits, 1)
  }

  /** Number of the first child of v, whether or not v has children: the ones before the v-th zero. */
  ghost function First(t: SparseArray, v: nat): (c: nat)
    requires Shape(t) && v <= Nodes(t)
    ensures c <= Nodes(t)
  {
    var p := Select(t.ItemBits, false, v, t.TotalItemCount);
    RankMono(t.ItemBits, true, p, t.TotalItemCount);
    Rank(t.ItemBits, true, p)
  }

  /** Zeros before the one bit of c, less the zero of the super-root. */
  ghost function Parent(t: SparseArray, c: nat): int
    requires Shape(t) && c < Nodes(t)
  {
    Rank(t.ItemBits, false, Select(t.ItemBits, true, c, t.TotalItemCount)) - 1
  }

  /** Every node but the root hangs below an earlier node. */
  ghost predicate IsTree(t: SparseArray) {
    && Shape(t)
    && forall c :: 1 <= c < Nodes(t) ==> Parent(t, c) < c
  }

  /** The position of the v-th zero is v plus the ones before it. */
  lemma ZeroPosition(t: SparseArray, v: nat, p: nat)
    requires Shape(t) && v <= Nodes(t) && p < t.TotalItemCount
    ensures IsSelect(t.ItemBits, false, v, p) <==> p == First(t, v) + v && !Present(t.ItemBits, p)
    ensures First(t, v) + v < t.TotalItemCount && IsSelect(t.ItemBits, false, v, First(t, v) + v)
  {
    hide Present;
    var z := Select(t.ItemBits, false, v, t.TotalItemCount);
    RankComplement(t.ItemBits, z);
    if IsSelect(t.ItemBits, false, v, p) {
      SelectUnique(t.ItemBits, false, v, z, v, p);
    }
  }

  lemma OnePosition(t: SparseArray, c: nat, p: nat)
    requires Shape(t) && c < Nodes(t) && p < t.TotalItemCount
    ensures IsSelect(t.ItemBits, true, c, p) ==> p == c + Parent(t, c) + 1
  {
    hide Present;
    var o := Select(t.ItemBits, true, c, t.TotalItemCount);
    RankComplement(t.ItemBits, o);
    if IsSelect(t.ItemBits, true, c, p) {
      SelectUnique(t.ItemBits, true, c, o, c, p);
    }
  }

  lemma RootFacts(t: SparseArray)
    requires Shape(t)
    ensures Nodes(t) >= 1 && First(t, 0) == 1 && Parent(t, 0) == -1
  {
    var bits := t.ItemBits;
    assert Rank(bits, true, 1) == 1 && Rank(bits, false, 1) == 0;
    assert t.TotalItemCount >= 1;
    RankMono(bits, true, 1, t.TotalItemCount);
    assert IsSelect(bits, true, 0, 0);
    assert IsSelect(bits, false, 0, 1);
    SelectUnique(bits, true, 0, 0, 0, Select(bits, true, 0, t.TotalItemCount));
    SelectUnique(bits, false, 0, 1, 0, Select(bits, false, 0, t.TotalItemCount));
  }

  lemma FirstMono(t: SparseArray, v: nat, w: nat)
    requires Shape(t) && v <= w <= Nodes(t)
    ensures First(t, v) <= First(t, w)
  {
    hide Present;
    var p := Select(t.ItemBits, false, v, t.TotalItemCount);
    var q := Select(t.ItemBits, false, w, t.TotalItemCount);
    SelectUnique(t.ItemBits, false, v, p, w, q);
    RankMono(t.ItemBits, true, p, q);
  }

  /** A child number below First(v) has its one bit before the v-th zero, and conversely. */
  lemma BeforeZero(t: SparseArray, v: nat, c: nat)
    requires Shape(t) && v <= Nodes(t) && c < Nodes(t)
    ensures c < First(t, v) <==> Parent(t, c) < v
  {
    hide Present;
    var bits := t.ItemBits;
    var z := Select(bits, false, v, t.TotalItemCount);
    var o := Select(bits, true, c, t.TotalItemCount);
    SelectBelow(bits, true, c, o, z);
    SelectBelow(bits, false, v, z, o);
  }

  /** Navigation is inverse: the run after the v-th zero holds exactly the children of v. */
  lemma ChildrenAreRun(t: SparseArray, v: nat, c: nat)
    requires Shape(t) && v < Nodes(t) && c < Nodes(t)
    ensures First(t, v) <= c < First(t, v + 1) <==> Parent(t, c) == v
  {
    hide Parent, First, SparseArray.WellFormed, Rank, Present;
    BeforeZero(t, v, c);
    BeforeZero(t, v + 1, c);
  }

  /** Parents come before their children, and first-child numbers run ahead of the parents. */
  lemma FirstAhead(t: SparseArray, v: nat)
    requires IsTree(t) && v < Nodes(t)
    ensures v < First(t, v)
  {
    var f := First(t, v);
    if f <= v {
      RootFacts(t);
      FirstMono(t, 0, v);
      BeforeZero(t, v, f);
    }
  }

  lemma LastZero(t: SparseArray)
    requires IsTree(t)
    ensures First(t, Nodes(t)) == Nodes(t)
  {
    var n := Nodes(t);
    RootFacts(t);
    FirstMono(t, 0, n);
    if First(t, n) < n {
      BeforeZero(t, n, First(t, n));
    }
  }

  lemma ParentInRange(t: SparseArray, c: nat)
    requires IsTree(t) && 1 <= c < Nodes(t)
    ensures 0 <= Parent(t, c) < c
    ensures First(t, Parent(t, c)) <= c < First(t, Parent(t, c) + 1)
  {
    hide Parent, First, SparseArray.WellFormed, Rank, Present;
    RootFacts(t);
    BeforeZero(t, 0, c);
    ChildrenAreRun(t, Parent(t, c), c);
  }

  ghost predicate InRun(t: SparseArray, v: nat, c: nat)
    requires Shape(t) && v < Nodes(t)
  {
    First(t, v) <= c < First(t, v + 1)
  }

  /** The runs of successive nodes partition 1 .. n - 1: each c is in exactly one, that of its parent. */
  lemma RunsPartition(t: SparseArray, c: nat)
    requires IsTree(t) && 1 <= c < Nodes(t)
    ensures 0 <= Parent(t, c) < c
    ensures forall v :: 0 <= v < Nodes(t) ==> (InRun(t, v, c) <==> v == Parent(t, c))
  {
    hide Parent, First, SparseArray.WellFormed, Rank, Present, Shape;
    ParentInRange(t, c);
    forall v | 0 <= v < Nodes(t)
      ensures InRun(t, v, c) <==> v == Parent(t, c)
    {
      ChildrenAreRun(t, v, c);
    }
  }

  /** The bit that a cursor inside or at the end of v's run looks at. */
  lemma CursorBit(t: SparseArray, v: nat, c: nat)
    requires IsTree(t) && v < Nodes(t) && First(t, v) <= c <= First(t, v + 1)
    ensures Present(t.ItemBits, c + v + 1) <==> c < First(t, v + 1)
    ensures c + v + 1 < t.TotalItemCount
  {
    hide Present;
    var bits := t.ItemBits;
    ZeroPosition(t, v + 1, 0);
    if c < First(t, v + 1) {
      ChildrenAreRun(t, v, c);
      OnePosition(t, c, Select(bits, true, c, t.TotalItemCount));
    }
  }

  /** Select answers every question navigation asks. */
  ghost predicate Searchable(t: SparseArray) {
    && (forall v :: 0 <= v < Nodes(t) ==> t.ExactIndex(false, v))
    && (forall v :: 0 <= v < Nodes(t) ==> t.ExactIndex(true, v))
  }

  ghost predicate Navigable(t: SparseArray) { IsTree(t) && Searchable(t) }

  /** GetItem0(v) + 1: where the run of v starts. */
  method RunStart(t: SparseArray, v: u32) returns (r: Option<u32>)
    ensures Navigable(t) && v < Nodes(t) ==> r == Some(First(t, v) + v + 1)
  {
    hide Present, Rank, SparseArray.ExactIndex;
    var z := t.GetItem0(v);
    if z.None? {
      return None;
    }
    r := Some(Wrap(z.value as int + 1));
    if Navigable(t) && v < Nodes(t) {
      ZeroPosition(t, v, 0);
      ZeroPosition(t, v, Select(t.ItemBits, false, v, t.TotalItemCount));
      SelectUnique(t.ItemBits, false, v, First(t, v) + v, v, z.value);
    }
  }

  /** 0xFFFFFFFF - c + GetItem1(c): the parent of c. */
  method ParentOf(t: SparseArray, c: u32) returns (r: Option<u32>)
    ensures Navigable(t) && 1 <= c < Nodes(t) ==> r == Some(Parent(t, c))
  {
    hide Present, Rank, SparseArray.ExactIndex;
    var o := t.GetItem1(c);
    if o.None? {
      return None;
    }
    r := Some(Wrap(0xFFFF_FFFF - c + o.value));
    if Navigable(t) && 1 <= c < Nodes(t) {
      ParentInRange(t, c);
      var p := Select(t.ItemBits, true, c, t.TotalItemCount);
      SelectUnique(t.ItemBits, true, c, p, c, o.value);
      OnePosition(t, c, p);
    }
  }
}
