// What enumeration is for: the pre-order list of a trie's names, and the
// number of loop rounds a complete enumeration takes.

module Preorder {
  import opened Words
  import opened BitVectors
  import opened SparseArrays
  import opened Louds
  import opened FileNames

  /** Siblings lo .. hi - 1 with everything below them, in pre-order. */
  ghost function Pre(t: SparseArray, lo: nat, hi: nat): seq<nat>
    requires IsTree(t) && hi <= Nodes(t)
    decreases Nodes(t) - lo
  {
    if lo >= hi then []
    else
      FirstAhead(t, lo);
      [lo] + Pre(t, First(t, lo), First(t, lo + 1)) + Pre(t, lo + 1, hi)
  }

  /** The labels from the root to v. */
  ghost function PathOf(db: FileNameDB, v: nat): seq<byte> {
    if v == 0 then [] else PathOf(db, Up(db, v)) + Label(db, v)
  }

  /** The names among some nodes: path and terminal rank of each terminal, in order. */
  ghost function Names(db: FileNameDB, nodes: seq<nat>): seq<(seq<byte>, nat)> {
    if nodes == [] then []
    else (if db.IsTerminal(nodes[0]) then [(PathOf(db, nodes[0]), db.TerminalRank(nodes[0]))] else [])
         + Names(db, nodes[1..])
  }

  /** The name list of a trie. */
  ghost function AllNames(db: FileNameDB): seq<(seq<byte>, nat)>
    requires IsTree(db.CollisionTable)
  {
    RootFacts(db.CollisionTable);
    Names(db, Pre(db.CollisionTable, 0, 1))
  }

  /** Rounds spent on a node: its label, the round that leaves it, and one more when it is not a name. */
  ghost function NodeWork(db: FileNameDB, v: nat): nat {
    LabelCost(db, v) + 1 + if db.IsTerminal(v) then 0 else 1
  }

  ghost function Work(db: FileNameDB, nodes: seq<nat>): nat {
    if nodes == [] then 0 else NodeWork(db, nodes[0]) + Work(db, nodes[1..])
  }

  /** Rounds of a complete enumeration: every node but the root. */
  ghost function TotalWork(db: FileNameDB): nat
    requires IsTree(db.CollisionTable)
  {
    RootFacts(db.CollisionTable);
    Work(db, Pre(db.CollisionTable, First(db.CollisionTable, 0), First(db.CollisionTable, 1)))
  }

  /** How often v occurs in a list. */
  ghost function Occurs(nodes: seq<nat>, v: nat): nat {
    if nodes == [] then 0 else (if nodes[0] == v then 1 else 0) + Occurs(nodes[1..], v)
  }

  lemma {:induction false} OccursAppend(a: seq<nat>, b: seq<nat>, v: nat)
    ensures Occurs(a + b, v) == Occurs(a, v) + Occurs(b, v)
  {
    if a == [] {
      assert a + b == b;
    } else {
      OccursAppend(a[1..], b, v);
      assert (a + b)[1..] == a[1..] + b;
    }
  }

  /** v lies in one of the subtrees rooted at lo .. hi - 1. */
  ghost predicate Under(t: SparseArray, lo: nat, hi: nat, v: nat)
    requires IsTree(t) && v < Nodes(t)
  {
    if lo <= v < hi then true
    else if v == 0 then false
    else
      ParentInRange(t, v);
      Under(t, lo, hi, Parent(t, v))
  }

  lemma {:induction false} NotUnderLater(t: SparseArray, lo: nat, hi: nat, v: nat)
    requires IsTree(t) && v < Nodes(t) && v < lo
    ensures !Under(t, lo, hi, v)
    decreases v
  {
    hide Shape, Parent, Nodes;
    if v > 0 {
      ParentInRange(t, v);
      NotUnderLater(t, lo, hi, Parent(t, v));
    }
  }

  /** Being below lo .. hi - 1, split between lo itself, its children and its later siblings; at most one holds. */
  lemma {:induction false} UnderSplits(t: SparseArray, lo: nat, hi: nat, v: nat)
    requires IsTree(t) && lo < hi <= Nodes(t) && hi <= First(t, lo) && v < Nodes(t)
    ensures (if Under(t, lo, hi, v) then 1 else 0)
         == (if v == lo then 1 else 0)
          + (if Under(t, First(t, lo), First(t, lo + 1), v) then 1 else 0)
          + (if Under(t, lo + 1, hi, v) then 1 else 0)
    decreases v
  {
    hide Shape, Parent, Nodes, First;
    FirstMono(t, lo, lo + 1);
    if v < hi {
      NotUnderLater(t, First(t, lo), First(t, lo + 1), v);
      if v <= lo {
        NotUnderLater(t, lo + 1, hi, v);
        if v < lo {
          NotUnderLater(t, lo, hi, v);
        }
      }
    } else {
      ParentInRange(t, v);
      var p := Parent(t, v);
      UnderSplits(t, lo, hi, p);
      ChildrenAreRun(t, lo, v);
      if p == lo {
        NotUnderLater(t, lo + 1, hi, lo);
      }
    }
  }

  /** The pre-order list of one level's siblings holds each node below them exactly once, and no other. */
  lemma {:induction false} OncePre(t: SparseArray, lo: nat, hi: nat, v: nat)
    requires IsTree(t) && hi <= Nodes(t) && v < Nodes(t)
    requires lo < hi ==> hi <= First(t, lo)
    ensures Occurs(Pre(t, lo, hi), v) == if lo < hi && Under(t, lo, hi, v) then 1 else 0
    decreases Nodes(t) - lo
  {
    hide Shape, Parent, Nodes, First, Under;
    if lo < hi {
      FirstAhead(t, lo);
      var a, b := First(t, lo), First(t, lo + 1);
      FirstMono(t, lo, lo + 1);
      if a < b {
        FirstMono(t, lo + 1, a);
      }
      OncePre(t, a, b, v);
      OncePre(t, lo + 1, hi, v);
      OccursAppend([lo] + Pre(t, a, b), Pre(t, lo + 1, hi), v);
      OccursAppend([lo], Pre(t, a, b), v);
      UnderSplits(t, lo, hi, v);
      EmptyRange(t, a, b, v);
      EmptyRange(t, lo + 1, hi, v);
    }
  }

  lemma {:induction false} EmptyRange(t: SparseArray, lo: nat, hi: nat, v: nat)
    requires IsTree(t) && v < Nodes(t)
    ensures hi <= lo ==> !Under(t, lo, hi, v)
    decreases v
  {
    hide Shape, Parent, Nodes;
    if hi <= lo && v > 0 {
      ParentInRange(t, v);
      EmptyRange(t, lo, hi, Parent(t, v));
    }
  }

  lemma {:induction false} AllUnderRoot(t: SparseArray, v: nat)
    requires IsTree(t) && v < Nodes(t)
    ensures Under(t, 0, 1, v)
    decreases v
  {
    hide Shape, Parent, Nodes;
    if v > 0 {
      ParentInRange(t, v);
      AllUnderRoot(t, Parent(t, v));
    }
  }

  /** The pre-order list of the tree visits every node exactly once. */
  lemma EveryNodeOnce(t: SparseArray, v: nat)
    requires IsTree(t) && v < Nodes(t)
    ensures 1 <= Nodes(t) && Occurs(Pre(t, 0, 1), v) == 1
  {
    hide Shape, Parent, Nodes, First, Under, Pre;
    RootFacts(t);
    AllUnderRoot(t, v);
    OncePre(t, 0, 1, v);
  }

  lemma {:induction false} PreInRange(t: SparseArray, lo: nat, hi: nat)
    requires IsTree(t) && hi <= Nodes(t)
    ensures forall i :: 0 <= i < |Pre(t, lo, hi)| ==> Pre(t, lo, hi)[i] < Nodes(t)
    decreases Nodes(t) - lo
  {
    hide Shape, First, Nodes;
    if lo < hi {
      FirstAhead(t, lo);
      PreInRange(t, First(t, lo), First(t, lo + 1));
      PreInRange(t, lo + 1, hi);
    }
  }

  /** How many entries of a name list carry index i. */
  ghost function WithIndex(names: seq<(seq<byte>, nat)>, i: nat): nat {
    if names == [] then 0 else (if names[0].1 == i then 1 else 0) + WithIndex(names[1..], i)
  }

  lemma {:induction false} NamesOfNode(db: FileNameDB, nodes: seq<nat>, v: nat)
    requires db.IsTerminal(v)
    ensures WithIndex(Names(db, nodes), db.TerminalRank(v)) == Occurs(nodes, v)
  {
    hide Present, PathOf, Rank;
    if nodes != [] {
      NamesOfNode(db, nodes[1..], v);
      if db.IsTerminal(nodes[0]) {
        RankTellsApart(db, nodes[0], v);
        var head := [(PathOf(db, nodes[0]), db.TerminalRank(nodes[0]))];
        assert (head + Names(db, nodes[1..]))[1..] == Names(db, nodes[1..]);
      } else {
        assert [] + Names(db, nodes[1..]) == Names(db, nodes[1..]);
      }
    }
  }

  lemma RankTellsApart(db: FileNameDB, u: nat, v: nat)
    requires db.IsTerminal(u) && db.IsTerminal(v)
    ensures db.TerminalRank(u) == db.TerminalRank(v) <==> u == v
  {
    hide Present;
    var bits := db.FileNameIndexes.ItemBits;
    SelectUnique(bits, true, db.TerminalRank(u), u, db.TerminalRank(v), v);
  }

  /** Each terminal is in the name list exactly once, under its own index. */
  lemma EveryNameOnce(db: FileNameDB, v: nat)
    requires IsTree(db.CollisionTable) && v < db.Size() && db.IsTerminal(v)
    ensures WithIndex(AllNames(db), db.TerminalRank(v)) == 1
    ensures (PathOf(db, v), db.TerminalRank(v)) in AllNames(db)
  {
    hide Present, Pre, IsTree;
    EveryNodeOnce(db.CollisionTable, v);
    NamesOfNode(db, Pre(db.CollisionTable, 0, 1), v);
    NameListed(db, Pre(db.CollisionTable, 0, 1), v);
  }

  lemma {:induction false} NameListed(db: FileNameDB, nodes: seq<nat>, v: nat)
    requires Occurs(nodes, v) > 0 && db.IsTerminal(v)
    ensures (PathOf(db, v), db.TerminalRank(v)) in Names(db, nodes)
  {
    hide Present, PathOf, Rank;
    if nodes[0] != v {
      NameListed(db, nodes[1..], v);
    }
  }

  /** Nothing else is in the name list. */
  lemma {:induction false} OnlyNames(db: FileNameDB, nodes: seq<nat>, e: (seq<byte>, nat))
    requires e in Names(db, nodes)
    ensures exists v :: v in nodes && db.IsTerminal(v) && e == (PathOf(db, v), db.TerminalRank(v))
  {
    hide Present, PathOf, Rank;
    if db.IsTerminal(nodes[0]) && e == (PathOf(db, nodes[0]), db.TerminalRank(nodes[0])) {
    } else {
      OnlyNames(db, nodes[1..], e);
    }
  }
}
