// Filling a map where the first value stored for a key stays, as the index
// lookup and the archive set do.

module FirstWins {
  import opened Seqs

  function Added<K, V>(m: map<K, V>, ps: seq<(K, V)>): map<K, V> {
    if |ps| == 0 then m
    else
      var before, p := Added(m, ps[..|ps| - 1]), ps[|ps| - 1];
      if p.0 in before then before else before[p.0 := p.1]
  }

  lemma {:induction false} AddedTwice<K, V>(m: map<K, V>, a: seq<(K, V)>, b: seq<(K, V)>)
    ensures Added(Added(m, a), b) == Added(m, a + b)
  {
    if |b| == 0 {
      assert a + b == a;
    } else {
      AddedTwice(m, a, b[..|b| - 1]);
      assert (a + b)[..|a + b| - 1] == a + b[..|b| - 1];
    }
  }

  lemma AddedOne<K, V>(m: map<K, V>, p: (K, V))
    ensures Added(m, [p]) == if p.0 in m then m else m[p.0 := p.1]
  {
    assert [p][..0] == [];
  }

  /** The keys are those from before and those of the pairs; what was there stays. */
  lemma {:induction false} AddedKeys<K, V>(m: map<K, V>, ps: seq<(K, V)>)
    ensures forall k :: k in m ==> k in Added(m, ps) && Added(m, ps)[k] == m[k]
    ensures forall i :: 0 <= i < |ps| ==> ps[i].0 in Added(m, ps)
    ensures forall k :: k in Added(m, ps) && k !in m ==> (k, Added(m, ps)[k]) in ps
  {
    if |ps| > 0 {
      AddedKeys(m, ps[..|ps| - 1]);
    }
  }

  /** A key not there before gets the value of its first pair. */
  lemma {:induction false} AddedFirst<K, V>(m: map<K, V>, ps: seq<(K, V)>, i: nat)
    requires i < |ps| && ps[i].0 !in m
    requires forall j :: 0 <= j < i ==> ps[j].0 != ps[i].0
    ensures ps[i].0 in Added(m, ps) && Added(m, ps)[ps[i].0] == ps[i].1
  {
    if i < |ps| - 1 {
      AddedFirst(m, ps[..|ps| - 1], i);
    } else {
      AddedKeys(m, ps[..i]);
    }
  }

  // ---- maps filled from several lists in turn ----

  /** The j-th pair of the i-th list is the first of all with this key. */
  ghost predicate FirstAt<K, V>(pieces: seq<seq<(K, V)>>, k: K, i: nat, j: nat) {
    && i < |pieces| && j < |pieces[i]| && pieces[i][j].0 == k
    && KeyFree(pieces[i][..j], k)
    && forall a :: 0 <= a < i ==> KeyFree(pieces[a], k)
  }

  ghost predicate KeyFree<K, V>(ps: seq<(K, V)>, k: K) {
    forall b :: 0 <= b < |ps| ==> ps[b].0 != k
  }

  lemma {:induction false} FirstPair<K, V>(m: map<K, V>, ps: seq<(K, V)>, k: K) returns (j: nat)
    requires k !in m && k in Added(m, ps)
    ensures j < |ps| && ps[j] == (k, Added(m, ps)[k]) && KeyFree(ps[..j], k)
  {
    var n := |ps| - 1;
    if k in Added(m, ps[..n]) {
      j := FirstPair(m, ps[..n], k);
      assert ps[..n][..j] == ps[..j];
    } else {
      j := n;
      AddedKeys(m, ps[..n]);
      forall b | 0 <= b < n
        ensures ps[..n][b].0 != k
      {
        assert ps[..n][b].0 in Added(m, ps[..n]);
      }
    }
  }

  /** A key that is found has the value of its first pair in all the lists. */
  lemma {:induction false} FoundFirst<K, V>(pieces: seq<seq<(K, V)>>, k: K) returns (i: nat, j: nat)
    requires k in Added(map[], Concat(pieces))
    ensures FirstAt(pieces, k, i, j) && pieces[i][j].1 == Added(map[], Concat(pieces))[k]
  {
    hide Added, Concat;
    if |pieces| == 0 {
      NothingFound<K, V>(pieces);
      return;
    }
    var n := |pieces| - 1;
    var front := pieces[..n];
    var before := Added(map[], Concat(front));
    ConcatSnoc(pieces, n);
    assert pieces[..n + 1] == pieces;
    AddedTwice(map[], Concat(front), pieces[n]);
    AddedKeys(before, pieces[n]);
    if k in before {
      i, j := FoundFirst(front, k);
    } else {
      i := n;
      j := FirstPair(before, pieces[n], k);
      forall a | 0 <= a < n
        ensures KeyFree(pieces[a], k)
      {
        forall b | 0 <= b < |pieces[a]|
          ensures pieces[a][b].0 != k
        {
          AllFound(front, a, b);
        }
      }
    }
  }

  lemma NothingFound<K, V>(pieces: seq<seq<(K, V)>>)
    requires |pieces| == 0
    ensures Added(map[], Concat(pieces)) == map[]
  {
  }

  /** The key of every pair in the lists is found. */
  lemma {:induction false} AllFound<K, V>(pieces: seq<seq<(K, V)>>, i: nat, j: nat)
    requires i < |pieces| && j < |pieces[i]|
    ensures pieces[i][j].0 in Added(map[], Concat(pieces))
  {
    hide Added, Concat;
    var n := |pieces| - 1;
    var front := pieces[..n];
    ConcatSnoc(pieces, n);
    assert pieces[..n + 1] == pieces;
    AddedTwice(map[], Concat(front), pieces[n]);
    AddedKeys(Added(map[], Concat(front)), pieces[n]);
    if i < n {
      AllFound(front, i, j);
    }
  }
}
