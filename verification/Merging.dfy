// The loop of fetchAndMergeArchiveIndexes that drains the results into the
// set, and what it merges whatever the order of the results.

module Merging {
  import opened Wrappers
  import opened Bytes
  import opened FirstWins
  import opened ArchiveSets
  import opened Loader

  type Places = map<ArchiveKey, ArchiveLocation>

  /** What one result adds: the places of its index, or nothing. */
  function Contribution(hashes: seq<Key>, f: Fetched): seq<(ArchiveKey, ArchiveLocation)> {
    if f.outcome.Ok? && f.item < |hashes| then ArchiveSets.Places(hashes[f.item], f.outcome.value) else []
  }

  function Merged(hashes: seq<Key>, m: Places, rs: seq<Fetched>): Places {
    if |rs| == 0 then m
    else Added(Merged(hashes, m, rs[..|rs| - 1]), Contribution(hashes, rs[|rs| - 1]))
  }

  ghost predicate SomeFailed(rs: seq<Fetched>) {
    exists i :: 0 <= i < |rs| && rs[i].outcome.Err?
  }

  /** This result failed and none before it. */
  ghost predicate FirstFailure(rs: seq<Fetched>, i: nat) {
    i < |rs| && rs[i].outcome.Err? && forall j :: 0 <= j < i ==> rs[j].outcome.Ok?
  }

  /** Drain the closed results channel; an error only if the set stayed empty. */
  method MergeResults(hashes: seq<Key>, results: seq<Fetched>, set_: ArchiveSet) returns (error: Option<Error>)
    requires set_.Valid() && forall i :: 0 <= i < |results| ==> results[i].item < |hashes|
    modifies set_
    ensures set_.Valid() && set_.byEKey == Merged(hashes, old(set_.byEKey), results)
    ensures error.Some? <==> set_.byEKey == map[] && SomeFailed(results)
    ensures error.Some? ==> exists i: nat :: FirstFailure(results, i) && results[i].outcome == Err(error.value)
  {
    hide Added, Contribution, Merged, FirstFailure;
    MergedNone(hashes, set_.byEKey);
    assert results[..0] == [];
    var firstErr: Option<Error> := None;
    for i := 0 to |results|
      invariant set_.Valid() && set_.byEKey == Merged(hashes, old(set_.byEKey), results[..i])
      invariant firstErr.None? ==> forall k :: 0 <= k < i ==> results[k].outcome.Ok?
      invariant firstErr.Some? ==> exists k: nat :: k < i && FirstFailure(results, k) && results[k].outcome == Err(firstErr.value)
    {
      var r := results[i];
      MergedOneMore(hashes, old(set_.byEKey), results, i);
      if r.outcome.Err? {
        if firstErr.None? {
          assert FirstFailure(results, i) by { FailureIs(results, i); }
          firstErr := Some(r.outcome.error);
        }
        continue;
      }
      set_.Add(hashes[r.item], r.outcome.value);
    }
    assert results[..|results|] == results;
    var n := set_.Len();
    if n == 0 && firstErr.Some? {
      return firstErr;
    }
    error := None;
  }

  lemma MergedNone(hashes: seq<Key>, m: Places)
    ensures Merged(hashes, m, []) == m
  {
  }

  lemma MergedOneMore(hashes: seq<Key>, m: Places, rs: seq<Fetched>, i: nat)
    requires i < |rs| && rs[i].item < |hashes|
    ensures Merged(hashes, m, rs[..i + 1])
         == if rs[i].outcome.Err? then Merged(hashes, m, rs[..i])
            else Added(Merged(hashes, m, rs[..i]), ArchiveSets.Places(hashes[rs[i].item], rs[i].outcome.value))
  {
    hide ArchiveSets.Places;
    assert rs[..i + 1][..i] == rs[..i];
  }

  lemma FailureIs(rs: seq<Fetched>, i: nat)
    requires i < |rs| && rs[i].outcome.Err? && forall j :: 0 <= j < i ==> rs[j].outcome.Ok?
    ensures FirstFailure(rs, i)
  {
  }

  /** Some parsed index among the results names the key. */
  ghost predicate Names(hashes: seq<Key>, f: Fetched, k: ArchiveKey) {
    exists i :: 0 <= i < |Contribution(hashes, f)| && Contribution(hashes, f)[i].0 == k
  }

  ghost predicate SomeNames(hashes: seq<Key>, rs: seq<Fetched>, k: ArchiveKey) {
    exists j :: 0 <= j < |rs| && Names(hashes, rs[j], k)
  }

  lemma NamesAdded(hashes: seq<Key>, m: Places, f: Fetched, k: ArchiveKey)
    ensures k in Added(m, Contribution(hashes, f)) <==> k in m || Names(hashes, f, k)
    ensures k in Added(m, Contribution(hashes, f)) && k !in m ==>
              (k, Added(m, Contribution(hashes, f))[k]) in Contribution(hashes, f)
    ensures k in m ==> Added(m, Contribution(hashes, f))[k] == m[k]
  {
    hide Contribution;
    AddedKeys(m, Contribution(hashes, f));
  }

  /** The merged keys are the union of the keys of all parsed indexes. */
  lemma {:induction false} KeysAreUnion(hashes: seq<Key>, rs: seq<Fetched>, k: ArchiveKey)
    ensures k in Merged(hashes, map[], rs) <==> SomeNames(hashes, rs, k)
  {
    hide Contribution, Added, Names;
    if |rs| > 0 {
      var n := |rs| - 1;
      KeysAreUnion(hashes, rs[..n], k);
      NamesAdded(hashes, Merged(hashes, map[], rs[..n]), rs[n], k);
      if SomeNames(hashes, rs[..n], k) {
        var j :| 0 <= j < n && Names(hashes, rs[..n][j], k);
        assert Names(hashes, rs[j], k);
      }
      if SomeNames(hashes, rs, k) {
        var j :| 0 <= j < |rs| && Names(hashes, rs[j], k);
        if j < n {
          assert Names(hashes, rs[..n][j], k);
        }
      }
    }
  }

  /** Every merged place is one that some parsed index gives for that key. */
  lemma {:induction false} PlacesAreReal(hashes: seq<Key>, rs: seq<Fetched>, k: ArchiveKey)
    requires k in Merged(hashes, map[], rs)
    ensures exists j :: 0 <= j < |rs| && (k, Merged(hashes, map[], rs)[k]) in Contribution(hashes, rs[j])
  {
    hide Contribution, Added, Names;
    if |rs| > 0 {
      var n := |rs| - 1;
      var before := Merged(hashes, map[], rs[..n]);
      NamesAdded(hashes, before, rs[n], k);
      if k in before {
        PlacesAreReal(hashes, rs[..n], k);
        var j :| 0 <= j < n && (k, before[k]) in Contribution(hashes, rs[..n][j]);
        assert (k, Merged(hashes, map[], rs)[k]) in Contribution(hashes, rs[j]);
      } else {
        assert (k, Merged(hashes, map[], rs)[k]) in Contribution(hashes, rs[n]);
      }
    }
  }

  // ---- when the order of the results does not matter ----

  /** No two results name the same key. */
  ghost predicate NoSharedKey(hashes: seq<Key>, rs: seq<Fetched>) {
    forall i, j, k :: 0 <= i < |rs| && 0 <= j < |rs| && Names(hashes, rs[i], k) && Names(hashes, rs[j], k) ==> rs[i] == rs[j]
  }

  /** What a key gets from pairs does not depend on the other keys already there. */
  lemma {:induction false} FreshKey<K, V>(m: map<K, V>, ps: seq<(K, V)>, k: K)
    requires k !in m
    ensures k in Added(m, ps) <==> k in Added(map[], ps)
    ensures k in Added(m, ps) ==> Added(m, ps)[k] == Added(map[], ps)[k]
  {
    if |ps| > 0 {
      FreshKey(m, ps[..|ps| - 1], k);
    }
  }

  function Alone(hashes: seq<Key>, f: Fetched): Places { Added(map[], Contribution(hashes, f)) }

  /** Without shared keys, a key's place is the one its own index would give alone. */
  lemma {:induction false} PlaceIsLocal(hashes: seq<Key>, rs: seq<Fetched>, j: nat, k: ArchiveKey)
    requires NoSharedKey(hashes, rs) && j < |rs| && Names(hashes, rs[j], k)
    ensures k in Alone(hashes, rs[j])
    ensures k in Merged(hashes, map[], rs) && Merged(hashes, map[], rs)[k] == Alone(hashes, rs[j])[k]
  {
    hide Contribution, Added, Names;
    var n := |rs| - 1;
    var none: Places := map[];
    var before := Merged(hashes, none, rs[..n]);
    NamesAdded(hashes, before, rs[n], k);
    NamesAdded(hashes, none, rs[j], k);
    assert NoSharedKey(hashes, rs[..n]) by {
      forall a, b, x | 0 <= a < n && 0 <= b < n && Names(hashes, rs[..n][a], x) && Names(hashes, rs[..n][b], x)
        ensures rs[..n][a] == rs[..n][b]
      {
        assert Names(hashes, rs[a], x) && Names(hashes, rs[b], x);
      }
    }
    if k in before {
      KeysAreUnion(hashes, rs[..n], k);
      var a :| 0 <= a < n && Names(hashes, rs[..n][a], k);
      assert rs[a] == rs[j];
      PlaceIsLocal(hashes, rs[..n], a, k);
    } else {
      if j < n {
        assert Names(hashes, rs[..n][j], k);
        KeysAreUnion(hashes, rs[..n], k);
      }
      FreshKey(before, Contribution(hashes, rs[n]), k);
    }
  }

  /** Results in any other order give the same map when no two indexes share a key. */
  lemma OrderDoesNotMatter(hashes: seq<Key>, rs: seq<Fetched>, qs: seq<Fetched>)
    requires multiset(rs) == multiset(qs) && NoSharedKey(hashes, rs)
    ensures Merged(hashes, map[], rs) == Merged(hashes, map[], qs)
  {
    hide Contribution, Added, Names, Merged, NoSharedKey;
    SameResults(rs, qs);
    StillNoSharedKey(hashes, rs, qs);
    forall k
      ensures k in Merged(hashes, map[], rs) <==> k in Merged(hashes, map[], qs)
      ensures k in Merged(hashes, map[], rs) ==> Merged(hashes, map[], rs)[k] == Merged(hashes, map[], qs)[k]
    {
      KeysAreUnion(hashes, rs, k);
      KeysAreUnion(hashes, qs, k);
      if SomeNames(hashes, qs, k) {
        SameNames(hashes, qs, rs, k);
      }
      if SomeNames(hashes, rs, k) {
        SameNames(hashes, rs, qs, k);
        var j :| 0 <= j < |rs| && Names(hashes, rs[j], k);
        assert rs[j] in rs;
        var i :| 0 <= i < |qs| && qs[i] == rs[j];
        PlaceIsLocal(hashes, rs, j, k);
        PlaceIsLocal(hashes, qs, i, k);
      }
    }
  }

  lemma SameNames(hashes: seq<Key>, rs: seq<Fetched>, qs: seq<Fetched>, k: ArchiveKey)
    requires forall x :: x in rs ==> x in qs
    requires SomeNames(hashes, rs, k)
    ensures SomeNames(hashes, qs, k)
  {
    hide Names;
    var j :| 0 <= j < |rs| && Names(hashes, rs[j], k);
    assert rs[j] in rs;
    var i :| 0 <= i < |qs| && qs[i] == rs[j];
  }

  lemma SameResults(rs: seq<Fetched>, qs: seq<Fetched>)
    requires multiset(rs) == multiset(qs)
    ensures forall x :: x in rs <==> x in qs
  {
    forall x
      ensures x in rs <==> x in qs
    {
      assert x in rs <==> x in multiset(rs);
      assert x in qs <==> x in multiset(qs);
    }
  }

  lemma StillNoSharedKey(hashes: seq<Key>, rs: seq<Fetched>, qs: seq<Fetched>)
    requires (forall x :: x in rs <==> x in qs) && NoSharedKey(hashes, rs)
    ensures NoSharedKey(hashes, qs)
  {
    hide Names;
    forall i, j, k | 0 <= i < |qs| && 0 <= j < |qs| && Names(hashes, qs[i], k) && Names(hashes, qs[j], k)
      ensures qs[i] == qs[j]
    {
      assert qs[i] in rs && qs[j] in rs;
    }
  }

  // ---- whole runs ----

  /** Two runs to the end in which every hash has the same outcome. */
  ghost predicate SameOutcomes(rs: seq<Fetched>, qs: seq<Fetched>) {
    forall i, j :: 0 <= i < |rs| && 0 <= j < |qs| && rs[i].item == qs[j].item ==> rs[i] == qs[j]
  }

  function Without(qs: seq<Fetched>, j: nat): seq<Fetched>
    requires j < |qs|
  {
    qs[..j] + qs[j + 1..]
  }

  lemma WithoutOne(qs: seq<Fetched>, j: nat)
    requires j < |qs|
    ensures multiset(qs) == multiset(Without(qs, j)) + multiset{qs[j]}
    ensures multiset(Items(qs)) == multiset(Items(Without(qs, j))) + multiset{qs[j].item}
    ensures forall x :: x in Without(qs, j) ==> x in qs
  {
    assert qs == qs[..j] + [qs[j]] + qs[j + 1..];
    assert Items(qs) == Items(qs[..j]) + [qs[j].item] + Items(qs[j + 1..]);
    assert Items(Without(qs, j)) == Items(qs[..j]) + Items(qs[j + 1..]);
  }

  lemma Cancel(a: multiset<nat>, b: multiset<nat>, x: nat)
    requires a + multiset{x} == b + multiset{x}
    ensures a == b
  {
    assert a == a + multiset{x} - multiset{x};
    assert b == b + multiset{x} - multiset{x};
  }

  lemma {:induction false} SameItemsSameResults(rs: seq<Fetched>, qs: seq<Fetched>)
    requires multiset(Items(rs)) == multiset(Items(qs)) && SameOutcomes(rs, qs)
    ensures multiset(rs) == multiset(qs)
  {
    if |rs| == 0 {
      assert |multiset(Items(qs))| == |qs|;
    } else {
      var n := |rs| - 1;
      WithoutOne(rs, n);
      assert Without(rs, n) == rs[..n];
      assert Items(rs)[n] in multiset(Items(qs));
      var j :| 0 <= j < |qs| && Items(qs)[j] == Items(rs)[n];
      WithoutOne(qs, j);
      StillSameOutcomes(rs, qs, n, j);
      hide Without, Items, SameOutcomes;
      Cancel(multiset(Items(rs[..n])), multiset(Items(Without(qs, j))), rs[n].item);
      SameItemsSameResults(rs[..n], Without(qs, j));
    }
  }

  lemma StillSameOutcomes(rs: seq<Fetched>, qs: seq<Fetched>, n: nat, j: nat)
    requires SameOutcomes(rs, qs) && n < |rs| && j < |qs|
    requires forall x :: x in Without(qs, j) ==> x in qs
    ensures SameOutcomes(rs[..n], Without(qs, j))
  {
    hide Without;
    var rest := Without(qs, j);
    forall a, b | 0 <= a < n && 0 <= b < |rest| && rs[..n][a].item == rest[b].item
      ensures rs[..n][a] == rest[b]
    {
      assert rest[b] in qs;
      var k :| 0 <= k < |qs| && qs[k] == rest[b];
    }
  }

  /** The merged set does not depend on how the workers were interleaved. */
  lemma InterleavingDoesNotMatter(hashes: seq<Key>, p: int, run: seq<State>, q: int, other: seq<State>)
    requires IsRun(|hashes|, p, run) && AllDone(run[|run| - 1])
    requires IsRun(|hashes|, q, other) && AllDone(other[|other| - 1])
    requires SameOutcomes(run[|run| - 1].results, other[|other| - 1].results)
    requires NoSharedKey(hashes, run[|run| - 1].results)
    ensures Merged(hashes, map[], run[|run| - 1].results) == Merged(hashes, map[], other[|other| - 1].results)
  {
    EachHashOnce(|hashes|, p, run);
    EachHashOnce(|hashes|, q, other);
    hide IsRun, AllDone, Merged, NoSharedKey, Items, Upto;
    SameItemsSameResults(run[|run| - 1].results, other[|other| - 1].results);
    OrderDoesNotMatter(hashes, run[|run| - 1].results, other[|other| - 1].results);
  }
}
