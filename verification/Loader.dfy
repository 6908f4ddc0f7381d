// fetchAndMergeArchiveIndexes of internal/storage/cdn_archives.go as a step
// system: workers take numbers from a closed work channel, fetch, and send to
// a results channel with room for one result per hash.

module Loader {
  import opened Wrappers
  import opened ArchiveSets

  /** What fetching and parsing index number item gave; any outcome is possible. */
  datatype Fetched = Fetched(item: nat, outcome: Result<seq<ArchiveIndexEntry>>)

  datatype Worker = Idle | Fetching(item: nat) | Sending(result: Fetched) | Done

  datatype State = State(work: seq<nat>, workers: seq<Worker>, results: seq<Fetched>)

  function Upto(n: nat): (s: seq<nat>)
    ensures |s| == n
  {
    if n == 0 then [] else Upto(n - 1) + [n - 1]
  }

  function Parallelism(p: int): (k: nat)
    ensures k > 0
  {
    if p <= 0 then 1 else p
  }

  /** The work channel is filled and closed; no worker has begun. */
  function Start(n: nat, parallelism: int): State {
    State(Upto(n), seq(Parallelism(parallelism), _ => Idle), [])
  }

  /** What worker w may do next; n is the capacity of the results channel. */
  ghost predicate WorkerStep(n: nat, s: State, s': State, w: nat)
    requires w < |s.workers|
  {
    match s.workers[w]
    case Idle =>
      if |s.work| > 0 then s' == State(s.work[1..], s.workers[w := Fetching(s.work[0])], s.results)
      else s' == s.(workers := s.workers[w := Done])
    case Fetching(i) =>
      && w < |s'.workers| && s'.workers[w].Sending? && s'.workers[w].result.item == i
      && s' == s.(workers := s.workers[w := s'.workers[w]])
    case Sending(f) =>
      |s.results| < n && s' == State(s.work, s.workers[w := Idle], s.results + [f])
    case Done => false
  }

  ghost predicate Step(n: nat, s: State, s': State) {
    exists w :: 0 <= w < |s.workers| && WorkerStep(n, s, s', w)
  }

  /** A run: any interleaving of the workers. */
  ghost predicate IsRun(n: nat, parallelism: int, run: seq<State>) {
    && |run| > 0 && run[0] == Start(n, parallelism)
    && forall i :: 1 <= i < |run| ==> Step(n, run[i - 1], run[i])
  }

  // ---- every number is somewhere, once ----

  function ItemOf(w: Worker): multiset<nat> {
    match w
    case Fetching(i) => multiset{i}
    case Sending(f) => multiset{f.item}
    case _ => multiset{}
  }

  function Held(ws: seq<Worker>): multiset<nat> {
    if |ws| == 0 then multiset{} else Held(ws[..|ws| - 1]) + ItemOf(ws[|ws| - 1])
  }

  function Items(rs: seq<Fetched>): (s: seq<nat>)
    ensures |s| == |rs|
  {
    seq(|rs|, i requires 0 <= i < |rs| => rs[i].item)
  }

  ghost predicate Inv(n: nat, s: State) {
    && |s.workers| > 0
    && multiset(s.work) + Held(s.workers) + multiset(Items(s.results)) == multiset(Upto(n))
  }

  lemma {:induction false} HeldUpdate(ws: seq<Worker>, w: nat, x: Worker)
    requires w < |ws|
    ensures ItemOf(ws[w]) <= Held(ws)
    ensures Held(ws[w := x]) == Held(ws) - ItemOf(ws[w]) + ItemOf(x)
  {
    hide ItemOf;
    var n := |ws| - 1;
    if w == n {
      assert ws[w := x][..n] == ws[..n];
    } else {
      HeldUpdate(ws[..n], w, x);
      assert ws[w := x][..n] == ws[..n][w := x];
    }
  }

  lemma {:induction false} NothingHeld(k: nat)
    ensures Held(seq(k, _ => Idle)) == multiset{}
  {
    if k > 0 {
      NothingHeld(k - 1);
      assert seq(k, _ => Idle)[..k - 1] == seq(k - 1, _ => Idle);
    }
  }

  lemma StepKeepsInv(n: nat, s: State, s': State, w: nat)
    requires Inv(n, s) && w < |s.workers| && WorkerStep(n, s, s', w)
    ensures Inv(n, s')
  {
    hide Inv, WorkerStep;
    match s.workers[w]
    case Idle => TakeKeepsInv(n, s, s', w);
    case Fetching(_) => FetchKeepsInv(n, s, s', w);
    case Sending(_) => SendKeepsInv(n, s, s', w);
    case Done => FetchKeepsInv(n, s, s', w);
  }

  lemma TakeKeepsInv(n: nat, s: State, s': State, w: nat)
    requires Inv(n, s) && w < |s.workers| && WorkerStep(n, s, s', w) && s.workers[w].Idle?
    ensures Inv(n, s')
  {
    hide Held, Upto, Items;
    HeldUpdate(s.workers, w, s'.workers[w]);
    if |s.work| > 0 {
      FirstTaken(s.work);
      Regroup(multiset(s.work[1..]), s.work[0], Held(s.workers), multiset(Items(s.results)));
    }
  }

  lemma FetchKeepsInv(n: nat, s: State, s': State, w: nat)
    requires Inv(n, s) && w < |s.workers| && WorkerStep(n, s, s', w) && (s.workers[w].Fetching? || s.workers[w].Done?)
    ensures Inv(n, s')
  {
    hide Held, Upto, Items;
    HeldUpdate(s.workers, w, s'.workers[w]);
  }

  lemma SendKeepsInv(n: nat, s: State, s': State, w: nat)
    requires Inv(n, s) && w < |s.workers| && WorkerStep(n, s, s', w) && s.workers[w].Sending?
    ensures Inv(n, s')
  {
    hide Held, Upto, Items;
    var f := s.workers[w].result;
    HeldUpdate(s.workers, w, s'.workers[w]);
    ResultAdded(s.results, f);
    Moved(multiset(s.work), f.item, Held(s.workers), multiset(Items(s.results)));
  }

  lemma FirstTaken(work: seq<nat>)
    requires |work| > 0
    ensures multiset(work) == multiset{work[0]} + multiset(work[1..])
  {
    assert work == [work[0]] + work[1..];
  }

  lemma ResultAdded(rs: seq<Fetched>, f: Fetched)
    ensures multiset(Items(rs + [f])) == multiset(Items(rs)) + multiset{f.item}
  {
    assert Items(rs + [f]) == Items(rs) + [f.item];
  }

  lemma Regroup(work: multiset<nat>, x: nat, held: multiset<nat>, results: multiset<nat>)
    ensures multiset{x} + work + held + results == work + (held + multiset{x}) + results
  {
  }

  lemma Moved(work: multiset<nat>, x: nat, held: multiset<nat>, results: multiset<nat>)
    requires multiset{x} <= held
    ensures work + (held - multiset{x}) + (results + multiset{x}) == work + held + results
  {
  }

  lemma {:induction false} RunKeepsInv(n: nat, parallelism: int, run: seq<State>, i: nat)
    requires IsRun(n, parallelism, run) && i < |run|
    ensures Inv(n, run[i])
  {
    hide WorkerStep, Upto, Held;
    if i == 0 {
      NothingHeld(Parallelism(parallelism));
      assert Items([]) == [];
    } else {
      RunKeepsInv(n, parallelism, run, i - 1);
      assert Step(n, run[i - 1], run[i]);
      var w :| 0 <= w < |run[i - 1].workers| && WorkerStep(n, run[i - 1], run[i], w);
      StepKeepsInv(n, run[i - 1], run[i], w);
    }
  }

  lemma Sizes(n: nat, s: State)
    requires Inv(n, s)
    ensures |s.work| + |Held(s.workers)| + |s.results| == n
  {
    hide Held, Upto;
    assert |multiset(s.work)| == |s.work| && |multiset(Items(s.results))| == |s.results|;
    assert |multiset(Upto(n))| == n;
  }

  /** In no run does a send find the results channel full. */
  lemma SendNeverBlocks(n: nat, parallelism: int, run: seq<State>, i: nat, w: nat)
    requires IsRun(n, parallelism, run) && i < |run|
    requires w < |run[i].workers| && run[i].workers[w].Sending?
    ensures |run[i].results| < n
  {
    hide Held, Upto, Inv, IsRun;
    RunKeepsInv(n, parallelism, run, i);
    Sizes(n, run[i]);
    HeldUpdate(run[i].workers, w, Idle);
    assert |ItemOf(run[i].workers[w])| == 1;
  }

  /** A worker that is not done can always go on. */
  lemma NoDeadlock(n: nat, parallelism: int, run: seq<State>, i: nat, w: nat) returns (s': State)
    requires IsRun(n, parallelism, run) && i < |run|
    requires w < |run[i].workers| && !run[i].workers[w].Done?
    ensures WorkerStep(n, run[i], s', w)
  {
    hide IsRun;
    var s := run[i];
    match s.workers[w]
    case Idle =>
      s' := if |s.work| > 0 then State(s.work[1..], s.workers[w := Fetching(s.work[0])], s.results)
            else s.(workers := s.workers[w := Done]);
    case Fetching(k) =>
      s' := s.(workers := s.workers[w := Sending(Fetched(k, Err(FileNotFound)))]);
    case Sending(f) =>
      SendNeverBlocks(n, parallelism, run, i, w);
      s' := State(s.work, s.workers[w := Idle], s.results + [f]);
  }

  // ---- termination ----

  function Rank(w: Worker): nat {
    match w
    case Idle => 1
    case Fetching(_) => 3
    case Sending(_) => 2
    case Done => 0
  }

  function Ranks(ws: seq<Worker>): nat {
    if |ws| == 0 then 0 else Ranks(ws[..|ws| - 1]) + Rank(ws[|ws| - 1])
  }

  function StepsLeft(s: State): nat { 3 * |s.work| + Ranks(s.workers) }

  lemma {:induction false} RanksUpdate(ws: seq<Worker>, w: nat, x: Worker)
    requires w < |ws|
    ensures Ranks(ws[w := x]) == Ranks(ws) - Rank(ws[w]) + Rank(x)
  {
    hide Rank;
    var n := |ws| - 1;
    if w == n {
      assert ws[w := x][..n] == ws[..n];
    } else {
      RanksUpdate(ws[..n], w, x);
      assert ws[w := x][..n] == ws[..n][w := x];
    }
  }

  lemma {:induction false} RanksAtStart(k: nat)
    ensures Ranks(seq(k, _ => Idle)) == k
  {
    if k > 0 {
      RanksAtStart(k - 1);
      assert seq(k, _ => Idle)[..k - 1] == seq(k - 1, _ => Idle);
    }
  }

  /** No interleaving takes more than three steps per hash and one per worker. */
  lemma {:induction false} RunsAreShort(n: nat, parallelism: int, run: seq<State>, i: nat)
    requires IsRun(n, parallelism, run) && i < |run|
    ensures StepsLeft(run[i]) + i <= 3 * n + Parallelism(parallelism)
  {
    hide Ranks, Upto;
    if i == 0 {
      RanksAtStart(Parallelism(parallelism));
    } else {
      RunsAreShort(n, parallelism, run, i - 1);
      assert Step(n, run[i - 1], run[i]);
      var w :| 0 <= w < |run[i - 1].workers| && WorkerStep(n, run[i - 1], run[i], w);
      RanksUpdate(run[i - 1].workers, w, run[i].workers[w]);
    }
  }

  // ---- the end of a run ----

  ghost predicate AllDone(s: State) {
    forall w :: 0 <= w < |s.workers| ==> s.workers[w].Done?
  }

  /** One result for each number. */
  ghost predicate CompleteResults(n: nat, rs: seq<Fetched>) {
    multiset(Items(rs)) == multiset(Upto(n))
  }

  lemma {:induction false} NoneHeldWhenDone(ws: seq<Worker>)
    requires forall w :: 0 <= w < |ws| ==> ws[w].Done?
    ensures Held(ws) == multiset{}
  {
    if |ws| > 0 {
      NoneHeldWhenDone(ws[..|ws| - 1]);
    }
  }

  /** A worker leaves only when there is no work left. */
  lemma {:induction false} DoneMeansEmpty(n: nat, parallelism: int, run: seq<State>, i: nat, w: nat)
    requires IsRun(n, parallelism, run) && i < |run|
    requires w < |run[i].workers| && run[i].workers[w].Done?
    ensures run[i].work == []
  {
    if i > 0 {
      assert Step(n, run[i - 1], run[i]);
      var v :| 0 <= v < |run[i - 1].workers| && WorkerStep(n, run[i - 1], run[i], v);
      if run[i - 1].workers[w].Done? {
        DoneMeansEmpty(n, parallelism, run, i - 1, w);
      }
    }
  }

  /** When the last worker has left, each hash was taken once and has one result. */
  lemma EachHashOnce(n: nat, parallelism: int, run: seq<State>)
    requires IsRun(n, parallelism, run) && AllDone(run[|run| - 1])
    ensures CompleteResults(n, run[|run| - 1].results)
  {
    hide Held, Upto, WorkerStep;
    var last: nat := |run| - 1;
    RunKeepsInv(n, parallelism, run, last);
    NoneHeldWhenDone(run[last].workers);
    DoneMeansEmpty(n, parallelism, run, last, 0);
  }
}
