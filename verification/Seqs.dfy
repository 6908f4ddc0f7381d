// Sequence facts used by several proofs.

module Seqs {
  import opened Wrappers

  lemma Assoc<T>(a: seq<T>, b: seq<T>, c: seq<T>)
    ensures (a + b) + c == a + (b + c)
  {
  }

  lemma Assoc4<T>(a: seq<T>, b: seq<T>, c: seq<T>, d: seq<T>)
    ensures a + b + c + d == a + (b + (c + d))
  {
    Assoc(a, b, c);
    Assoc(a, b + c, d);
    Assoc(b, c, d);
  }

  /** The pieces one after the other. */
  function Concat<T>(ss: seq<seq<T>>): seq<T> {
    if |ss| == 0 then [] else Concat(ss[..|ss| - 1]) + ss[|ss| - 1]
  }

  lemma {:induction false} ConcatSplit<T>(ss: seq<seq<T>>, i: nat)
    requires i <= |ss|
    ensures Concat(ss) == Concat(ss[..i]) + Concat(ss[i..])
    decreases |ss|
  {
    if i == |ss| {
      assert ss[..i] == ss && ss[i..] == [];
    } else {
      var front := ss[..|ss| - 1];
      ConcatSplit(front, i);
      assert front[..i] == ss[..i];
      assert front[i..] == ss[i..][..|ss| - i - 1];
      Assoc(Concat(ss[..i]), Concat(front[i..]), ss[|ss| - 1]);
    }
  }

  lemma NoPieces<T>(ss: seq<seq<T>>)
    ensures Concat(ss[..0]) == []
  {
  }

  lemma ConcatOne<T>(s: seq<T>)
    ensures Concat([s]) == s
  {
    assert [s][..0] == [];
  }

  lemma ConcatHead<T>(ss: seq<seq<T>>)
    requires |ss| > 0
    ensures Concat(ss) == ss[0] + Concat(ss[1..])
  {
    ConcatSplit(ss, 1);
    assert ss[..1] == [ss[0]];
    ConcatOne(ss[0]);
  }

  lemma ConcatSnoc<T>(ss: seq<seq<T>>, i: nat)
    requires i < |ss|
    ensures Concat(ss[..i + 1]) == Concat(ss[..i]) + ss[i]
  {
    assert ss[..i + 1][..i] == ss[..i];
  }

  /** Piece i stands behind the pieces before it. */
  lemma ConcatPiece<T>(ss: seq<seq<T>>, i: nat)
    requires i < |ss|
    ensures |Concat(ss[..i])| + |ss[i]| <= |Concat(ss)|
    ensures Concat(ss)[|Concat(ss[..i])|..|Concat(ss[..i])| + |ss[i]|] == ss[i]
    ensures |Concat(ss[..i + 1])| == |Concat(ss[..i])| + |ss[i]|
  {
    ConcatSplit(ss, i);
    ConcatHead(ss[i..]);
    ConcatSnoc(ss, i);
    Middle(Concat(ss[..i]), ss[i], Concat(ss[i..][1..]));
  }

  lemma Middle<T>(a: seq<T>, b: seq<T>, c: seq<T>)
    ensures (a + (b + c))[|a|..|a| + |b|] == b
    ensures (a + b + c)[|a|..|a| + |b|] == b
  {
  }

  ghost predicate AllOfLength<T>(ss: seq<seq<T>>, w: nat) {
    forall i :: 0 <= i < |ss| ==> |ss[i]| == w
  }

  lemma {:induction false} ConcatLength<T>(ss: seq<seq<T>>, w: nat)
    requires AllOfLength(ss, w)
    ensures |Concat(ss)| == w * |ss|
  {
    if |ss| > 0 {
      ConcatLength(ss[..|ss| - 1], w);
      Times(w, |ss|);
    }
  }

  lemma Times(w: int, n: int)
    ensures w * (n - 1) + w == w * n
  {
  }

  /** Pieces of one width stand at the multiples of it. */
  lemma ConcatRecord<T>(ss: seq<seq<T>>, w: nat, i: nat)
    requires AllOfLength(ss, w) && i < |ss|
    ensures w * i + w <= |Concat(ss)|
    ensures Concat(ss)[w * i..w * i + w] == ss[i]
  {
    ConcatLength(ss[..i], w);
    ConcatPiece(ss, i);
  }

  /** What is read so far, followed by what is left to read, is the whole. */
  ghost predicate Resumes<T>(whole: Result<seq<T>>, done: seq<T>, rest: Result<seq<T>>) {
    if rest.Ok? then whole == Ok(done + rest.value) else whole == rest
  }

  lemma ResumesFromStart<T>(whole: Result<seq<T>>)
    ensures Resumes(whole, [], whole)
  {
    if whole.Ok? {
      assert [] + whole.value == whole.value;
    }
  }

  /** Reading some more of what is left. */
  lemma ResumesLater<T>(whole: Result<seq<T>>, done: seq<T>, more: seq<T>, before: Result<seq<T>>, after: Result<seq<T>>)
    requires Resumes(whole, done, before)
    requires Resumes(before, more, after)
    ensures Resumes(whole, done + more, after)
  {
    if after.Ok? {
      Assoc(done, more, after.value);
    }
  }
}
