// What the segment allocator guarantees over every run of WriteSpan, whatever
// segments the directory held before.

module Allocation {
  import opened Words
  import opened Bytes
  import opened Environment
  import opened BlteReader
  import opened EncodedHeaders
  import opened Archive

  datatype Request = Request(blte: seq<byte>, ekey: Key)

  /** A request that was carried out, and the entry returned for it. */
  datatype Record = Record(req: Request, entry: EKeyEntry)

  datatype Outcome = Outcome(store: Store, log: seq<Record>)

  /** All requests in order, by a new writer on a directory; refused ones leave no trace. */
  function Run(c: Codecs, size: nat, directory: Disk, reqs: seq<Request>): Outcome {
    if |reqs| == 0 then Outcome(NewStore(directory), [])
    else After(c, size, Run(c, size, directory, reqs[..|reqs| - 1]), reqs[|reqs| - 1])
  }

  function After(c: Codecs, size: nat, o: Outcome, q: Request): Outcome {
    if Refusal(o.store, q.blte, size).Some? then o
    else Outcome(Written(c, o.store, q.blte, q.ekey, size), o.log + [Record(q, EntryFor(o.store, q.blte, q.ekey, size))])
  }

  function End(e: EKeyEntry): nat { e.ArchiveOffs + e.EncodedSize }

  /** What a segment of the directory holds before the run. */
  function SizeIn(directory: Disk, segment: u32): nat { if segment in directory then |directory[segment]| else 0 }

  /** Offsets are stored in 32 bits. */
  ghost predicate SmallSegments(directory: Disk) {
    forall k :: k in directory ==> |directory[k]| < TWO32
  }

  /** e is placed right behind d where it fits, or behind all that the next segment held when it does not. */
  predicate Follows(directory: Disk, d: EKeyEntry, e: EKeyEntry, size: nat) {
    || (e.ArchiveIndex == d.ArchiveIndex && e.ArchiveOffs == End(d) && End(e) <= size)
    || (e.ArchiveIndex == d.ArchiveIndex + 1 && e.ArchiveOffs == SizeIn(directory, e.ArchiveIndex)
        && End(d) + e.EncodedSize > size)
  }

  ghost predicate Chained(directory: Disk, log: seq<Record>, size: nat) {
    && (|log| > 0 ==> log[0].entry.ArchiveIndex == 0 && log[0].entry.ArchiveOffs == SizeIn(directory, 0))
    && forall i :: 0 < i < |log| ==> Follows(directory, log[i - 1].entry, log[i].entry, size)
  }

  /** The record's range exists and holds header and stream. */
  ghost predicate Holds(c: Codecs, disk: Disk, r: Record) {
    var e := r.entry;
    && e.ArchiveIndex in disk
    && e.EKey == r.req.ekey
    && e.EncodedSize == ENCODED_HEADER_SIZE + |r.req.blte|
    && End(e) <= |disk[e.ArchiveIndex]|
    && At(disk[e.ArchiveIndex], e.ArchiveOffs, e.EncodedSize) == Span(c, r.req.blte, r.req.ekey, e.ArchiveOffs)
  }

  predicate Covers(r: Record, segment: u32, position: nat) {
    r.entry.ArchiveIndex == segment && r.entry.ArchiveOffs <= position < End(r.entry)
  }

  predicate HasByte(d: Disk, segment: u32, position: nat) {
    segment in d && position < |d[segment]|
  }

  ghost predicate Covered(log: seq<Record>, k: u32, p: nat) {
    exists i :: 0 <= i < |log| && Covers(log[i], k, p)
  }

  /** The spans take every byte that was not there before, and none that was. */
  ghost predicate GapFree(directory: Disk, o: Outcome) {
    forall k: u32, p: nat :: HasByte(o.store.disk, k, p) ==> (Covered(o.log, k, p) <==> p >= SizeIn(directory, k))
  }

  /** The writer stands at the end of the last span. */
  ghost predicate AtEnd(o: Outcome) {
    var s := o.store;
    && s.isOpen
    && s.segmentIndex < |o.log|
    && s.segmentIndex in s.disk
    && s.segmentOffs == |s.disk[s.segmentIndex]| == End(o.log[|o.log| - 1].entry)
    && s.segmentIndex == o.log[|o.log| - 1].entry.ArchiveIndex
  }

  /** What was there is still there, and later segments are as they were. */
  ghost predicate Kept(directory: Disk, s: Store) {
    && (forall k :: k in directory ==> k in s.disk && directory[k] <= s.disk[k])
    && (forall k :: k in s.disk && k > s.segmentIndex ==> k in directory && s.disk[k] == directory[k])
  }

  ghost predicate Laid(c: Codecs, size: nat, directory: Disk, o: Outcome) {
    && !o.store.closed
    && (if |o.log| == 0 then o.store == NewStore(directory) else AtEnd(o))
    && Kept(directory, o.store)
    && Chained(directory, o.log, size)
    && (forall i :: 0 <= i < |o.log| ==> Holds(c, o.store.disk, o.log[i]))
    && GapFree(directory, o)
  }

  // ---- one step keeps the layout ----

  /** Where the next span goes, and what the segment held before. */
  lemma Placement(c: Codecs, size: nat, directory: Disk, o: Outcome, total: nat)
    requires Laid(c, size, directory, o) && |o.log| < TWO32 - 1
    requires total <= size < TWO32 && SmallSegments(directory)
    ensures var s, p := o.store, Placed(o.store, total, size);
            && p.isOpen && !p.closed
            && s.segmentIndex <= p.segmentIndex <= |o.log|
            && p.segmentIndex in p.disk
            && SizeIn(directory, p.segmentIndex) <= p.segmentOffs == |p.disk[p.segmentIndex]| < TWO32
            && (forall k :: k in p.disk <==> k in s.disk || k == p.segmentIndex)
            && (forall k :: k in s.disk ==> p.disk[k] == s.disk[k])
            && (p.segmentIndex !in s.disk ==> p.segmentOffs == 0)
    ensures |o.log| > 0 ==>
              var d, p := o.log[|o.log| - 1].entry, Placed(o.store, total, size);
              || (p.segmentIndex == d.ArchiveIndex && p.segmentOffs == End(d) && p.segmentOffs + total <= size)
              || (p.segmentIndex == d.ArchiveIndex + 1 && p.segmentOffs == SizeIn(directory, p.segmentIndex)
                  && End(d) + total > size)
    ensures |o.log| == 0 ==>
              Placed(o.store, total, size).segmentIndex == 0 && Placed(o.store, total, size).segmentOffs == SizeIn(directory, 0)
  {
    hide EncodedHeader, Span, GapFree;
    if |o.log| > 0 {
      assert Holds(c, o.store.disk, o.log[|o.log| - 1]);
    }
  }

  lemma StepKeepsLayout(c: Codecs, size: nat, directory: Disk, o: Outcome, q: Request)
    requires Laid(c, size, directory, o) && |o.log| < TWO32 - 1 && size < TWO32 && SmallSegments(directory)
    ensures Laid(c, size, directory, After(c, size, o, q))
  {
    if Refusal(o.store, q.blte, size).None? {
      hide Placed, Span, GapFree, Holds, Follows;
      var o' := After(c, size, o, q);
      Placement(c, size, directory, o, ENCODED_HEADER_SIZE + |q.blte|);
      forall i | 0 <= i < |o'.log|
        ensures Holds(c, o'.store.disk, o'.log[i])
      {
        if i < |o.log| {
          assert o'.log[i] == o.log[i];
          StillHolds(c, size, directory, o, q, o.log[i]);
        } else {
          NewHolds(c, size, directory, o, q);
        }
      }
      StillGapFree(c, size, directory, o, q);
      StillAtEnd(c, size, directory, o, q);
      StillKept(c, size, directory, o, q);
      StillChained(c, size, directory, o, q);
    }
  }

  lemma StillChained(c: Codecs, size: nat, directory: Disk, o: Outcome, q: Request)
    requires Laid(c, size, directory, o) && |o.log| < TWO32 - 1 && size < TWO32 && SmallSegments(directory)
    requires Refusal(o.store, q.blte, size).None?
    ensures Chained(directory, After(c, size, o, q).log, size)
  {
    hide Placed, Span, GapFree, Holds, AtEnd, Kept;
    Placement(c, size, directory, o, ENCODED_HEADER_SIZE + |q.blte|);
    var log := After(c, size, o, q).log;
    forall i | 0 < i < |log|
      ensures Follows(directory, log[i - 1].entry, log[i].entry, size)
    {
      if i < |o.log| {
        assert log[i] == o.log[i] && log[i - 1] == o.log[i - 1];
      }
    }
  }

  lemma StillAtEnd(c: Codecs, size: nat, directory: Disk, o: Outcome, q: Request)
    requires Laid(c, size, directory, o) && |o.log| < TWO32 - 1 && size < TWO32 && SmallSegments(directory)
    requires Refusal(o.store, q.blte, size).None?
    ensures AtEnd(After(c, size, o, q))
  {
    hide Placed, Span, GapFree, Holds, Chained, Kept;
    Placement(c, size, directory, o, ENCODED_HEADER_SIZE + |q.blte|);
  }

  lemma StillKept(c: Codecs, size: nat, directory: Disk, o: Outcome, q: Request)
    requires Laid(c, size, directory, o) && |o.log| < TWO32 - 1 && size < TWO32 && SmallSegments(directory)
    requires Refusal(o.store, q.blte, size).None?
    ensures Kept(directory, After(c, size, o, q).store)
  {
    hide Placed, Span, GapFree, Holds, Chained, AtEnd;
    Placement(c, size, directory, o, ENCODED_HEADER_SIZE + |q.blte|);
  }

  /** Earlier spans are not touched. */
  lemma StillHolds(c: Codecs, size: nat, directory: Disk, o: Outcome, q: Request, r: Record)
    requires Laid(c, size, directory, o) && |o.log| < TWO32 - 1 && size < TWO32 && SmallSegments(directory)
    requires Refusal(o.store, q.blte, size).None?
    requires Holds(c, o.store.disk, r)
    ensures Holds(c, After(c, size, o, q).store.disk, r)
  {
    hide Placed, Span, Laid;
    Placement(c, size, directory, o, ENCODED_HEADER_SIZE + |q.blte|);
    var before := o.store.disk[r.entry.ArchiveIndex];
    var after := After(c, size, o, q).store.disk[r.entry.ArchiveIndex];
    assert before <= after;
    assert At(after, r.entry.ArchiveOffs, r.entry.EncodedSize) == At(before, r.entry.ArchiveOffs, r.entry.EncodedSize);
  }

  lemma NewHolds(c: Codecs, size: nat, directory: Disk, o: Outcome, q: Request)
    requires Laid(c, size, directory, o) && |o.log| < TWO32 - 1 && size < TWO32 && SmallSegments(directory)
    requires Refusal(o.store, q.blte, size).None?
    ensures var o' := After(c, size, o, q); Holds(c, o'.store.disk, o'.log[|o.log|])
  {
    hide Placed, Span, Laid;
    Placement(c, size, directory, o, ENCODED_HEADER_SIZE + |q.blte|);
    var p := Placed(o.store, ENCODED_HEADER_SIZE + |q.blte|, size);
    var file := p.disk[p.segmentIndex];
    var span := Span(c, q.blte, q.ekey, p.segmentOffs);
    assert At(file + span, |file|, |span|) == span;
  }

  lemma StillGapFree(c: Codecs, size: nat, directory: Disk, o: Outcome, q: Request)
    requires Laid(c, size, directory, o) && |o.log| < TWO32 - 1 && size < TWO32 && SmallSegments(directory)
    requires Refusal(o.store, q.blte, size).None?
    ensures GapFree(directory, After(c, size, o, q))
  {
    hide Placed, Span, Chained, Holds, AtEnd, Kept, Covers, HasByte, Covered;
    Placement(c, size, directory, o, ENCODED_HEADER_SIZE + |q.blte|);
    var o' := After(c, size, o, q);
    var last := |o.log|;
    forall k: u32, p: nat | HasByte(o'.store.disk, k, p)
      ensures Covered(o'.log, k, p) <==> p >= SizeIn(directory, k)
    {
      OneMoreCovers(o.log, o'.log[last], k, p);
      NewByte(c, size, directory, o, q, k, p);
    }
  }

  /** A byte is an old one, or the new span covers it; the new span lies behind what was there. */
  lemma NewByte(c: Codecs, size: nat, directory: Disk, o: Outcome, q: Request, k: u32, p: nat)
    requires Laid(c, size, directory, o) && |o.log| < TWO32 - 1 && size < TWO32 && SmallSegments(directory)
    requires Refusal(o.store, q.blte, size).None? && HasByte(After(c, size, o, q).store.disk, k, p)
    ensures var r := After(c, size, o, q).log[|o.log|];
            && (HasByte(o.store.disk, k, p) <==> !Covers(r, k, p))
            && (Covers(r, k, p) ==> p >= SizeIn(directory, k))
  {
    hide Placed, Span, Laid;
    Placement(c, size, directory, o, ENCODED_HEADER_SIZE + |q.blte|);
  }

  lemma OneMoreCovers(log: seq<Record>, r: Record, k: u32, p: nat)
    ensures Covered(log + [r], k, p) <==> Covered(log, k, p) || Covers(r, k, p)
  {
    if Covered(log, k, p) {
      var i :| 0 <= i < |log| && Covers(log[i], k, p);
      assert Covers((log + [r])[i], k, p);
    }
    if Covers(r, k, p) {
      assert Covers((log + [r])[|log|], k, p);
    }
  }

  // ---- every run ----

  lemma {:induction false} RunIsLaid(c: Codecs, size: nat, directory: Disk, reqs: seq<Request>)
    requires |reqs| < TWO32 - 1 && size < TWO32 && SmallSegments(directory)
    ensures Laid(c, size, directory, Run(c, size, directory, reqs)) && |Run(c, size, directory, reqs).log| <= |reqs|
  {
    if |reqs| > 0 {
      hide Laid, Written, EntryFor, Refusal;
      RunIsLaid(c, size, directory, reqs[..|reqs| - 1]);
      StepKeepsLayout(c, size, directory, Run(c, size, directory, reqs[..|reqs| - 1]), reqs[|reqs| - 1]);
    } else {
      hide Span, Placed;
    }
  }

  /** Of two spans the earlier one ends before the later one begins. */
  lemma {:induction false} SpansDisjoint(directory: Disk, log: seq<Record>, size: nat, i: nat, j: nat)
    requires Chained(directory, log, size) && i < j < |log|
    ensures log[i].entry.ArchiveIndex < log[j].entry.ArchiveIndex
         || (log[i].entry.ArchiveIndex == log[j].entry.ArchiveIndex && End(log[i].entry) <= log[j].entry.ArchiveOffs)
    decreases j - i
  {
    assert Follows(directory, log[j - 1].entry, log[j].entry, size);
    if i < j - 1 {
      SpansDisjoint(directory, log, size, i, j - 1);
    }
  }

  /** Segments only grow: a span handed out once stays as it was. */
  lemma {:induction false} RunOnlyGrows(c: Codecs, size: nat, directory: Disk, reqs: seq<Request>, k: nat)
    requires |reqs| < TWO32 - 1 && size < TWO32 && SmallSegments(directory) && k <= |reqs|
    ensures Run(c, size, directory, reqs[..k]).log <= Run(c, size, directory, reqs).log
    ensures var early, late := Run(c, size, directory, reqs[..k]).store.disk, Run(c, size, directory, reqs).store.disk;
            forall s :: s in early ==> s in late && early[s] <= late[s]
    decreases |reqs|
  {
    if k == |reqs| {
      assert reqs[..k] == reqs;
    } else {
      hide After, Laid;
      var front := reqs[..|reqs| - 1];
      assert front[..k] == reqs[..k];
      RunOnlyGrows(c, size, directory, front, k);
      RunIsLaid(c, size, directory, front);
      StepGrows(c, size, directory, Run(c, size, directory, front), reqs[|reqs| - 1]);
    }
  }

  lemma StepGrows(c: Codecs, size: nat, directory: Disk, o: Outcome, q: Request)
    requires Laid(c, size, directory, o) && |o.log| < TWO32 - 1 && size < TWO32 && SmallSegments(directory)
    ensures o.log <= After(c, size, o, q).log
    ensures var late := After(c, size, o, q).store.disk;
            forall s :: s in o.store.disk ==> s in late && o.store.disk[s] <= late[s]
  {
    if Refusal(o.store, q.blte, size).None? {
      hide Placed, Span, Laid, EntryFor, Written;
      Placement(c, size, directory, o, ENCODED_HEADER_SIZE + |q.blte|);
      WrittenGrows(c, o.store, q, size);
    }
  }

  lemma WrittenGrows(c: Codecs, s: Store, q: Request, size: nat)
    ensures var p, late := Placed(s, ENCODED_HEADER_SIZE + |q.blte|, size), Written(c, s, q.blte, q.ekey, size).disk;
            forall k :: k in p.disk ==> k in late && p.disk[k] <= late[k]
  {
    hide Placed, Span;
  }

  /**
   * Over every run: each range holds header and stream, ranges are disjoint, they cover all that
   * was not there before and nothing that was, and that stays.
   */
  lemma RunAllocates(c: Codecs, size: nat, directory: Disk, reqs: seq<Request>)
    requires |reqs| < TWO32 - 1 && size < TWO32 && SmallSegments(directory)
    ensures var o := Run(c, size, directory, reqs);
            && (forall i :: 0 <= i < |o.log| ==> Holds(c, o.store.disk, o.log[i]))
            && (forall i, j, k, p :: 0 <= i < j < |o.log| ==> !(Covers(o.log[i], k, p) && Covers(o.log[j], k, p)))
            && GapFree(directory, o)
            && (forall k :: k in directory ==> k in o.store.disk && directory[k] <= o.store.disk[k])
  {
    hide Holds, GapFree, Run;
    RunIsLaid(c, size, directory, reqs);
    var o := Run(c, size, directory, reqs);
    forall i, j, k, p | 0 <= i < j < |o.log|
      ensures !(Covers(o.log[i], k, p) && Covers(o.log[j], k, p))
    {
      SpansDisjoint(directory, o.log, size, i, j);
    }
  }

  // ---- which ranges end within the segment size ----

  /** The i-th span is the first that the run puts into its segment. */
  predicate Opens(log: seq<Record>, i: nat)
    requires i < |log|
  {
    i == 0 || log[i - 1].entry.ArchiveIndex != log[i].entry.ArchiveIndex
  }

  /**
   * The size is not looked at again once a segment is open: a range ends within it unless it is
   * the first in a segment that has too little room left.
   */
  lemma RunEndsWithin(c: Codecs, size: nat, directory: Disk, reqs: seq<Request>, i: nat)
    requires |reqs| < TWO32 - 1 && size < TWO32 && SmallSegments(directory)
    requires i < |Run(c, size, directory, reqs).log|
    ensures var log := Run(c, size, directory, reqs).log;
            End(log[i].entry) <= size
            <==> (Opens(log, i) ==>
                    SizeIn(directory, log[i].entry.ArchiveIndex) + ENCODED_HEADER_SIZE + |log[i].req.blte| <= size)
  {
    hide GapFree, Run, Span;
    RunIsLaid(c, size, directory, reqs);
    var o := Run(c, size, directory, reqs);
    assert Holds(c, o.store.disk, o.log[i]);
    if i > 0 {
      assert Follows(directory, o.log[i - 1].entry, o.log[i].entry, size);
    }
  }

  /** So in a new directory every range ends within the segment size. */
  lemma NewRunEndsWithin(c: Codecs, size: nat, reqs: seq<Request>, i: nat)
    requires |reqs| < TWO32 - 1 && size < TWO32
    requires i < |Run(c, size, map[], reqs).log|
    ensures End(Run(c, size, map[], reqs).log[i].entry) <= size
  {
    hide Run;
    RunEndsWithin(c, size, map[], reqs, i);
    EachFits(c, size, map[], reqs, i);
  }

  lemma {:induction false} EachFits(c: Codecs, size: nat, directory: Disk, reqs: seq<Request>, i: nat)
    requires i < |Run(c, size, directory, reqs).log|
    ensures ENCODED_HEADER_SIZE + |Run(c, size, directory, reqs).log[i].req.blte| <= size
    decreases |reqs|
  {
    hide Written, EntryFor;
    if i < |Run(c, size, directory, reqs[..|reqs| - 1]).log| {
      EachFits(c, size, directory, reqs[..|reqs| - 1], i);
    }
  }

  /** And on a first segment that is one byte short of full the first range ends past it. */
  lemma LastByteOverrun(c: Codecs, size: nat, file: seq<byte>, q: Request)
    requires 8 <= |q.blte| && ENCODED_HEADER_SIZE + |q.blte| <= size < TWO32 && |file| == size - 1
    ensures var o := Run(c, size, map[0 := file], [q]);
            |o.log| == 1 && End(o.log[0].entry) == size - 1 + ENCODED_HEADER_SIZE + |q.blte| > size
  {
    hide Span;
    assert [q][..0] == [];
  }
}
