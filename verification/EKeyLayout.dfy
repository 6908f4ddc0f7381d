// layoutEKeyPages of internal/encoding/writer.go: what the EKey pages hold, and
// what their index says.

module EKeyLayout {
  import opened Words
  import opened Seqs
  import opened Bytes
  import opened Encoding

  /** Entries with keys among the first n. */
  function Keyed(es: seq<CKeyEntry>, n: nat): nat
    requires n <= |es|
  {
    if n == 0 then 0 else Keyed(es, n - 1) + if |es[n - 1].EKeys| > 0 then 1 else 0
  }

  /** Records are those of the entries with keys, in order, each with the entry's own place. */
  lemma {:induction false} RecordOfEntry(es: seq<CKeyEntry>, n: nat, i: nat)
    requires i < n <= |es| && |es[i].EKeys| > 0
    ensures |EKeyRecords(es, 0, n)| == Keyed(es, n) > Keyed(es, i)
    ensures EKeyRecords(es, 0, n)[Keyed(es, i)] == EKeyRecord(es[i], i)
    decreases n
  {
    hide EKeyRecord;
    CountRecords(es, n);
    CountRecords(es, i);
    if i < n - 1 {
      RecordOfEntry(es, n - 1, i);
    }
  }

  lemma {:induction false} CountRecords(es: seq<CKeyEntry>, n: nat)
    requires n <= |es|
    ensures |EKeyRecords(es, 0, n)| == Keyed(es, n)
  {
    if n > 0 {
      CountRecords(es, n - 1);
    }
  }

  lemma {:induction false} RecordsJoin(es: seq<CKeyEntry>, i: nat, m: nat, n: nat)
    requires i <= m <= n <= |es|
    ensures EKeyRecords(es, i, m) + EKeyRecords(es, m, n) == EKeyRecords(es, i, n)
  {
    hide EKeyRecord;
    if m < n {
      RecordsJoin(es, i, m, n - 1);
      var last := if |es[n - 1].EKeys| > 0 then [EKeyRecord(es[n - 1], n - 1)] else [];
      Assoc(EKeyRecords(es, i, m), EKeyRecords(es, m, n - 1), last);
    }
  }

  /** A page takes records while they fit, and stops only at the end or when one more has no room. */
  lemma {:induction false} PageFilled(es: seq<CKeyEntry>, i: nat, pageSize: nat, off: nat)
    requires i <= |es| && off <= pageSize
    ensures var n := PageEnd(es, i, pageSize, off);
            var bytes := EKEY_RECORD * |EKeyRecords(es, i, n)|;
            && off + bytes <= pageSize
            && (n < |es| ==> off + bytes + EKEY_RECORD > pageSize)
    decreases |es| - i
  {
    hide EKeyRecords;
    if i < |es| && off + EKEY_RECORD <= pageSize {
      PageFilled(es, i + 1, pageSize, off + if |es[i].EKeys| > 0 then EKEY_RECORD else 0);
      RecordsJoin(es, i, i + 1, PageEnd(es, i, pageSize, off));
      OneRecord(es, i);
    } else {
      NoRecordsLeft(es, i);
    }
  }

  lemma OneRecord(es: seq<CKeyEntry>, i: nat)
    requires i < |es|
    ensures |EKeyRecords(es, i, i + 1)| == if |es[i].EKeys| > 0 then 1 else 0
  {
    NoRecordsLeft(es, i);
  }

  /** The records of all pages, one page after the other. */
  function OnPages(es: seq<CKeyEntry>, rs: seq<Range>): (t: seq<seq<byte>>)
    requires forall k :: 0 <= k < |rs| ==> rs[k].from < rs[k].to <= |es|
  {
    if |rs| == 0 then [] else EKeyRecords(es, rs[0].from, rs[0].to) + OnPages(es, rs[1..])
  }

  ghost predicate Full(es: seq<CKeyEntry>, r: Range, pageSize: nat)
    requires r.to <= |es|
  {
    EKEY_RECORD * (|EKeyRecords(es, r.from, r.to)| + 1) > pageSize
  }

  /** All records stand on the pages, in order, and every page but the last is full. */
  lemma {:induction false} EveryKeyRecorded(es: seq<CKeyEntry>, i: nat, pageSize: nat)
    requires i <= |es| && pageSize >= EKEY_RECORD
    ensures var rs := EKeyRanges(es, i, pageSize);
            && OnPages(es, rs) == EKeyRecords(es, i, |es|)
            && (forall k :: 0 <= k < |rs| ==> EKEY_RECORD * |EKeyRecords(es, rs[k].from, rs[k].to)| <= pageSize)
            && (forall k :: 0 <= k < |rs| - 1 ==> Full(es, rs[k], pageSize))
    decreases |es| - i
  {
    hide EKeyRecords, PageEnd;
    if i < |es| {
      var n := PageEnd(es, i, pageSize, 0);
      var rs, rest := EKeyRanges(es, i, pageSize), EKeyRanges(es, n, pageSize);
      EveryKeyRecorded(es, n, pageSize);
      PageFilled(es, i, pageSize, 0);
      RecordsJoin(es, i, n, |es|);
      assert rs[1..] == rest;
      forall k | 0 <= k < |rs| - 1
        ensures Full(es, rs[k], pageSize)
      {
        if k > 0 {
          assert rs[k] == rest[k - 1];
        }
      }
    } else {
      NoRecordsLeft(es, i);
    }
  }

  lemma NoRecordsLeft(es: seq<CKeyEntry>, i: nat)
    requires i <= |es|
    ensures EKeyRecords(es, i, i) == []
  {
  }

  /** The key in the index is that of the page's first record, unless the page starts with an entry without keys. */
  lemma IndexedKey(es: seq<CKeyEntry>, r: Range)
    requires r.from < r.to <= |es| && |EKeyRecords(es, r.from, r.to)| > 0
    ensures var key := EKeyRecords(es, r.from, r.to)[0][..16];
            FirstEKey(es[r.from]) == key <==> |es[r.from].EKeys| > 0 || key == ZERO_KEY
  {
    RecordsJoin(es, r.from, r.from + 1, r.to);
    if |es[r.from].EKeys| > 0 {
      assert EKeyRecords(es, r.from, r.from + 1) == [EKeyRecord(es[r.from], r.from)];
    }
  }
}
