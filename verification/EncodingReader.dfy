// internal/encoding/encoding.go: Parse and Find, and what reading back a
// written manifest gives.

module EncodingReader {
  import opened Words
  import opened Wrappers
  import opened Seqs
  import opened Bytes
  import opened Encoding

  datatype Header = Header(CKeyPageSize: u32, EKeyPageSize: u32, CKeyPageCount: u32, EKeyPageCount: u32,
                           ESpecBlockSize: u32)

  datatype File = File(Header: Header, Entries: map<Key, CKeyEntry>) {
    function Find(ckey: Key): Option<CKeyEntry> {
      if ckey in Entries then Some(Entries[ckey]) else None
    }
  }

  // ---- the reader ----

  function KeyCount(page: seq<byte>, p: nat): nat
    requires p + 6 <= |page|
  {
    ReadLE(At(page, p, 2))
  }

  function EKeysAt(page: seq<byte>, off: nat, n: nat): (ks: seq<Key>)
    requires off + 16 * n <= |page|
    ensures |ks| == n
  {
    seq(n, k requires 0 <= k < n => At(page, off + 16 * k, 16))
  }

  function RecordAt(page: seq<byte>, p: nat, n: nat): CKeyEntry
    requires p + RECORD_HEAD + 16 * n <= |page|
  {
    CKeyEntry(BE32(At(page, p + 2, 4)), At(page, p + 6, 16), EKeysAt(page, p + RECORD_HEAD, n))
  }

  /** The records from p on; a key count of zero ends the page. */
  function RecordsIn(page: seq<byte>, p: nat): Result<seq<CKeyEntry>>
    decreases |page| - p
  {
    if p + 6 > |page| then Ok([]) else
      var n := KeyCount(page, p);
      if n == 0 then Ok([])
      else if p + RECORD_HEAD + 16 * n > |page| then Err(FileCorrupt)
      else
        match RecordsIn(page, p + RECORD_HEAD + 16 * n)
        case Err(e) => Err(e)
        case Ok(rest) => Ok([RecordAt(page, p, n)] + rest)
  }

  function RecordsOfPages(data: seq<byte>, off: nat, pageBytes: nat, n: nat): Result<seq<CKeyEntry>>
    decreases n
  {
    if n == 0 then Ok([])
    else if off + pageBytes > |data| then Err(FileCorrupt)
    else
      match RecordsIn(At(data, off, pageBytes), 0)
      case Err(e) => Err(e)
      case Ok(first) =>
        match RecordsOfPages(data, off + pageBytes, pageBytes, n - 1)
        case Err(e) => Err(e)
        case Ok(rest) => Ok(first + rest)
  }

  /** The map that results from storing the entries in order. */
  function Stored(m: map<Key, CKeyEntry>, es: seq<CKeyEntry>): map<Key, CKeyEntry> {
    if |es| == 0 then m else Stored(m, es[..|es| - 1])[es[|es| - 1].CKey := es[|es| - 1]]
  }

  function HeaderOf(data: seq<byte>): Header
    requires |data| >= HEADER_SIZE
  {
    PageBytesFit(At(data, 5, 2));
    PageBytesFit(At(data, 7, 2));
    Header(ReadBE(At(data, 5, 2)) * 1024, ReadBE(At(data, 7, 2)) * 1024, BE32(At(data, 9, 4)),
           BE32(At(data, 13, 4)), BE32(At(data, 18, 4)))
  }

  lemma PageBytesFit(s: seq<byte>)
    requires |s| == 2
    ensures 0 <= ReadBE(s) * 1024 < TWO32
  {
    Pow256Values();
  }

  function HeaderError(data: seq<byte>): Option<Error> {
    if |data| < HEADER_SIZE then Some(BadFormat)
    else if ReadLE(At(data, 0, 2)) != MAGIC_ENCODING then Some(BadFormat)
    else if data[2] != 1 then Some(NotSupported)
    else if data[3] != 16 || data[4] != 16 then Some(NotSupported)
    else if PagesStart(data) > |data| then Some(FileCorrupt)
    else None
  }

  function PagesStart(data: seq<byte>): nat
    requires |data| >= HEADER_SIZE
  {
    HEADER_SIZE + HeaderOf(data).ESpecBlockSize + 32 * HeaderOf(data).CKeyPageCount
  }

  function Parsed(data: seq<byte>): Result<File> {
    if HeaderError(data).Some? then Err(HeaderError(data).value) else
      var hdr := HeaderOf(data);
      match RecordsOfPages(data, PagesStart(data), hdr.CKeyPageSize, hdr.CKeyPageCount)
      case Err(e) => Err(e)
      case Ok(es) => Ok(File(hdr, Stored(map[], es)))
  }

  method Parse(data: seq<byte>) returns (r: Result<File>)
    ensures r == Parsed(data)
  {
    hide RecordsIn, HeaderOf;
    if HeaderError(data).Some? {
      return Err(HeaderError(data).value);
    }
    var hdr := HeaderOf(data);
    var off: nat := PagesStart(data);
    var pageBytes := hdr.CKeyPageSize;
    var entries: map<Key, CKeyEntry> := map[];
    ghost var seen: seq<CKeyEntry> := [];
    ghost var whole := RecordsOfPages(data, off, pageBytes, hdr.CKeyPageCount);
    ResumesFromStart(whole);
    for i := 0 to hdr.CKeyPageCount
      invariant entries == Stored(map[], seen)
      invariant Resumes(whole, seen, RecordsOfPages(data, off, pageBytes, hdr.CKeyPageCount - i))
    {
      if off + pageBytes > |data| {
        return Err(FileCorrupt);
      }
      var page := At(data, off, pageBytes);
      ghost var before := RecordsOfPages(data, off, pageBytes, hdr.CKeyPageCount - i);
      ghost var after := RecordsOfPages(data, off + pageBytes, pageBytes, hdr.CKeyPageCount - i - 1);
      var error, more := ParsePage(page, entries);
      if error.Some? {
        return Err(error.value);
      }
      ghost var es := RecordsIn(page, 0).value;
      ResumesLater(whole, seen, es, before, after);
      StoredTwice(map[], seen, es);
      seen := seen + es;
      entries := more;
      off := off + pageBytes;
    }
    assert seen + [] == seen;
    r := Ok(File(hdr, entries));
  }

  lemma {:induction false} StoredTwice(m: map<Key, CKeyEntry>, a: seq<CKeyEntry>, b: seq<CKeyEntry>)
    ensures Stored(Stored(m, a), b) == Stored(m, a + b)
  {
    if |b| == 0 {
      assert a + b == a;
    } else {
      StoredTwice(m, a, b[..|b| - 1]);
      assert (a + b)[..|a + b| - 1] == a + b[..|b| - 1];
    }
  }

  /** The record loop of one page, storing each entry in the map. */
  method ParsePage(page: seq<byte>, start: map<Key, CKeyEntry>) returns (error: Option<Error>, entries: map<Key, CKeyEntry>)
    ensures RecordsIn(page, 0).Err? ==> error == Some(RecordsIn(page, 0).error)
    ensures RecordsIn(page, 0).Ok? ==> error == None && entries == Stored(start, RecordsIn(page, 0).value)
  {
    hide KeyCount, BE32, EKeysAt;
    entries := start;
    ghost var seen: seq<CKeyEntry> := [];
    var p := 0;
    ghost var whole := RecordsIn(page, 0);
    ResumesFromStart(whole);
    while p + 6 <= |page|
      invariant 0 <= p
      invariant entries == Stored(start, seen)
      invariant Resumes(whole, seen, RecordsIn(page, p))
      decreases |page| - p
    {
      var ekeyCount := KeyCount(page, p);
      if ekeyCount == 0 {
        break;
      }
      var recordSize := RECORD_HEAD + 16 * ekeyCount;
      if p + recordSize > |page| {
        return Some(FileCorrupt), entries;
      }
      var ekeys := ReadEKeys(page, p + RECORD_HEAD, ekeyCount);
      var e := CKeyEntry(BE32(At(page, p + 2, 4)), At(page, p + 6, 16), ekeys);
      ResumesLater(whole, seen, [e], RecordsIn(page, p), RecordsIn(page, p + recordSize));
      assert (seen + [e])[..|seen|] == seen;
      seen := seen + [e];
      entries := entries[e.CKey := e];
      p := p + recordSize;
    }
    assert seen + [] == seen;
    error := None;
  }

  method ReadEKeys(page: seq<byte>, off: nat, n: nat) returns (ekeys: seq<Key>)
    requires off + 16 * n <= |page|
    ensures ekeys == EKeysAt(page, off, n)
  {
    ekeys := [];
    for k := 0 to n
      invariant ekeys == EKeysAt(page, off, k)
    {
      ekeys := ekeys + [At(page, off + 16 * k, 16)];
    }
  }

  // ---- what a record can say ----

  /** One to 65535 encoded keys, a 32-bit size, and not larger than a page. */
  predicate Fits(e: CKeyEntry, pageSize: nat) {
    1 <= |e.EKeys| < 0x1_0000 && e.ContentSize < TWO32 && RecordSize(e) <= pageSize
  }

  /** Only such entries ever come out of a page. */
  lemma {:induction false} ReadEntriesFit(page: seq<byte>, p: nat)
    requires RecordsIn(page, p).Ok?
    ensures forall i :: 0 <= i < |RecordsIn(page, p).value| ==> Fits(RecordsIn(page, p).value[i], |page|)
    decreases |page| - p
  {
    hide BE32;
    if p + 6 <= |page| && KeyCount(page, p) > 0 {
      Pow256Values();
      ReadEntriesFit(page, p + RECORD_HEAD + 16 * KeyCount(page, p));
    }
  }

  lemma {:induction false} ReadPagesFit(data: seq<byte>, off: nat, pageBytes: nat, n: nat)
    requires RecordsOfPages(data, off, pageBytes, n).Ok?
    ensures var es := RecordsOfPages(data, off, pageBytes, n).value;
            forall i :: 0 <= i < |es| ==> Fits(es[i], pageBytes)
    decreases n
  {
    hide RecordsIn;
    if n > 0 {
      ReadEntriesFit(At(data, off, pageBytes), 0);
      ReadPagesFit(data, off + pageBytes, pageBytes, n - 1);
    }
  }

  // ---- reading one written page ----

  lemma FrontPieces(a: seq<byte>, b: seq<byte>, key: Key, keys: seq<byte>)
    requires |a| == 2 && |b| == 4
    ensures var r := a + b + key + keys; At(r, 0, 2) == a && At(r, 2, 4) == b && At(r, 6, 16) == key
  {
  }

  lemma RecordFields(e: CKeyEntry)
    requires Fits(e, RecordSize(e))
    ensures var r := Record(e);
            && ReadLE(At(r, 0, 2)) == |e.EKeys|
            && BE32(At(r, 2, 4)) == e.ContentSize
            && At(r, 6, 16) == e.CKey
            && EKeysAt(r, RECORD_HEAD, |e.EKeys|) == e.EKeys
  {
    hide BE32, ReadLE, LE, BE, Concat, EKeysAt;
    var r := Record(e);
    var keys := Concat(e.EKeys);
    var front := LE(|e.EKeys|, 2) + BE(e.ContentSize, 4) + e.CKey;
    assert r == front + keys;
    ConcatLength(e.EKeys, 16);
    FrontPieces(LE(|e.EKeys|, 2), BE(e.ContentSize, 4), e.CKey, keys);
    Pow256Values();
    ReadLEOfLE(|e.EKeys|, 2);
    FieldBE32(e.ContentSize);
    KeysBehind(front, e.EKeys);
  }

  lemma KeysBehind(front: seq<byte>, ekeys: seq<Key>)
    requires |front| == RECORD_HEAD
    ensures |front + Concat(ekeys)| == RECORD_HEAD + 16 * |ekeys|
    ensures EKeysAt(front + Concat(ekeys), RECORD_HEAD, |ekeys|) == ekeys
  {
    hide Concat;
    ConcatLength(ekeys, 16);
    forall k | 0 <= k < |ekeys|
      ensures EKeysAt(front + Concat(ekeys), RECORD_HEAD, |ekeys|)[k] == ekeys[k]
    {
      ConcatRecord(ekeys, 16, k);
      Shifted(front, Concat(ekeys), 16 * k, 16);
    }
  }

  lemma Shifted(a: seq<byte>, b: seq<byte>, off: nat, n: nat)
    requires off + n <= |b|
    ensures At(a + b, |a| + off, n) == b[off..off + n]
  {
  }

  /** A record standing in a page is read as the entry it was written from. */
  lemma RecordRead(page: seq<byte>, p: nat, e: CKeyEntry)
    requires Has(page, p, Record(e)) && Fits(e, RecordSize(e))
    ensures KeyCount(page, p) == |e.EKeys|
    ensures RecordAt(page, p, |e.EKeys|) == e
  {
    hide Record, BE32, ReadLE;
    var r := Record(e);
    RecordFields(e);
    PartOfPiece(page, p, r, 0, 2);
    PartOfPiece(page, p, r, 2, 4);
    PartOfPiece(page, p, r, 6, 16);
    forall k | 0 <= k < |e.EKeys|
      ensures EKeysAt(page, p + RECORD_HEAD, |e.EKeys|)[k] == e.EKeys[k]
    {
      PartOfPiece(page, p, r, RECORD_HEAD + 16 * k, 16);
      assert EKeysAt(r, RECORD_HEAD, |e.EKeys|)[k] == At(r, RECORD_HEAD + 16 * k, 16);
    }
  }

  ghost predicate AllFits(es: seq<CKeyEntry>, pageSize: nat) {
    forall i :: 0 <= i < |es| ==> Fits(es[i], pageSize)
  }

  lemma {:induction false} PageRead(es: seq<CKeyEntry>, pageSize: nat, i: nat)
    requires AllFits(es, pageSize) && |Concat(Records(es))| <= pageSize && i <= |es|
    ensures RecordsIn(Page(es, pageSize), |Concat(Records(es)[..i])|) == Ok(es[i..])
    decreases |es| - i
  {
    hide Concat, Record, RecordSize, KeyCount, RecordAt;
    var page, t := Page(es, pageSize), Records(es);
    if i < |es| {
      var p := |Concat(t[..i])|;
      PageHas(es, pageSize, i);
      RecordLength(es[i]);
      ConcatPiece(t, i);
      RecordRead(page, p, es[i]);
      PageRead(es, pageSize, i + 1);
      assert es[i..] == [es[i]] + es[i + 1..];
    } else {
      assert t[..i] == t && es[i..] == [];
      if |Concat(t)| + 6 <= |page| {
        ZeroCount(Concat(t), pageSize);
      }
    }
  }

  lemma RecordLength(e: CKeyEntry)
    ensures |Record(e)| == RecordSize(e) == RECORD_HEAD + 16 * |e.EKeys|
  {
  }

  lemma PageHas(es: seq<CKeyEntry>, pageSize: nat, i: nat)
    requires |Concat(Records(es))| <= pageSize && i < |es|
    ensures Has(Page(es, pageSize), |Concat(Records(es)[..i])|, Record(es[i]))
  {
    hide Concat, Record;
    var t := Records(es);
    ConcatPiece(t, i);
    var p := |Concat(t[..i])|;
    assert Has(Page(es, pageSize), 0, Concat(t)) by {
      assert Page(es, pageSize)[..|Concat(t)|] == Concat(t);
    }
    PartOfPiece(Page(es, pageSize), 0, Concat(t), p, |t[i]|);
  }

  lemma ZeroCount(s: seq<byte>, pageSize: nat)
    requires |s| + 6 <= pageSize
    ensures KeyCount(Padded(s, pageSize), |s|) == 0
  {
    var z := At(Padded(s, pageSize), |s|, 2);
    assert z == [0, 0];
    assert ReadLE([0, 0]) == 0 by {
      assert [0, 0][1..] == [0];
      assert [0][1..] == [];
    }
  }

  // ---- greedy pages ----

  /** What Taken takes fits, and one more would not. */
  lemma {:induction false} TakenIsGreedy(es: seq<CKeyEntry>, pageSize: nat, off: nat)
    requires off <= pageSize
    ensures var n := Taken(es, pageSize, off);
            && off + |Concat(Records(es[..n]))| <= pageSize
            && (n < |es| ==> off + |Concat(Records(es[..n]))| + RecordSize(es[n]) > pageSize)
    decreases |es|
  {
    hide Record, RecordSize, Concat;
    var n := Taken(es, pageSize, off);
    if n == 0 {
      NothingWritten(es[..0]);
    } else {
      RecordLength(es[0]);
      TakenIsGreedy(es[1..], pageSize, off + RecordSize(es[0]));
      var t := Records(es[..n]);
      ConcatHead(t);
      assert t[1..] == Records(es[1..][..n - 1]);
    }
  }

  lemma NothingWritten(es: seq<CKeyEntry>)
    requires |es| == 0
    ensures Concat(Records(es)) == []
  {
  }

  /** Page g has no room for the first record of the next page h. */
  ghost predicate FullBefore(g: seq<CKeyEntry>, h: seq<CKeyEntry>, pageSize: nat) {
    |h| > 0 && |Concat(Records(g))| + RecordSize(h[0]) > pageSize
  }

  /** The pages hold the entries in order; each fits, and is full: the next record would not fit. */
  lemma {:induction false} PagesPartition(es: seq<CKeyEntry>, pageSize: nat)
    requires AllFit(es, pageSize)
    ensures var gs := Groups(es, pageSize);
            && Concat(gs) == es
            && (forall i :: 0 <= i < |gs| ==> |gs[i]| > 0 && |Concat(Records(gs[i]))| <= pageSize)
            && (forall i :: 1 <= i < |gs| ==> FullBefore(gs[i - 1], gs[i], pageSize))
    decreases |es|
  {
    hide Record, RecordSize, Concat, Records;
    if |es| == 0 {
      NoGroups(es, pageSize);
    } else {
      var n := Taken(es, pageSize, 0);
      PagesPartition(es[n..], pageSize);
      TakenIsGreedy(es, pageSize, 0);
      var gs, rest := Groups(es, pageSize), Groups(es[n..], pageSize);
      ConcatHead(gs);
      assert gs[1..] == rest;
      forall i | 1 <= i < |gs|
        ensures FullBefore(gs[i - 1], gs[i], pageSize)
      {
        if i == 1 {
          FirstOfGroups(es[n..], pageSize);
        } else {
          assert gs[i - 1] == rest[i - 2] && gs[i] == rest[i - 1];
        }
      }
    }
  }

  lemma NoGroups(es: seq<CKeyEntry>, pageSize: nat)
    requires |es| == 0
    ensures Groups(es, pageSize) == [] && Concat(Groups(es, pageSize)) == es
  {
  }

  lemma FirstOfGroups(es: seq<CKeyEntry>, pageSize: nat)
    requires AllFit(es, pageSize) && |Groups(es, pageSize)| > 0
    ensures |es| > 0 && |Groups(es, pageSize)[0]| > 0 && Groups(es, pageSize)[0][0] == es[0]
  {
  }
}
