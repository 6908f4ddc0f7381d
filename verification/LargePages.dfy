// ENCODING with page sizes of 65536 KB and more: the size's two bytes keep only
// a remainder, and the reader takes pages of that many bytes.

module LargePages {
  import opened Words
  import opened Wrappers
  import opened Seqs
  import opened Bytes
  import opened Environment
  import opened Encoding
  import opened EncodingReader
  import opened EncodingRoundTrip

  const WRAP: nat := 0x400_0000

  ghost predicate KeysDistinct(es: seq<CKeyEntry>) {
    forall i, j :: 0 <= i < j < |es| ==> es[i].CKey != es[j].CKey
  }

  /** Bytes of the records of these entries. */
  ghost function Total(es: seq<CKeyEntry>): nat {
    if |es| == 0 then 0 else RecordSize(es[0]) + Total(es[1..])
  }

  lemma {:induction false} TotalIs(es: seq<CKeyEntry>)
    ensures Total(es) == |Concat(Records(es))|
  {
    hide Concat, Record, RecordSize;
    if |es| == 0 {
      NothingWritten(es);
    } else {
      RecordLength(es[0]);
      TotalIs(es[1..]);
      ConcatHead(Records(es));
      assert Records(es)[1..] == Records(es[1..]);
    }
  }

  lemma {:induction false} TotalBoth(a: seq<CKeyEntry>, b: seq<CKeyEntry>)
    ensures Total(a + b) == Total(a) + Total(b)
  {
    if |a| == 0 {
      assert a + b == b;
    } else {
      TotalBoth(a[1..], b);
      assert (a + b)[1..] == a[1..] + b;
    }
  }

  // ---- what is read is no more than what is there ----

  lemma {:induction false} PageTotal(page: seq<byte>, p: nat)
    requires p <= |page| && RecordsIn(page, p).Ok?
    ensures p + Total(RecordsIn(page, p).value) <= |page|
    decreases |page| - p
  {
    hide KeyCount, BE32;
    if p + 6 <= |page| && KeyCount(page, p) > 0 {
      PageTotal(page, p + RECORD_HEAD + 16 * KeyCount(page, p));
      assert RecordsIn(page, p).value[1..] == RecordsIn(page, p + RECORD_HEAD + 16 * KeyCount(page, p)).value;
    }
  }

  lemma {:induction false} PagesTotal(data: seq<byte>, off: nat, pageBytes: nat, n: nat)
    requires RecordsOfPages(data, off, pageBytes, n).Ok?
    ensures Total(RecordsOfPages(data, off, pageBytes, n).value) <= pageBytes * n
    decreases n
  {
    hide RecordsIn;
    if n > 0 {
      PageTotal(At(data, off, pageBytes), 0);
      PagesTotal(data, off + pageBytes, pageBytes, n - 1);
      TotalBoth(RecordsIn(At(data, off, pageBytes), 0).value, RecordsOfPages(data, off + pageBytes, pageBytes, n - 1).value);
      Times(pageBytes, n);
    }
  }

  /** Distinct entries that all occur in a list have no more bytes than the list. */
  lemma {:induction false} PartOfTotal(es: seq<CKeyEntry>, all: seq<CKeyEntry>)
    requires KeysDistinct(es) && forall i :: 0 <= i < |es| ==> es[i] in all
    ensures Total(es) <= Total(all)
  {
    hide RecordSize;
    if |es| > 0 {
      var j :| 0 <= j < |all| && all[j] == es[0];
      var rest := all[..j] + all[j + 1..];
      assert all == all[..j] + ([all[j]] + all[j + 1..]);
      TotalBoth(all[..j], [all[j]] + all[j + 1..]);
      TotalBoth(all[..j], all[j + 1..]);
      forall i | 0 <= i < |es| - 1
        ensures es[1..][i] in rest
      {
        assert es[i + 1] in all && es[i + 1].CKey != es[0].CKey;
      }
      PartOfTotal(es[1..], rest);
    }
  }

  // ---- what is written on several pages is more than the reader looks at ----

  const LARGEST_RECORD: nat := RECORD_HEAD + 16 * 0xFFFF

  lemma {:induction false} ManyPages(es: seq<CKeyEntry>, size: nat)
    requires AllFit(es, size) && AllFit(es, LARGEST_RECORD) && |es| > 0 && size > LARGEST_RECORD
    ensures var n := |Groups(es, size)|;
            n >= 1 && Total(es) > (n - 1) * (size - LARGEST_RECORD) && (n >= 2 ==> Total(es) > size)
    decreases |es|
  {
    hide Record, Records, Concat, Taken;
    var k := Taken(es, size, 0);
    assert es == es[..k] + es[k..];
    TotalBoth(es[..k], es[k..]);
    FirstPage(es, size);
    hide Groups;
    if k < |es| {
      ManyPages(es[k..], size);
      OneMoreTime(|Groups(es[k..], size)| - 1, size - LARGEST_RECORD);
    }
  }

  /** The first page is full up to less than a record, if there is a second. */
  lemma FirstPage(es: seq<CKeyEntry>, size: nat)
    requires AllFit(es, size) && AllFit(es, LARGEST_RECORD) && |es| > 0
    ensures var k := Taken(es, size, 0);
            && 0 < k && |Groups(es, size)| == 1 + |Groups(es[k..], size)|
            && Total(es[..k]) > 0
            && (k < |es| ==> Total(es[..k]) + LARGEST_RECORD > size && Total(es[..k]) + Total(es[k..]) > size)
            && (k == |es| ==> Groups(es[k..], size) == [])
  {
    hide Record, Records, Concat, Taken;
    var k := Taken(es, size, 0);
    TakenIsGreedy(es, size, 0);
    TotalIs(es[..k]);
    assert es[k..] != [] ==> es[k..][0] == es[k];
  }

  lemma OneMoreTime(n: nat, x: nat)
    ensures (n + 1) * x == n * x + x
  {
  }

  lemma TooMuch(n: nat, size: nat)
    requires n >= 3 && size >= WRAP
    ensures (n - 1) * (size - LARGEST_RECORD) >= size % WRAP * n
  {
    var small := size % WRAP;
    var more := size - LARGEST_RECORD - small;
    assert size - small >= WRAP && 2 * more >= small;
    assert (n - 1) * (small + more) == small * n - small + (n - 1) * more;
    assert (n - 1) * more >= 2 * more;
  }

  lemma SeveralPages(es: seq<CKeyEntry>, size: nat)
    requires AllFit(es, size) && AllFit(es, LARGEST_RECORD) && size >= WRAP
    ensures var n := |Groups(es, size)|; n >= 2 ==> Total(es) > size % WRAP * n && Total(es) > size
  {
    hide Total;
    if |es| > 0 {
      ManyPages(es, size);
      var n := |Groups(es, size)|;
      hide Groups;
      if n >= 3 {
        TooMuch(n, size);
      }
      assert size >= WRAP + size % WRAP;
    }
  }

  // ---- exactly which manifests come back ----

  lemma SmallPage(size: u32)
    requires size % 1024 == 0
    ensures size / 1024 % 0x1_0000 * 1024 == size % WRAP
  {
  }

  lemma NoLargeRecord(es: seq<CKeyEntry>, small: nat)
    requires AllFits(es, small)
    ensures AllFit(es, LARGEST_RECORD) && AllFit(es, small)
  {
  }

  lemma FoundBack(c: Codecs, sorted: seq<CKeyEntry>, opts: WriteOptions)
    requires PageSizeOf(opts.CKeyPageSize) % 1024 == 0 && PageSizeOf(opts.CKeyPageSize) >= WRAP
    requires PageSizeOf(opts.EKeyPageSize) % 1024 == 0
    requires InMemory(sorted, opts) && KeysDistinct(sorted)
    requires Parsed(EncodingBytes(c, sorted, opts)).Ok?
    requires IsMapOf(Parsed(EncodingBytes(c, sorted, opts)).value.Entries, sorted)
    ensures var small := PageSizeOf(opts.CKeyPageSize) % WRAP; AllFits(sorted, small) && Total(sorted) <= small
  {
    hide EncodingBytes, HeaderOf, PagesStart, HeaderError, RecordsOfPages, Parsed, Front, Groups, CutAll, Stored, Total,
         IsMapOf, AllFits, AllFit, KeysDistinct, KeysAgree, InMemory, Concat, Records, Pages, EKeyPart;
    var size := PageSizeOf(opts.CKeyPageSize);
    var data := EncodingBytes(c, sorted, opts);
    EntriesSmall(c, sorted, opts);
    HeaderAgrees(c, sorted, opts);
    SmallPage(size);
    var all := ParsedFrom(data);
    PagesTotal(data, PagesStart(data), size % WRAP, HeaderOf(data).CKeyPageCount);
    Occur(sorted, Parsed(data).value.Entries, all);
    PartOfTotal(sorted, all);
  }

  /** Entries that came back fit the small pages, so nothing was cut, and several pages would hold too much. */
  lemma EntriesSmall(c: Codecs, sorted: seq<CKeyEntry>, opts: WriteOptions)
    requires PageSizeOf(opts.CKeyPageSize) % 1024 == 0 && PageSizeOf(opts.CKeyPageSize) >= WRAP
    requires PageSizeOf(opts.EKeyPageSize) % 1024 == 0 && InMemory(sorted, opts)
    requires Parsed(EncodingBytes(c, sorted, opts)).Ok?
    requires IsMapOf(Parsed(EncodingBytes(c, sorted, opts)).value.Entries, sorted)
    ensures var size := PageSizeOf(opts.CKeyPageSize);
            && AllFits(sorted, size % WRAP)
            && CutAll(sorted, size) == sorted && AllFit(sorted, size)
            && var n := |Groups(sorted, size)|; n >= 2 ==> Total(sorted) > size % WRAP * n
  {
    hide EncodingBytes, HeaderOf, PagesStart, HeaderError, RecordsOfPages, Parsed, Front, Groups, CutAll, Stored, Total,
         IsMapOf, AllFits, AllFit, KeysDistinct, KeysAgree, InMemory, Concat, Records, Pages, EKeyPart;
    var size := PageSizeOf(opts.CKeyPageSize);
    var small := size % WRAP;
    var data := EncodingBytes(c, sorted, opts);
    HeaderAgrees(c, sorted, opts);
    SmallPage(size);
    ReadEntriesAlwaysFit(data);
    AllRead(sorted, Parsed(data).value.Entries, small);
    NoLargeRecord(sorted, small);
    FitsLarger(sorted, small, size);
    NothingCut(sorted, size);
    NoLargeRecord(sorted, size);
    SeveralPages(sorted, size);
  }

  lemma AllRead(es: seq<CKeyEntry>, m: map<Key, CKeyEntry>, small: nat)
    requires IsMapOf(m, es) && forall k :: k in m ==> Fits(m[k], small)
    ensures AllFits(es, small)
  {
    hide Fits;
    forall i | 0 <= i < |es|
      ensures Fits(es[i], small)
    {
      assert m[es[i].CKey] == es[i];
    }
  }

  lemma ParsedFrom(data: seq<byte>) returns (all: seq<CKeyEntry>)
    requires Parsed(data).Ok?
    ensures HeaderError(data).None?
    ensures var h := HeaderOf(data); RecordsOfPages(data, PagesStart(data), h.CKeyPageSize, h.CKeyPageCount) == Ok(all)
    ensures Parsed(data).value.Entries == Stored(map[], all)
  {
    hide Stored, HeaderOf, PagesStart, RecordsOfPages;
    var h := HeaderOf(data);
    all := RecordsOfPages(data, PagesStart(data), h.CKeyPageSize, h.CKeyPageCount).value;
  }

  lemma Occur(es: seq<CKeyEntry>, m: map<Key, CKeyEntry>, all: seq<CKeyEntry>)
    requires IsMapOf(m, es) && m == Stored(map[], all)
    ensures forall i :: 0 <= i < |es| ==> es[i] in all
  {
    hide Stored;
    StoredComesFrom(all);
    forall i | 0 <= i < |es|
      ensures es[i] in all
    {
      assert m[es[i].CKey] == es[i];
    }
  }

  /** One page, of which the reader takes the first bytes: what it takes is itself a page of that size. */
  lemma FirstBytes(front: seq<byte>, es: seq<CKeyEntry>, size: nat, small: nat)
    requires small <= size && |Concat(Records(es))| <= small
    ensures |front + Page(es, size)| >= |front| + small && At(front + Page(es, size), |front|, small) == Page(es, small)
  {
    hide Concat, Records;
  }

  lemma OneGroup(es: seq<CKeyEntry>, size: nat)
    requires AllFit(es, size) && AllFit(es, LARGEST_RECORD) && size >= WRAP && Total(es) <= size
    ensures Groups(es, size) == if |es| == 0 then [] else [es]
  {
    SeveralPages(es, size);
    PagesPartition(es, size);
    var gs := Groups(es, size);
    if |es| > 0 {
      hide Groups;
      JoinedOne(gs);
    }
  }

  lemma JoinedOne(gs: seq<seq<CKeyEntry>>)
    requires |gs| == 1
    ensures gs == [Concat(gs)]
  {
    NoPieces(gs);
    ConcatSnoc(gs, 0);
    assert gs[..1] == gs && Concat(gs) == gs[0];
  }

  lemma OnePageRead(front: seq<byte>, tail: seq<byte>, es: seq<CKeyEntry>, size: nat, small: nat)
    requires AllFits(es, small) && small <= size && |Concat(Records(es))| <= small
    ensures RecordsOfPages(front + Concat(Pages([es], size)) + tail, |front|, small, 1) == Ok(es)
  {
    hide Page, Records, RecordsIn, AllFits, Concat;
    JoinedPage(es, size);
    FirstBytes(front, es, size, small);
    WholePageRead(es, small);
    var data := front + Page(es, size) + tail;
    InFront(front + Page(es, size), tail, |front|, small);
    assert RecordsOfPages(data, |front| + small, small, 0) == Ok([]);
    assert es + [] == es;
  }

  lemma JoinedPage(es: seq<CKeyEntry>, size: nat)
    ensures Concat(Pages([es], size)) == Page(es, size)
  {
    hide Page;
    var ps := Pages([es], size);
    assert ps[..0] == [];
  }

  lemma NoPageRead(data: seq<byte>, off: nat, small: nat)
    ensures RecordsOfPages(data, off, small, 0) == Ok([])
  {
  }

  lemma FitsBack(c: Codecs, sorted: seq<CKeyEntry>, opts: WriteOptions)
    requires PageSizeOf(opts.CKeyPageSize) % 1024 == 0 && PageSizeOf(opts.CKeyPageSize) >= WRAP
    requires PageSizeOf(opts.EKeyPageSize) % 1024 == 0
    requires InMemory(sorted, opts) && KeysDistinct(sorted)
    requires var small := PageSizeOf(opts.CKeyPageSize) % WRAP; AllFits(sorted, small) && |Concat(Records(sorted))| <= small
    ensures Parsed(EncodingBytes(c, sorted, opts)).Ok?
    ensures IsMapOf(Parsed(EncodingBytes(c, sorted, opts)).value.Entries, sorted)
  {
    hide EncodingBytes, HeaderOf, PagesStart, HeaderError, RecordsOfPages, Parsed, Front, Groups, CutAll, Stored, Total,
         IsMapOf, AllFits, AllFit, KeysDistinct, KeysAgree, InMemory, Concat, Records, Pages, EKeyPart;
    var size := PageSizeOf(opts.CKeyPageSize);
    var small := size % WRAP;
    HeaderAgrees(c, sorted, opts);
    SmallPage(size);
    FitsLarger(sorted, small, size);
    NothingCut(sorted, size);
    NoLargeRecord(sorted, small);
    NoLargeRecord(sorted, size);
    FrontThenPages(c, sorted, opts);
    TotalIs(sorted);
    OneGroup(sorted, size);
    if |sorted| > 0 {
      OnePageRead(Front(c, sorted, opts), EKeyPart(c, sorted, opts), sorted, size, small);
    } else {
      NoPageRead(EncodingBytes(c, sorted, opts), PagesStart(EncodingBytes(c, sorted, opts)), small);
    }
    ParsedRecords(EncodingBytes(c, sorted, opts), sorted);
    DistinctAgree(sorted);
    StoredIsMap(sorted);
  }

  lemma FitsLarger(es: seq<CKeyEntry>, small: nat, size: nat)
    requires AllFits(es, small) && small <= size
    ensures AllFits(es, size)
  {
  }

  lemma DistinctAgree(es: seq<CKeyEntry>)
    requires KeysDistinct(es)
    ensures KeysAgree(es)
  {
  }

  /**
   * With pages of 65536 KB or more, parsing gives the map of distinct entries exactly when all their records
   * together fit the remainder of the page size by 65536 KB, and their counts and sizes fit their fields.
   */
  lemma LargePageComesBack(c: Codecs, sorted: seq<CKeyEntry>, opts: WriteOptions)
    requires PageSizeOf(opts.CKeyPageSize) % 1024 == 0 && PageSizeOf(opts.CKeyPageSize) >= WRAP
    requires PageSizeOf(opts.EKeyPageSize) % 1024 == 0
    requires InMemory(sorted, opts) && KeysDistinct(sorted)
    ensures var small := PageSizeOf(opts.CKeyPageSize) % WRAP;
            var r := Parsed(EncodingBytes(c, sorted, opts));
            (r.Ok? && IsMapOf(r.value.Entries, sorted))
            <==> AllFits(sorted, small) && |Concat(Records(sorted))| <= small
  {
    hide EncodingBytes, HeaderOf, PagesStart, HeaderError, RecordsOfPages, Parsed, Front, Groups, CutAll, Stored, Total,
         IsMapOf, AllFits, AllFit, KeysDistinct, KeysAgree, InMemory, Concat, Records, Pages, EKeyPart;
    var small := PageSizeOf(opts.CKeyPageSize) % WRAP;
    var r := Parsed(EncodingBytes(c, sorted, opts));
    TotalIs(sorted);
    if r.Ok? && IsMapOf(r.value.Entries, sorted) {
      FoundBack(c, sorted, opts);
    }
    if AllFits(sorted, small) && |Concat(Records(sorted))| <= small {
      FitsBack(c, sorted, opts);
    }
  }
}
