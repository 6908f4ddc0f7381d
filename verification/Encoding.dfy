// internal/encoding: the ENCODING manifest, content keys to encoded keys, in
// pages of one size that are filled greedily with variable-length records.

module Encoding {
  import opened Words
  import opened Wrappers
  import opened Seqs
  import opened Bytes
  import opened Sorting
  import opened Environment

  const MAGIC_ENCODING: nat := 0x4E45
  const HEADER_SIZE: nat := 22
  const RECORD_HEAD: nat := 22

  datatype CKeyEntry = CKeyEntry(ContentSize: nat, CKey: Key, EKeys: seq<Key>)

  datatype WriteOptions = WriteOptions(CKeyPageSize: u32, EKeyPageSize: u32, IncludeEKeyPages: bool, ESpecBlock: seq<byte>)

  // ---- the format ----

  function LessByCKey(): (CKeyEntry, CKeyEntry) -> bool {
    (x: CKeyEntry, y: CKeyEntry) => LexLess(x.CKey, y.CKey)
  }

  function RecordSize(e: CKeyEntry): nat { RECORD_HEAD + 16 * |e.EKeys| }

  /** A record larger than a page keeps its first key only. */
  function CutToPage(e: CKeyEntry, pageSize: nat): CKeyEntry {
    if RecordSize(e) > pageSize && |e.EKeys| > 0 then e.(EKeys := e.EKeys[..1]) else e
  }

  function CutAll(es: seq<CKeyEntry>, pageSize: nat): (r: seq<CKeyEntry>)
    requires pageSize >= RECORD_HEAD + 16
    ensures |r| == |es| && (forall i :: 0 <= i < |r| ==> RecordSize(r[i]) <= pageSize)
  {
    seq(|es|, i requires 0 <= i < |es| => CutToPage(es[i], pageSize))
  }

  function Record(e: CKeyEntry): (s: seq<byte>)
    ensures |s| == RecordSize(e)
  {
    ConcatLength(e.EKeys, 16);
    LE(|e.EKeys|, 2) + BE(e.ContentSize, 4) + e.CKey + Concat(e.EKeys)
  }

  function Records(es: seq<CKeyEntry>): (t: seq<seq<byte>>)
    ensures |t| == |es|
    ensures forall i :: 0 <= i < |es| ==> t[i] == Record(es[i])
  {
    seq(|es|, i requires 0 <= i < |es| => Record(es[i]))
  }

  /** How many of the records fit behind off bytes, taken in order. */
  function Taken(es: seq<CKeyEntry>, pageSize: nat, off: nat): (n: nat)
    ensures n <= |es|
    ensures n > 0 <==> |es| > 0 && off + RecordSize(es[0]) <= pageSize
  {
    if |es| == 0 || off + RecordSize(es[0]) > pageSize then 0
    else 1 + Taken(es[1..], pageSize, off + RecordSize(es[0]))
  }

  ghost predicate AllFit(es: seq<CKeyEntry>, pageSize: nat) {
    forall i :: 0 <= i < |es| ==> RecordSize(es[i]) <= pageSize
  }

  /** The entries page by page. */
  ghost function Groups(es: seq<CKeyEntry>, pageSize: nat): (gs: seq<seq<CKeyEntry>>)
    requires AllFit(es, pageSize)
  {
    if |es| == 0 then [] else
      var n := Taken(es, pageSize, 0);
      [es[..n]] + Groups(es[n..], pageSize)
  }

  function Padded(s: seq<byte>, size: nat): (r: seq<byte>)
    requires |s| <= size
    ensures |r| == size
  {
    s + Zeros(size - |s|)
  }

  /** A page: its records, then zeros. */
  ghost function Page(es: seq<CKeyEntry>, pageSize: nat): seq<byte> {
    var s := Concat(Records(es));
    if |s| <= pageSize then Padded(s, pageSize) else s
  }

  ghost function Pages(gs: seq<seq<CKeyEntry>>, pageSize: nat): (ps: seq<seq<byte>>)
    ensures |ps| == |gs|
    ensures forall i :: 0 <= i < |gs| ==> ps[i] == Page(gs[i], pageSize)
  {
    seq(|gs|, i requires 0 <= i < |gs| => Page(gs[i], pageSize))
  }

  ghost predicate NoneEmpty(gs: seq<seq<CKeyEntry>>) {
    forall i :: 0 <= i < |gs| ==> |gs[i]| > 0
  }

  ghost function IndexEntry(c: Codecs, g: seq<CKeyEntry>, pageSize: nat): (s: seq<byte>)
    requires |g| > 0
    ensures |s| == 32
  {
    g[0].CKey + c.md5(Page(g, pageSize))
  }

  /** The page index: first key and digest of each page. */
  ghost function IndexEntries(c: Codecs, gs: seq<seq<CKeyEntry>>, pageSize: nat): (t: seq<seq<byte>>)
    requires NoneEmpty(gs)
    ensures |t| == |gs| && AllOfLength(t, 32)
  {
    seq(|gs|, i requires 0 <= i < |gs| => IndexEntry(c, gs[i], pageSize))
  }

  lemma {:induction false} GroupsNotEmpty(es: seq<CKeyEntry>, pageSize: nat)
    requires AllFit(es, pageSize)
    ensures NoneEmpty(Groups(es, pageSize))
  {
    if |es| > 0 {
      GroupsNotEmpty(es[Taken(es, pageSize, 0)..], pageSize);
    }
  }

  // ---- EKey pages ----

  const EKEY_RECORD: nat := 25

  /** First key of an entry, the entry's place, and a size field that stays zero. */
  function EKeyRecord(e: CKeyEntry, i: nat): (s: seq<byte>)
    requires |e.EKeys| > 0
    ensures |s| == EKEY_RECORD
  {
    e.EKeys[0] + BE(i, 4) + BE(0, 5)
  }

  /** The records of entries i .. n - 1; an entry without keys has none. */
  function EKeyRecords(es: seq<CKeyEntry>, i: nat, n: nat): (t: seq<seq<byte>>)
    requires n <= |es|
    ensures AllOfLength(t, EKEY_RECORD)
  {
    if n <= i then []
    else EKeyRecords(es, i, n - 1) + if |es[n - 1].EKeys| > 0 then [EKeyRecord(es[n - 1], n - 1)] else []
  }

  /** Where a page ends that has off bytes when entry i comes up. */
  function PageEnd(es: seq<CKeyEntry>, i: nat, pageSize: nat, off: nat): (n: nat)
    requires i <= |es|
    ensures i <= n <= |es|
    ensures i < |es| && off + EKEY_RECORD <= pageSize ==> i < n
    decreases |es| - i
  {
    if i == |es| || off + EKEY_RECORD > pageSize then i
    else PageEnd(es, i + 1, pageSize, off + if |es[i].EKeys| > 0 then EKEY_RECORD else 0)
  }

  datatype Range = Range(from: nat, to: nat)

  /** The entries from i on, page by page. */
  function EKeyRanges(es: seq<CKeyEntry>, i: nat, pageSize: nat): (rs: seq<Range>)
    requires i <= |es| && pageSize >= EKEY_RECORD
    ensures forall k :: 0 <= k < |rs| ==> rs[k].from < rs[k].to <= |es|
    decreases |es| - i
  {
    if i == |es| then []
    else
      var n := PageEnd(es, i, pageSize, 0);
      [Range(i, n)] + EKeyRanges(es, n, pageSize)
  }

  function EKeyPage(es: seq<CKeyEntry>, r: Range, pageSize: nat): seq<byte>
    requires r.to <= |es|
  {
    var s := Concat(EKeyRecords(es, r.from, r.to));
    if |s| <= pageSize then Padded(s, pageSize) else s
  }

  function FirstEKey(e: CKeyEntry): Key { if |e.EKeys| > 0 then e.EKeys[0] else ZERO_KEY }

  function EKeyPages(es: seq<CKeyEntry>, rs: seq<Range>, pageSize: nat): (ps: seq<seq<byte>>)
    requires forall k :: 0 <= k < |rs| ==> rs[k].from < rs[k].to <= |es|
    ensures |ps| == |rs|
  {
    seq(|rs|, k requires 0 <= k < |rs| => EKeyPage(es, rs[k], pageSize))
  }

  function EKeyIndexEntry(c: Codecs, es: seq<CKeyEntry>, r: Range, pageSize: nat): (s: seq<byte>)
    requires r.from < r.to <= |es|
    ensures |s| == 32
  {
    FirstEKey(es[r.from]) + c.md5(EKeyPage(es, r, pageSize))
  }

  /** First key, if the first entry has one, and digest of each page. */
  function EKeyIndex(c: Codecs, es: seq<CKeyEntry>, rs: seq<Range>, pageSize: nat): (t: seq<seq<byte>>)
    requires forall k :: 0 <= k < |rs| ==> rs[k].from < rs[k].to <= |es|
    ensures |t| == |rs| && AllOfLength(t, 32)
  {
    seq(|rs|, k requires 0 <= k < |rs| => EKeyIndexEntry(c, es, rs[k], pageSize))
  }

  /** The pages asked for. */
  function EKeyRangesOf(sorted: seq<CKeyEntry>, opts: WriteOptions): (rs: seq<Range>)
    requires PageSizeOf(opts.EKeyPageSize) >= 1024
    ensures forall k :: 0 <= k < |rs| ==> rs[k].from < rs[k].to <= |sorted|
  {
    if opts.IncludeEKeyPages then EKeyRanges(sorted, 0, PageSizeOf(opts.EKeyPageSize)) else []
  }

  /** What follows the CKey pages. */
  function EKeyPart(c: Codecs, sorted: seq<CKeyEntry>, opts: WriteOptions): seq<byte>
    requires PageSizeOf(opts.EKeyPageSize) >= 1024
  {
    var size, rs := PageSizeOf(opts.EKeyPageSize), EKeyRangesOf(sorted, opts);
    Concat(EKeyIndex(c, sorted, rs, size)) + Concat(EKeyPages(sorted, rs, size))
  }

  // ---- the file ----

  function PageSizeOf(size: u32): u32 { if size == 0 then 4096 else size }

  function HeaderBytes(cPageSize: u32, ePageSize: u32, pageCount: nat, ePageCount: nat, especSize: nat): (s: seq<byte>)
    ensures |s| == HEADER_SIZE
  {
    LE(MAGIC_ENCODING, 2) + [1] + [16] + [16] + BE(cPageSize / 1024, 2) + BE(ePageSize / 1024, 2)
      + BE(pageCount, 4) + BE(ePageCount, 4) + [0] + BE(especSize, 4)
  }

  /** The manifest of entries that are already sorted. */
  ghost function EncodingBytes(c: Codecs, sorted: seq<CKeyEntry>, opts: WriteOptions): seq<byte>
    requires PageSizeOf(opts.CKeyPageSize) >= 1024 && PageSizeOf(opts.EKeyPageSize) >= 1024
  {
    var size := PageSizeOf(opts.CKeyPageSize);
    var gs := Groups(CutAll(sorted, size), size);
    GroupsNotEmpty(CutAll(sorted, size), size);
    HeaderBytes(size, PageSizeOf(opts.EKeyPageSize), |gs|, |EKeyRangesOf(sorted, opts)|, |opts.ESpecBlock|) + opts.ESpecBlock
      + Concat(IndexEntries(c, gs, size)) + Concat(Pages(gs, size)) + EKeyPart(c, sorted, opts)
  }

  // ---- the writer ----

  method Encode(c: Codecs, entries: seq<CKeyEntry>, opts: WriteOptions)
      returns (r: Result<seq<byte>>, ghost sorted: seq<CKeyEntry>)
    ensures r.Err? <==> PageSizeOf(opts.CKeyPageSize) % 1024 != 0 || PageSizeOf(opts.EKeyPageSize) % 1024 != 0
    ensures r.Err? ==> r == Err(InvalidParameter)
    ensures r.Ok? ==> SortedCopy(sorted, entries, LessByCKey()) && r == Ok(EncodingBytes(c, sorted, opts))
  {
    hide LexLess, Groups, CutAll, HeaderBytes, IndexEntries, Page, Concat, EKeyPages, EKeyIndex, EKeyRanges, Pages;
    var size, eSize := PageSizeOf(opts.CKeyPageSize), PageSizeOf(opts.EKeyPageSize);
    sorted := [];
    if size % 1024 != 0 || eSize % 1024 != 0 {
      return Err(InvalidParameter), sorted;
    }
    LexIsOrder(LessByCKey(), (e: CKeyEntry) => e.CKey);
    var s := SortSlice(entries, LessByCKey());
    sorted := s;
    var pages, index := LayoutCKeyPages(c, s, size);
    var ePages, eIndex := OptionalEKeyPages(c, s, opts);
    var header := HeaderBytes(size, eSize, |pages|, |ePages|, |opts.ESpecBlock|);
    var out := WriteManifest(header, opts.ESpecBlock, index, pages, size, eIndex, ePages, eSize);
    Assoc(header + opts.ESpecBlock + index + Concat(pages), eIndex, Concat(ePages));
    r := Ok(out);
  }

  method OptionalEKeyPages(c: Codecs, sorted: seq<CKeyEntry>, opts: WriteOptions)
      returns (pages: seq<seq<byte>>, index: seq<byte>)
    requires PageSizeOf(opts.EKeyPageSize) >= 1024
    ensures var size, rs := PageSizeOf(opts.EKeyPageSize), EKeyRangesOf(sorted, opts);
            && AllOfLength(pages, size)
            && pages == EKeyPages(sorted, rs, size) && index == Concat(EKeyIndex(c, sorted, rs, size))
  {
    hide Concat, EKeyRanges, EKeyPage;
    pages, index := [], [];
    if opts.IncludeEKeyPages {
      pages, index := LayoutEKeyPages(c, sorted, PageSizeOf(opts.EKeyPageSize));
    } else {
      NoPieces(EKeyIndex(c, sorted, [], PageSizeOf(opts.EKeyPageSize)));
    }
  }

  method WriteManifest(header: seq<byte>, espec: seq<byte>, index: seq<byte>, pages: seq<seq<byte>>, size: nat,
                       eIndex: seq<byte>, ePages: seq<seq<byte>>, eSize: nat) returns (s: seq<byte>)
    requires AllOfLength(pages, size) && AllOfLength(ePages, eSize)
    ensures s == header + espec + index + Concat(pages) + eIndex + Concat(ePages)
  {
    hide Concat;
    ConcatLength(pages, size);
    ConcatLength(ePages, eSize);
    var out := new byte[|header| + |espec| + |index| + size * |pages| + |eIndex| + eSize * |ePages|](_ => 0);
    var off := Append(out, 0, header);
    off := Append(out, off, espec);
    off := Append(out, off, index);
    off := WritePages(out, off, pages, size);
    off := Append(out, off, eIndex);
    off := WritePages(out, off, ePages, eSize);
    s := out[..];
    assert s == out[..off];
  }

  method WritePages(out: array<byte>, start: nat, pages: seq<seq<byte>>, size: nat) returns (off: nat)
    requires AllOfLength(pages, size) && start + |Concat(pages)| <= out.Length
    modifies out
    ensures off == start + |Concat(pages)| && out[..off] == old(out[..start]) + Concat(pages)
  {
    hide Concat;
    ghost var head := out[..start];
    off := start;
    NoPieces(pages);
    for i := 0 to |pages|
      invariant off == start + |Concat(pages[..i])| <= out.Length
      invariant out[..off] == head + Concat(pages[..i])
    {
      ConcatPiece(pages, i);
      ConcatSnoc(pages, i);
      off := Append(out, off, pages[i]);
      Assoc(head, Concat(pages[..i]), pages[i]);
    }
    assert pages[..|pages|] == pages;
  }

  /** The outer loop: one page after the other, with first key and digest. */
  method LayoutCKeyPages(c: Codecs, entries: seq<CKeyEntry>, pageSize: nat)
      returns (pages: seq<seq<byte>>, index: seq<byte>)
    requires pageSize >= RECORD_HEAD + 16
    ensures AllOfLength(pages, pageSize)
    ensures var gs := Groups(CutAll(entries, pageSize), pageSize);
            NoneEmpty(gs) && pages == Pages(gs, pageSize) && index == Concat(IndexEntries(c, gs, pageSize))
  {
    hide Page, Taken, RecordSize, CutToPage, Concat, Groups, Pages, IndexEntries;
    ghost var es := CutAll(entries, pageSize);
    GroupsNotEmpty(es, pageSize);
    ghost var gs: seq<seq<CKeyEntry>> := [];
    NoGroupsYet(c, pageSize);
    assert es[0..] == es && gs + Groups(es, pageSize) == Groups(es, pageSize);
    var infos: seq<seq<byte>> := [];
    pages := [];
    var i := 0;
    while i < |entries|
      invariant 0 <= i <= |entries|
      invariant Groups(es, pageSize) == gs + Groups(es[i..], pageSize)
      invariant NoneEmpty(gs)
      invariant AllOfLength(pages, pageSize) && pages == Pages(gs, pageSize)
      invariant infos == IndexEntries(c, gs, pageSize)
    {
      var first := entries[i].CKey;
      var start := i;
      var page;
      page, i := FillPage(entries, start, pageSize);
      KeepsCKey(entries[start], pageSize);
      GroupStep(gs, es, start, pageSize);
      OneMoreGroup(c, gs, es[start..i], pageSize);
      gs := gs + [es[start..i]];
      infos := infos + [first + c.md5(page)];
      pages := pages + [page];
    }
    NothingLeft(es[i..], pageSize);
    assert gs + [] == gs;
    index := WriteIndex(infos);
  }

  lemma NoGroupsYet(c: Codecs, pageSize: nat)
    ensures Pages([], pageSize) == [] && IndexEntries(c, [], pageSize) == []
  {
  }

  lemma OneMoreGroup(c: Codecs, gs: seq<seq<CKeyEntry>>, g: seq<CKeyEntry>, pageSize: nat)
    requires NoneEmpty(gs) && |g| > 0
    ensures Pages(gs + [g], pageSize) == Pages(gs, pageSize) + [Page(g, pageSize)]
    ensures NoneEmpty(gs + [g])
    ensures IndexEntries(c, gs + [g], pageSize) == IndexEntries(c, gs, pageSize) + [g[0].CKey + c.md5(Page(g, pageSize))]
  {
    hide Page;
  }

  lemma NothingLeft(es: seq<CKeyEntry>, pageSize: nat)
    requires |es| == 0
    ensures Groups(es, pageSize) == []
  {
  }

  lemma KeepsCKey(e: CKeyEntry, pageSize: nat)
    ensures CutToPage(e, pageSize).CKey == e.CKey
  {
  }

  lemma GroupStep(gs: seq<seq<CKeyEntry>>, es: seq<CKeyEntry>, start: nat, pageSize: nat)
    requires AllFit(es, pageSize) && start < |es|
    ensures var i := start + Taken(es[start..], pageSize, 0);
            gs + Groups(es[start..], pageSize) == gs + [es[start..i]] + Groups(es[i..], pageSize)
  {
    var n := Taken(es[start..], pageSize, 0);
    assert es[start..][..n] == es[start..start + n] && es[start..][n..] == es[start + n..];
    Assoc(gs, [es[start..start + n]], Groups(es[start + n..], pageSize));
  }

  method WriteIndex(infos: seq<seq<byte>>) returns (index: seq<byte>)
    requires AllOfLength(infos, 32)
    ensures index == Concat(infos)
  {
    hide Concat;
    ConcatLength(infos, 32);
    var idx := new byte[32 * |infos|](_ => 0);
    NoPieces(infos);
    for n := 0 to |infos|
      invariant idx[..32 * n] == Concat(infos[..n])
    {
      ConcatSnoc(infos, n);
      var _ := Append(idx, 32 * n, infos[n]);
    }
    assert infos[..|infos|] == infos;
    index := idx[..];
    assert index == idx[..32 * |infos|];
  }

  /** The inner loop: records from entries[start] on, until one does not fit. */
  method FillPage(entries: seq<CKeyEntry>, start: nat, pageSize: nat) returns (page: seq<byte>, next: nat)
    requires start < |entries| && pageSize >= RECORD_HEAD + 16
    ensures var es := CutAll(entries, pageSize);
            && next == start + Taken(es[start..], pageSize, 0)
            && start < next <= |entries|
            && page == Page(es[start..next], pageSize)
            && |page| == pageSize
  {
    hide Record, RecordSize, CutToPage, Concat, Taken;
    ghost var es := CutAll(entries, pageSize);
    var buf := new byte[pageSize](_ => 0);
    var off, i := 0, start;
    EmptyPage(es, start);
    while i < |entries|
      invariant start <= i <= |entries| && off <= pageSize
      invariant off == |Concat(Records(es[start..i]))|
      invariant buf[..off] == Concat(Records(es[start..i]))
      invariant buf[off..] == Zeros(pageSize - off)
      invariant Taken(es[start..], pageSize, 0) == i - start + Taken(es[i..], pageSize, off)
    {
      var e := CutToPage(entries[i], pageSize);
      var rec := RecordSize(e);
      TakenStep(es, i, pageSize, off);
      if off + rec > pageSize {
        break;
      }
      AddRecord(es, start, i);
      FewerZeros(pageSize - off, rec);
      assert buf[off + rec..] == buf[off..][rec..];
      off := WriteRecord(buf, off, e);
      i := i + 1;
    }
    if i == |entries| {
      NoneTaken(es[i..], pageSize, off);
    }
    page, next := buf[..], i;
    assert page == buf[..off] + buf[off..];
  }

  lemma EmptyPage(es: seq<CKeyEntry>, start: nat)
    requires start <= |es|
    ensures Concat(Records(es[start..start])) == []
  {
  }

  lemma TakenStep(es: seq<CKeyEntry>, i: nat, pageSize: nat, off: nat)
    requires i < |es|
    ensures off + RecordSize(es[i]) > pageSize ==> Taken(es[i..], pageSize, off) == 0
    ensures off + RecordSize(es[i]) <= pageSize ==>
              Taken(es[i..], pageSize, off) == 1 + Taken(es[i + 1..], pageSize, off + RecordSize(es[i]))
  {
    assert es[i..][1..] == es[i + 1..];
  }

  lemma NoneTaken(es: seq<CKeyEntry>, pageSize: nat, off: nat)
    requires |es| == 0
    ensures Taken(es, pageSize, off) == 0
  {
  }

  lemma FewerZeros(n: nat, k: nat)
    requires k <= n
    ensures Zeros(n)[k..] == Zeros(n - k)
  {
  }

  lemma AddRecord(es: seq<CKeyEntry>, start: nat, i: nat)
    requires start <= i < |es|
    ensures Concat(Records(es[start..i + 1])) == Concat(Records(es[start..i])) + Record(es[i])
  {
    hide Record;
    var t := Records(es[start..i + 1]);
    assert t[..i - start] == Records(es[start..i]);
  }

  method WriteRecord(buf: array<byte>, off: nat, e: CKeyEntry) returns (end: nat)
    requires off + RecordSize(e) <= buf.Length
    modifies buf
    ensures end == off + RecordSize(e)
    ensures buf[..end] == old(buf[..off]) + Record(e)
    ensures buf[end..] == old(buf[end..])
  {
    hide LE, BE, Concat;
    ghost var head, all := buf[..off], buf[..];
    end := Append(buf, off, LE(|e.EKeys|, 2));
    end := Append(buf, end, BE(e.ContentSize, 4));
    end := Append(buf, end, e.CKey);
    ghost var front := LE(|e.EKeys|, 2) + BE(e.ContentSize, 4) + e.CKey;
    assert buf[..end] == head + front;
    assert buf[end..] == all[end..];
    NoPieces(e.EKeys);
    for k := 0 to |e.EKeys|
      invariant end == off + RECORD_HEAD + 16 * k
      invariant buf[..end] == head + (front + Concat(e.EKeys[..k]))
      invariant buf[end..] == all[end..]
    {
      ConcatSnoc(e.EKeys, k);
      end := Append(buf, end, e.EKeys[k]);
      Assoc4(head, front, Concat(e.EKeys[..k]), e.EKeys[k]);
      assert head + (front + Concat(e.EKeys[..k])) == head + front + Concat(e.EKeys[..k]);
      assert front + (Concat(e.EKeys[..k]) + e.EKeys[k]) == front + Concat(e.EKeys[..k + 1]);
    }
    assert e.EKeys[..|e.EKeys|] == e.EKeys;
  }

  // ---- the writer of EKey pages ----

  /** The inner loop: entries from start on while a record fits; one without keys takes no room. */
  method FillEKeyPage(entries: seq<CKeyEntry>, start: nat, pageSize: nat) returns (page: seq<byte>, next: nat)
    requires start < |entries| && pageSize >= EKEY_RECORD
    ensures next == PageEnd(entries, start, pageSize, 0) && start < next <= |entries|
    ensures page == EKeyPage(entries, Range(start, next), pageSize) && |page| == pageSize
  {
    hide BE, Concat, EKeyRecord;
    var buf := new byte[pageSize](_ => 0);
    var off, i := 0, start;
    NoRecords(entries, start);
    while i < |entries| && off + EKEY_RECORD <= pageSize
      invariant start <= i <= |entries| && off <= pageSize
      invariant off == |Concat(EKeyRecords(entries, start, i))|
      invariant buf[..off] == Concat(EKeyRecords(entries, start, i))
      invariant buf[off..] == Zeros(pageSize - off)
      invariant PageEnd(entries, start, pageSize, 0) == PageEnd(entries, i, pageSize, off)
    {
      if |entries[i].EKeys| > 0 {
        OneMoreRecord(entries, start, i);
        FewerZeros(pageSize - off, EKEY_RECORD);
        assert buf[off + EKEY_RECORD..] == buf[off..][EKEY_RECORD..];
        off := WriteEKeyRecord(buf, off, entries[i], i);
      } else {
        assert EKeyRecords(entries, start, i + 1) == EKeyRecords(entries, start, i);
      }
      i := i + 1;
    }
    page, next := buf[..], i;
    assert page == buf[..off] + buf[off..];
  }

  lemma NoRecords(es: seq<CKeyEntry>, i: nat)
    requires i <= |es|
    ensures Concat(EKeyRecords(es, i, i)) == []
  {
  }

  lemma OneMoreRecord(es: seq<CKeyEntry>, start: nat, i: nat)
    requires start <= i < |es| && |es[i].EKeys| > 0
    ensures Concat(EKeyRecords(es, start, i + 1)) == Concat(EKeyRecords(es, start, i)) + EKeyRecord(es[i], i)
  {
    hide EKeyRecord;
    var t := EKeyRecords(es, start, i + 1);
    assert t[..|t| - 1] == EKeyRecords(es, start, i);
  }

  method WriteEKeyRecord(buf: array<byte>, off: nat, e: CKeyEntry, i: nat) returns (end: nat)
    requires off + EKEY_RECORD <= buf.Length && |e.EKeys| > 0
    modifies buf
    ensures end == off + EKEY_RECORD
    ensures buf[..end] == old(buf[..off]) + EKeyRecord(e, i)
    ensures buf[end..] == old(buf[end..])
  {
    hide BE;
    end := Append(buf, off, e.EKeys[0]);
    end := Append(buf, end, BE(i, 4));
    end := Append(buf, end, BE(0, 5));
  }

  /** The outer loop. */
  method LayoutEKeyPages(c: Codecs, entries: seq<CKeyEntry>, pageSize: nat)
      returns (pages: seq<seq<byte>>, index: seq<byte>)
    requires pageSize >= EKEY_RECORD
    ensures AllOfLength(pages, pageSize)
    ensures var rs := EKeyRanges(entries, 0, pageSize);
            pages == EKeyPages(entries, rs, pageSize) && index == Concat(EKeyIndex(c, entries, rs, pageSize))
  {
    hide EKeyPage, PageEnd, Concat;
    ghost var rs: seq<Range> := [];
    var infos: seq<seq<byte>> := [];
    pages := [];
    var i := 0;
    while i < |entries|
      invariant 0 <= i <= |entries|
      invariant EKeyRanges(entries, 0, pageSize) == rs + EKeyRanges(entries, i, pageSize)
      invariant forall k :: 0 <= k < |rs| ==> rs[k].from < rs[k].to <= |entries|
      invariant AllOfLength(pages, pageSize) && pages == EKeyPages(entries, rs, pageSize)
      invariant infos == EKeyIndex(c, entries, rs, pageSize)
    {
      var first := FirstEKey(entries[i]);
      var start := i;
      var page;
      page, i := FillEKeyPage(entries, start, pageSize);
      Assoc(rs, [Range(start, i)], EKeyRanges(entries, i, pageSize));
      rs := rs + [Range(start, i)];
      infos := infos + [first + c.md5(page)];
      pages := pages + [page];
    }
    assert rs + [] == rs;
    index := WriteIndex(infos);
  }
}
