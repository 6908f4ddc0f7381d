// ENCODING: exactly which manifests come back entry for entry.

module EncodingRoundTrip {
  import opened Words
  import opened Wrappers
  import opened Seqs
  import opened Bytes
  import opened Environment
  import opened Encoding
  import opened EncodingReader

  // ---- the map of entries ----

  /** Entries with the same content key are the same entry. */
  ghost predicate KeysAgree(es: seq<CKeyEntry>) {
    forall i, j :: 0 <= i < |es| && 0 <= j < |es| && es[i].CKey == es[j].CKey ==> es[i] == es[j]
  }

  ghost predicate IsMapOf(m: map<Key, CKeyEntry>, es: seq<CKeyEntry>) {
    && (forall i :: 0 <= i < |es| ==> es[i].CKey in m && m[es[i].CKey] == es[i])
    && (forall k :: k in m ==> m[k] in es && m[k].CKey == k)
  }

  lemma {:induction false} StoredComesFrom(es: seq<CKeyEntry>)
    ensures forall k :: k in Stored(map[], es) ==> Stored(map[], es)[k] in es && Stored(map[], es)[k].CKey == k
  {
    if |es| > 0 {
      StoredComesFrom(es[..|es| - 1]);
    }
  }

  lemma {:induction false} StoredIsMap(es: seq<CKeyEntry>)
    requires KeysAgree(es)
    ensures IsMapOf(Stored(map[], es), es)
  {
    StoredComesFrom(es);
    if |es| > 0 {
      StoredIsMap(es[..|es| - 1]);
    }
  }

  // ---- the header ----

  lemma HeaderFields(cPageSize: u32, ePageSize: u32, pageCount: u32, ePageCount: nat, especSize: u32)
    ensures var h := HeaderBytes(cPageSize, ePageSize, pageCount, ePageCount, especSize);
            && ReadLE(At(h, 0, 2)) == MAGIC_ENCODING && h[2] == 1 && h[3] == 16 && h[4] == 16
            && ReadBE(At(h, 5, 2)) == cPageSize / 1024 % 0x1_0000
            && BE32(At(h, 9, 4)) == pageCount && BE32(At(h, 18, 4)) == especSize
  {
    var h := HeaderBytes(cPageSize, ePageSize, pageCount, ePageCount, especSize);
    hide LE, BE, ReadLE, ReadBE, BE32;
    assert At(h, 0, 2) == LE(MAGIC_ENCODING, 2);
    assert At(h, 5, 2) == BE(cPageSize / 1024, 2);
    assert At(h, 9, 4) == BE(pageCount, 4);
    assert At(h, 18, 4) == BE(especSize, 4);
    Pow256Values();
    ReadLEOfLE(MAGIC_ENCODING, 2);
    ReadBEOfBE(cPageSize / 1024, 2);
    FieldBE32(pageCount);
    FieldBE32(especSize);
    WrapFits(pageCount);
    WrapFits(especSize);
  }

  /** The fields as they stand in a longer file. */
  lemma FileFields(data: seq<byte>, h: seq<byte>)
    requires |h| == HEADER_SIZE && Has(data, 0, h)
    ensures At(data, 0, 2) == At(h, 0, 2) && At(data, 5, 2) == At(h, 5, 2) && At(data, 9, 4) == At(h, 9, 4)
    ensures At(data, 18, 4) == At(h, 18, 4)
    ensures data[2] == h[2] && data[3] == h[3] && data[4] == h[4]
  {
    PartOfPiece(data, 0, h, 0, 2);
    PartOfPiece(data, 0, h, 5, 2);
    PartOfPiece(data, 0, h, 9, 4);
    PartOfPiece(data, 0, h, 18, 4);
    assert data[..HEADER_SIZE] == h;
  }

  ghost predicate InMemory(sorted: seq<CKeyEntry>, opts: WriteOptions) {
    |sorted| < TWO32 && |opts.ESpecBlock| < TWO32
  }

  lemma {:induction false} FewGroups(es: seq<CKeyEntry>, pageSize: nat)
    requires AllFit(es, pageSize)
    ensures |Groups(es, pageSize)| <= |es|
    decreases |es|
  {
    if |es| > 0 {
      FewGroups(es[Taken(es, pageSize, 0)..], pageSize);
    }
  }

  /** Everything in front of the pages. */
  ghost function Front(c: Codecs, sorted: seq<CKeyEntry>, opts: WriteOptions): seq<byte>
    requires PageSizeOf(opts.CKeyPageSize) >= 1024 && PageSizeOf(opts.EKeyPageSize) >= 1024
  {
    var size := PageSizeOf(opts.CKeyPageSize);
    var gs := Groups(CutAll(sorted, size), size);
    GroupsNotEmpty(CutAll(sorted, size), size);
    HeaderBytes(size, PageSizeOf(opts.EKeyPageSize), |gs|, |EKeyRangesOf(sorted, opts)|, |opts.ESpecBlock|) + opts.ESpecBlock
      + Concat(IndexEntries(c, gs, size))
  }

  /** The reader finds the first page where the writer put it, and as many pages. */
  lemma HeaderAgrees(c: Codecs, sorted: seq<CKeyEntry>, opts: WriteOptions)
    requires PageSizeOf(opts.CKeyPageSize) >= 1024 && PageSizeOf(opts.EKeyPageSize) >= 1024 && InMemory(sorted, opts)
    ensures var size := PageSizeOf(opts.CKeyPageSize);
            var data := EncodingBytes(c, sorted, opts);
            && HeaderError(data) == None && |data| >= HEADER_SIZE
            && PagesStart(data) == |Front(c, sorted, opts)| <= |data|
            && HeaderOf(data).CKeyPageSize == size / 1024 % 0x1_0000 * 1024
            && HeaderOf(data).CKeyPageCount == |Groups(CutAll(sorted, size), size)|
  {
    hide HeaderBytes, Groups, CutAll, Concat, IndexEntry, Page, EKeyPart, EKeyRangesOf, ReadLE, ReadBE, BE32;
    var size, eSize := PageSizeOf(opts.CKeyPageSize), PageSizeOf(opts.EKeyPageSize);
    var es := CutAll(sorted, size);
    var gs := Groups(es, size);
    FewGroups(es, size);
    GroupsNotEmpty(es, size);
    ConcatLength(IndexEntries(c, gs, size), 32);
    HeaderFields(size, eSize, |gs|, |EKeyRangesOf(sorted, opts)|, |opts.ESpecBlock|);
    var data, h := EncodingBytes(c, sorted, opts), HeaderBytes(size, eSize, |gs|, |EKeyRangesOf(sorted, opts)|, |opts.ESpecBlock|);
    assert data[..HEADER_SIZE] == h;
    FileFields(data, h);
  }

  // ---- the pages ----

  ghost predicate Readable(gs: seq<seq<CKeyEntry>>, size: nat) {
    forall i :: 0 <= i < |gs| ==> AllFits(gs[i], size) && |Concat(Records(gs[i]))| <= size
  }

  ghost function PageAt(front: seq<byte>, size: nat, i: nat): nat { |front| + size * i }

  lemma {:induction false} PagesRead(front: seq<byte>, gs: seq<seq<CKeyEntry>>, tail: seq<byte>, size: nat, i: nat)
    requires Readable(gs, size) && i <= |gs|
    ensures RecordsOfPages(front + Concat(Pages(gs, size)) + tail, PageAt(front, size, i), size, |gs[i..]|) == Ok(Concat(gs[i..]))
    decreases |gs| - i
  {
    hide Concat, Records, RecordsIn, Page;
    var ps := Pages(gs, size);
    var data := front + Concat(ps) + tail;
    if i < |gs| {
      SizesOfPages(gs, size);
      ConcatRecord(ps, size, i);
      Shifted(front, Concat(ps), size * i, size);
      InFront(front + Concat(ps), tail, PageAt(front, size, i), size);
      WholePageRead(gs[i], size);
      Times(size, i + 1);
      PagesRead(front, gs, tail, size, i + 1);
      ConcatHead(gs[i..]);
      assert gs[i..][1..] == gs[i + 1..];
    } else {
      NoMore(gs[i..]);
    }
  }

  lemma InFront(data: seq<byte>, tail: seq<byte>, off: nat, n: nat)
    requires off + n <= |data|
    ensures At(data + tail, off, n) == At(data, off, n)
  {
  }

  lemma NoMore(gs: seq<seq<CKeyEntry>>)
    requires |gs| == 0
    ensures Concat(gs) == []
  {
  }

  lemma SizesOfPages(gs: seq<seq<CKeyEntry>>, size: nat)
    requires Readable(gs, size)
    ensures AllOfLength(Pages(gs, size), size)
  {
    hide Concat, Records;
  }

  lemma WholePageRead(es: seq<CKeyEntry>, size: nat)
    requires AllFits(es, size) && |Concat(Records(es))| <= size
    ensures RecordsIn(Page(es, size), 0) == Ok(es)
  {
    hide Concat, Page, RecordsIn;
    NoPieces(Records(es));
    assert es[0..] == es;
    PageRead(es, size, 0);
  }

  lemma GroupsReadable(es: seq<CKeyEntry>, size: nat)
    requires AllFit(es, size) && AllFits(es, size)
    ensures Readable(Groups(es, size), size)
  {
    hide Concat, Records, Groups;
    PagesPartition(es, size);
    var gs := Groups(es, size);
    forall i | 0 <= i < |gs|
      ensures AllFits(gs[i], size)
    {
      ConcatPiece(gs, i);
      var p := |Concat(gs[..i])|;
      forall k | 0 <= k < |gs[i]|
        ensures Fits(gs[i][k], size)
      {
        assert gs[i][k] == es[p + k];
      }
    }
  }

  lemma NothingCut(es: seq<CKeyEntry>, size: nat)
    requires size >= RECORD_HEAD + 16 && AllFits(es, size)
    ensures CutAll(es, size) == es
  {
  }

  lemma FrontThenPages(c: Codecs, sorted: seq<CKeyEntry>, opts: WriteOptions)
    requires PageSizeOf(opts.CKeyPageSize) >= 1024 && PageSizeOf(opts.EKeyPageSize) >= 1024
    ensures var size := PageSizeOf(opts.CKeyPageSize);
            EncodingBytes(c, sorted, opts)
              == Front(c, sorted, opts) + Concat(Pages(Groups(CutAll(sorted, size), size), size)) + EKeyPart(c, sorted, opts)
  {
    hide Concat, Groups, CutAll, HeaderBytes, Pages, EKeyPart, EKeyRangesOf;
  }

  // ---- the round trip ----

  ghost predicate PageSizeStorable(opts: WriteOptions) {
    && PageSizeOf(opts.CKeyPageSize) % 1024 == 0 && PageSizeOf(opts.CKeyPageSize) / 1024 < 0x1_0000
    && PageSizeOf(opts.EKeyPageSize) % 1024 == 0
  }

  lemma AllRecordsBack(c: Codecs, sorted: seq<CKeyEntry>, opts: WriteOptions)
    requires PageSizeStorable(opts) && InMemory(sorted, opts)
    requires AllFits(sorted, PageSizeOf(opts.CKeyPageSize))
    ensures Parsed(EncodingBytes(c, sorted, opts)).Ok?
    ensures Parsed(EncodingBytes(c, sorted, opts)).value.Entries == Stored(map[], sorted)
  {
    hide EncodingBytes, Front, Groups, Concat, Stored, HeaderOf, PagesStart, HeaderError, Fits, RecordSize, Parsed,
         RecordsOfPages, CutAll, Pages, EKeyPart;
    var size := PageSizeOf(opts.CKeyPageSize);
    HeaderAgrees(c, sorted, opts);
    NothingCut(sorted, size);
    var gs := Groups(sorted, size);
    GroupsReadable(sorted, size);
    PagesPartition(sorted, size);
    FrontThenPages(c, sorted, opts);
    PagesRead(Front(c, sorted, opts), gs, EKeyPart(c, sorted, opts), size, 0);
    assert gs[0..] == gs;
    PageSizeBack(size);
    ParsedRecords(EncodingBytes(c, sorted, opts), sorted);
  }

  lemma PageSizeBack(size: u32)
    requires size % 1024 == 0 && size / 1024 < 0x1_0000
    ensures size / 1024 % 0x1_0000 * 1024 == size
  {
  }

  lemma ParsedRecords(data: seq<byte>, es: seq<CKeyEntry>)
    requires HeaderError(data) == None && |data| >= HEADER_SIZE
    requires RecordsOfPages(data, PagesStart(data), HeaderOf(data).CKeyPageSize, HeaderOf(data).CKeyPageCount) == Ok(es)
    ensures Parsed(data).Ok? && Parsed(data).value.Entries == Stored(map[], es)
  {
    hide HeaderError, PagesStart, HeaderOf, RecordsOfPages, Stored;
  }

  /**
   * Parsing a manifest gives the map of its entries exactly when every entry has 1 to 65535 keys,
   * a 32-bit size and a record no larger than a page.
   */
  lemma EncodingComesBack(c: Codecs, sorted: seq<CKeyEntry>, opts: WriteOptions)
    requires PageSizeStorable(opts) && InMemory(sorted, opts) && KeysAgree(sorted)
    ensures var r := Parsed(EncodingBytes(c, sorted, opts));
            (r.Ok? && IsMapOf(r.value.Entries, sorted)) <==> AllFits(sorted, PageSizeOf(opts.CKeyPageSize))
  {
    hide EncodingBytes, Stored, HeaderOf, PagesStart, HeaderError, RecordsOfPages, Fits, Parsed, Front, Groups, CutAll;
    var size := PageSizeOf(opts.CKeyPageSize);
    var data := EncodingBytes(c, sorted, opts);
    if AllFits(sorted, size) {
      AllRecordsBack(c, sorted, opts);
      StoredIsMap(sorted);
    }
    var r := Parsed(data);
    if r.Ok? && IsMapOf(r.value.Entries, sorted) {
      HeaderAgrees(c, sorted, opts);
      ReadEntriesAlwaysFit(data);
      forall i | 0 <= i < |sorted|
        ensures Fits(sorted[i], size)
      {
        assert r.value.Entries[sorted[i].CKey] == sorted[i];
      }
    }
  }

  /** Whatever file is parsed, its entries have keys, a 32-bit size and fit a page of it. */
  lemma ReadEntriesAlwaysFit(data: seq<byte>)
    requires Parsed(data).Ok?
    ensures HeaderError(data).None?
    ensures var f := Parsed(data).value;
            forall k :: k in f.Entries ==> f.Entries[k].CKey == k && Fits(f.Entries[k], HeaderOf(data).CKeyPageSize)
  {
    hide Stored, HeaderOf, PagesStart, RecordsOfPages, Fits;
    var hdr := HeaderOf(data);
    ReadPagesFit(data, PagesStart(data), hdr.CKeyPageSize, hdr.CKeyPageCount);
    StoredComesFrom(RecordsOfPages(data, PagesStart(data), hdr.CKeyPageSize, hdr.CKeyPageCount).value);
  }

  /** Multiples of 65536 KB are stored as zero: every manifest reads as empty, so only an empty one comes back. */
  lemma PageSizeTooLarge(c: Codecs, sorted: seq<CKeyEntry>, opts: WriteOptions)
    requires PageSizeOf(opts.CKeyPageSize) % 0x400_0000 == 0 && PageSizeOf(opts.EKeyPageSize) % 1024 == 0
    requires InMemory(sorted, opts)
    ensures Parsed(EncodingBytes(c, sorted, opts)).Ok?
    ensures Parsed(EncodingBytes(c, sorted, opts)).value.Entries == map[]
    ensures IsMapOf(Parsed(EncodingBytes(c, sorted, opts)).value.Entries, sorted) <==> |sorted| == 0
  {
    hide EncodingBytes, HeaderOf, PagesStart, HeaderError, Parsed, Front, Groups;
    HeaderAgrees(c, sorted, opts);
    NoPageBytes(EncodingBytes(c, sorted, opts));
    if |sorted| > 0 {
      assert sorted[0].CKey !in Parsed(EncodingBytes(c, sorted, opts)).value.Entries;
    }
  }

  lemma NoPageBytes(data: seq<byte>)
    requires HeaderError(data) == None && PagesStart(data) <= |data| && HeaderOf(data).CKeyPageSize == 0
    ensures Parsed(data).Ok? && Parsed(data).value.Entries == map[]
  {
    hide HeaderOf, PagesStart;
    EmptyPages(data, PagesStart(data), HeaderOf(data).CKeyPageCount);
  }

  lemma {:induction false} EmptyPages(data: seq<byte>, off: nat, n: nat)
    requires off <= |data|
    ensures RecordsOfPages(data, off, 0, n) == Ok([])
  {
    if n > 0 {
      EmptyPages(data, off, n - 1);
      var empty: seq<CKeyEntry> := [];
      assert At(data, off, 0) == [] && empty + empty == empty;
      assert RecordsIn(At(data, off, 0), 0) == Ok(empty);
      assert RecordsOfPages(data, off + 0, 0, n - 1) == Ok(empty);
    }
  }
}
