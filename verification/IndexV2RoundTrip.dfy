// V2 index files of both forms, and what reading them gives: the repository
// only reads them, so the files are described here.

module IndexV2RoundTrip {
  import opened Words
  import opened Wrappers
  import opened Seqs
  import opened Bytes
  import opened Environment
  import opened Archive
  import opened IndexV1
  import opened IndexEntries
  import opened IndexV2Reader
  import opened IndexV1Reader

  // ---- the files ----

  function Guarded(c: Codecs, payload: seq<byte>): (s: seq<byte>)
    ensures |s| == 8 + |payload|
  {
    LE(|payload|, 4) + LE(c.hashLittle(payload, 0), 4) + payload
  }

  function HeaderV2(bucket: byte, segmentSize: nat): (s: seq<byte>)
    ensures |s| == 16
  {
    LE(7, 2) + [bucket, 0, 4, 5, 9, FILE_OFFSET_BITS] + LE(segmentSize, 8)
  }

  function Start(c: Codecs, bucket: byte, segmentSize: nat): (s: seq<byte>)
    ensures |s| == 32
  {
    Guarded(c, HeaderV2(bucket, segmentSize)) + Zeros(8)
  }

  /** All entries in one block. */
  function BlockFile(c: Codecs, bucket: byte, segmentSize: nat, es: seq<EKeyEntry>): (s: seq<byte>)
    ensures |s| == 40 + ENTRY_SIZE * |es|
  {
    Start(c, bucket, segmentSize)
      + (LE(ENTRY_SIZE * |es|, 4) + LE(Chained(c, Block(es), |es|).0, 4) + Block(es))
  }

  function Slot(c: Codecs, e: EKeyEntry): (s: seq<byte>)
    ensures |s| == SLOT_SIZE
  {
    LE(EntryHash(c, EntryBytes(e) + [0]), 4) + (EntryBytes(e) + [0]) + [0]
  }

  const SLOTS: nat := 170

  function Slots(c: Codecs, page: seq<EKeyEntry>): (t: seq<seq<byte>>)
    ensures |t| == |page| && AllOfLength(t, SLOT_SIZE)
  {
    seq(|page|, i requires 0 <= i < |page| => Slot(c, page[i]))
  }

  function PageBytes(c: Codecs, page: seq<EKeyEntry>): (s: seq<byte>)
    requires |page| <= SLOTS
    ensures |s| == PAGE_SIZE
  {
    ConcatLength(Slots(c, page), SLOT_SIZE);
    Concat(Slots(c, page)) + Zeros(PAGE_SIZE - SLOT_SIZE * |page|)
  }

  ghost predicate Small(pages: seq<seq<EKeyEntry>>) { forall i :: 0 <= i < |pages| ==> |pages[i]| <= SLOTS }

  ghost function AllPages(c: Codecs, pages: seq<seq<EKeyEntry>>): (t: seq<seq<byte>>)
    requires Small(pages)
    ensures |t| == |pages| && AllOfLength(t, PAGE_SIZE)
  {
    seq(|pages|, i requires 0 <= i < |pages| => PageBytes(c, pages[i]))
  }

  /** Pages of up to 170 entries each. */
  ghost function PagedFile(c: Codecs, bucket: byte, segmentSize: nat, pages: seq<seq<EKeyEntry>>): seq<byte>
    requires Small(pages)
  {
    Start(c, bucket, segmentSize) + Zeros(PAGE_SIZE - 32) + Concat(AllPages(c, pages))
  }

  // ---- headers ----

  /** What stands in front decides for V2 and the right bucket, or against both versions. */
  lemma StartAccepted(c: Codecs, bucket: byte, segmentSize: nat, rest: seq<byte>, bucketIndex: byte)
    ensures var data := Start(c, bucket, segmentSize) + rest;
            && (ParseHeaderV2(c, data, bucketIndex).Ok? <==> bucketIndex == bucket)
            && (bucketIndex == bucket ==>
                  var h := ParseHeaderV2(c, data, bucketIndex).value;
                  h.HeaderLength + h.HeaderPadding == 32 && h.FileOffsetBits == FILE_OFFSET_BITS)
            && ParseHeaderV1(c, data, bucketIndex).Err?
  {
    hide LE, ReadLE, LE32, FILE_OFFSET_BITS;
    var h := HeaderV2(bucket, segmentSize);
    var data := Start(c, bucket, segmentSize) + rest;
    Pow256Values();
    assert At(data, 0, 4) == LE(16, 4) && At(data, 4, 4) == LE(c.hashLittle(h, 0), 4) && At(data, 8, 16) == h;
    FieldLE32(16);
    FieldLE32(c.hashLittle(h, 0));
    WrapFits(16);
    WrapFits(c.hashLittle(h, 0));
    assert At(h, 0, 2) == LE(7, 2);
    ReadLEOfLE(7, 2);
    assert At(data, 0, 2) == LE(16, 4)[..2];
    LEPrefix(16, 4, 2);
    ReadLEOfLE(16, 2);
  }

  // ---- one block ----

  lemma BlockEntry(es: seq<EKeyEntry>, i: nat)
    requires i < |es|
    ensures At(Block(es), ENTRY_SIZE * i, ENTRY_SIZE) == EntryBytes(es[i])
  {
    hide EntryBytes, Concat;
    ConcatRecord(AllEntries(es), ENTRY_SIZE, i);
  }

  lemma BlockDecodes(es: seq<EKeyEntry>)
    ensures EntryList(Block(es), 0, |es|, FILE_OFFSET_BITS) == StoredAll(es)
  {
    hide EntryBytes, Block, DecodeEntry, Stored;
    forall i | 0 <= i < |es|
      ensures EntryList(Block(es), 0, |es|, FILE_OFFSET_BITS)[i] == StoredAll(es)[i]
    {
      BlockEntry(es, i);
      StoredIsDecoded(es[i]);
    }
  }

  lemma BlockAccepted(c: Codecs, es: seq<EKeyEntry>)
    requires ENTRY_SIZE * |es| < TWO32
    ensures var data := LE(ENTRY_SIZE * |es|, 4) + LE(Chained(c, Block(es), |es|).0, 4) + Block(es);
            if |es| == 0 then EntriesBlock(c, data).Err? else EntriesBlock(c, data) == Ok(Block(es))
  {
    hide LE, LE32, Block, Chained;
    var size, hash := ENTRY_SIZE * |es|, Chained(c, Block(es), |es|).0;
    var data := LE(size, 4) + LE(hash, 4) + Block(es);
    assert At(data, 0, 4) == LE(size, 4) && At(data, 4, 4) == LE(hash, 4) && At(data, 8, size) == Block(es);
    FieldLE32(size);
    FieldLE32(hash);
    WrapFits(size);
    WrapFits(hash);
  }

  /** A file with one block lists its entries, if it has any, for its own bucket only. */
  lemma BlockFileParses(c: Codecs, bucket: byte, segmentSize: nat, es: seq<EKeyEntry>, bucketIndex: byte)
    requires ENTRY_SIZE * |es| < TWO32
    ensures var r := Parsed(c, BlockFile(c, bucket, segmentSize, es), bucketIndex);
            && (r.Ok? <==> bucketIndex == bucket && |es| > 0)
            && (r.Ok? ==> r.value.Entries == StoredAll(es))
  {
    hide LE, Start, Block, Chained, ParseHeaderV1, ParseHeaderV2, EntriesBlock, EntryList, StoredAll, PagedEntries;
    var body := LE(ENTRY_SIZE * |es|, 4) + LE(Chained(c, Block(es), |es|).0, 4) + Block(es);
    var data := BlockFile(c, bucket, segmentSize, es);
    assert data == Start(c, bucket, segmentSize) + body && data[32..] == body;
    StartAccepted(c, bucket, segmentSize, body, bucketIndex);
    BlockAccepted(c, es);
    BlockDecodes(es);
  }

  // ---- pages ----

  lemma SlotRead(c: Codecs, e: EKeyEntry, rest: seq<byte>)
    ensures HashedEntry(c, Slot(c, e) + rest) == Some(EntryBytes(e))
  {
    hide LE, LE32, EntryBytes, EntryHash;
    var hash := EntryHash(c, EntryBytes(e) + [0]);
    var data := Slot(c, e) + rest;
    assert At(data, 0, 4) == LE(hash, 4) && At(data, 4, ENTRY_SIZE + 1) == EntryBytes(e) + [0];
    assert At(data, 4, ENTRY_SIZE) == EntryBytes(e);
    FieldLE32(hash);
    WrapFits(hash);
    TopBit(c, EntryBytes(e) + [0]);
  }

  lemma TopBit(c: Codecs, s: seq<byte>)
    ensures EntryHash(c, s) != 0
  {
  }

  lemma NothingInZeros(c: Codecs, n: nat)
    ensures HashedEntry(c, Zeros(n)) == None
  {
    if n >= 4 {
      ZeroWord(Zeros(n));
    }
  }

  lemma ZeroWord(s: seq<byte>)
    requires |s| >= 4 && s[..4] == [0, 0, 0, 0]
    ensures LE32(At(s, 0, 4)) == 0
  {
    assert At(s, 0, 4) == LE(0, 4);
    FieldLE32(0);
  }

  /** From slot j on, a page gives its entries from the j-th on. */
  lemma {:induction false} PageRead(c: Codecs, data: seq<byte>, start: nat, page: seq<EKeyEntry>, j: nat)
    requires |page| <= SLOTS && Has(data, start, PageBytes(c, page)) && j <= |page|
    ensures PageEntries(c, data, start + SLOT_SIZE * j, start + PAGE_SIZE, FILE_OFFSET_BITS) == StoredAll(page[j..])
    decreases |page| - j
  {
    hide Slot, EntryBytes, HashedEntry, DecodeEntry, Stored, Concat, PageBytes, FILE_OFFSET_BITS;
    var p, end := start + SLOT_SIZE * j, start + PAGE_SIZE;
    RestOfPage(c, data, start, page, j);
    if j < |page| {
      var rest := data[p..end][SLOT_SIZE..];
      SlotRead(c, page[j], rest);
      StoredIsDecoded(page[j]);
      PageRead(c, data, start, page, j + 1);
      assert StoredAll(page[j..]) == [Stored(page[j])] + StoredAll(page[j + 1..]);
    } else {
      NothingInZeros(c, end - p);
    }
  }

  lemma RestOfPage(c: Codecs, data: seq<byte>, start: nat, page: seq<EKeyEntry>, j: nat)
    requires |page| <= SLOTS && Has(data, start, PageBytes(c, page)) && j <= |page|
    ensures start + PAGE_SIZE <= |data|
    ensures var s := data[start + SLOT_SIZE * j..start + PAGE_SIZE];
            if j < |page| then s == Slot(c, page[j]) + s[SLOT_SIZE..] else s == Zeros(PAGE_SIZE - SLOT_SIZE * j)
  {
    hide Slot, Concat;
    var t := Slots(c, page);
    ConcatLength(t, SLOT_SIZE);
    var bytes := PageBytes(c, page);
    var s := data[start + SLOT_SIZE * j..start + PAGE_SIZE];
    SubSlice(data, start, start + PAGE_SIZE, SLOT_SIZE * j, PAGE_SIZE);
    assert s == bytes[SLOT_SIZE * j..];
    if j < |page| {
      ConcatRecord(t, SLOT_SIZE, j);
      assert s[..SLOT_SIZE] == Concat(t)[SLOT_SIZE * j..SLOT_SIZE * j + SLOT_SIZE] == t[j];
      assert s == s[..SLOT_SIZE] + s[SLOT_SIZE..];
    }
  }

  lemma StoredBoth(a: seq<EKeyEntry>, b: seq<EKeyEntry>)
    ensures StoredAll(a + b) == StoredAll(a) + StoredAll(b)
  {
    hide Stored;
  }

  lemma {:induction false} PagesRead(c: Codecs, front: seq<byte>, pages: seq<seq<EKeyEntry>>, i: nat)
    requires Small(pages) && i <= |pages|
    ensures var data := front + Concat(AllPages(c, pages));
            PagedEntries(c, data, |front| + PAGE_SIZE * i, FILE_OFFSET_BITS) == StoredAll(Concat(pages[i..]))
    decreases |pages| - i
  {
    hide Concat, PageBytes, PageEntries, StoredAll, FILE_OFFSET_BITS;
    var t := AllPages(c, pages);
    var data := front + Concat(t);
    ConcatLength(t, PAGE_SIZE);
    if i < |pages| {
      var start := |front| + PAGE_SIZE * i;
      ConcatRecord(t, PAGE_SIZE, i);
      Behind(front, Concat(t), PAGE_SIZE * i, PageBytes(c, pages[i]));
      PageRead(c, data, start, pages[i], 0);
      assert pages[i][0..] == pages[i];
      PagesRead(c, front, pages, i + 1);
      ConcatHead(pages[i..]);
      assert pages[i..][1..] == pages[i + 1..];
      StoredBoth(pages[i], Concat(pages[i + 1..]));
    } else {
      NothingListed(pages[i..]);
    }
  }

  lemma Behind(front: seq<byte>, s: seq<byte>, off: nat, piece: seq<byte>)
    requires Has(s, off, piece)
    ensures Has(front + s, |front| + off, piece)
  {
    assert (front + s)[|front| + off..|front| + off + |piece|] == s[off..off + |piece|];
  }

  lemma NothingListed(pages: seq<seq<EKeyEntry>>)
    requires |pages| == 0
    ensures StoredAll(Concat(pages)) == []
  {
  }

  /** Zeros behind the header hold no block, so the pages are read. */
  lemma NoBlock(c: Codecs, data: seq<byte>, h: Header)
    requires h.HeaderLength + h.HeaderPadding == 32 && |data| >= 36 && data[32..36] == [0, 0, 0, 0]
    ensures EntriesV2(c, data, h)
         == if |data| < LEAST_PAGED then Err(FileCorrupt) else Ok(PagedEntries(c, data, PAGE_SIZE, h.FileOffsetBits))
  {
    hide PagedEntries, LE32;
    assert data[32..][..4] == data[32..36];
    ZeroWord(data[32..]);
  }

  lemma VersionDecided(c: Codecs, data: seq<byte>, bucketIndex: byte)
    ensures ParseHeaderV2(c, data, bucketIndex).Err? && ParseHeaderV1(c, data, bucketIndex).Err? ==>
              Parsed(c, data, bucketIndex).Err?
    ensures ParseHeaderV2(c, data, bucketIndex).Ok? ==>
              var es := EntriesV2(c, data, ParseHeaderV2(c, data, bucketIndex).value);
              && Parsed(c, data, bucketIndex).Ok? == es.Ok?
              && (es.Ok? ==> Parsed(c, data, bucketIndex).value.Entries == es.value)
  {
    hide ParseHeaderV1, ParseHeaderV2, EntriesV2, EntriesV1;
  }

  /** The pages stand behind the header and zeros. */
  lemma PagedShape(c: Codecs, bucket: byte, segmentSize: nat, pages: seq<seq<EKeyEntry>>)
      returns (front: seq<byte>, rest: seq<byte>)
    requires Small(pages)
    ensures var data := PagedFile(c, bucket, segmentSize, pages);
            && |data| == PAGE_SIZE + PAGE_SIZE * |pages|
            && data[32..36] == [0, 0, 0, 0]
            && |front| == PAGE_SIZE && data == front + Concat(AllPages(c, pages))
            && data == Start(c, bucket, segmentSize) + rest
  {
    hide Start, Concat, AllPages;
    var first, t := Start(c, bucket, segmentSize), AllPages(c, pages);
    ConcatLength(t, PAGE_SIZE);
    front, rest := first + Zeros(PAGE_SIZE - 32), Zeros(PAGE_SIZE - 32) + Concat(t);
    Assoc(first, Zeros(PAGE_SIZE - 32), Concat(t));
  }

  /** A paged file of at least eight pages lists the entries of all pages in order, however full they are. */
  lemma PagedFileParses(c: Codecs, bucket: byte, segmentSize: nat, pages: seq<seq<EKeyEntry>>, bucketIndex: byte)
    requires Small(pages)
    ensures var r := Parsed(c, PagedFile(c, bucket, segmentSize, pages), bucketIndex);
            && (r.Ok? <==> bucketIndex == bucket && |pages| >= 8)
            && (r.Ok? ==> r.value.Entries == StoredAll(Concat(pages)))
  {
    hide Start, ParseHeaderV1, ParseHeaderV2, StoredAll, PagedEntries, Concat, AllPages, EntriesV2, Parsed, PagedFile, Small;
    var data := PagedFile(c, bucket, segmentSize, pages);
    var front, rest := PagedShape(c, bucket, segmentSize, pages);
    StartAccepted(c, bucket, segmentSize, rest, bucketIndex);
    VersionDecided(c, data, bucketIndex);
    if bucketIndex == bucket {
      NoBlock(c, data, ParseHeaderV2(c, data, bucketIndex).value);
      PagesRead(c, front, pages, 0);
      assert pages[0..] == pages;
    }
  }
}
