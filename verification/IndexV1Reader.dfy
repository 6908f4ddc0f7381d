// internal/index/index.go: header checks and entry loading, and what reading
// back a written V1 file gives.

module IndexV1Reader {
  import opened Words
  import opened Wrappers
  import opened Bitwise
  import opened Seqs
  import opened Bytes
  import opened Environment
  import opened Archive
  import opened IndexV1
  import opened IndexEntries
  import opened IndexV2Reader

  // ---- V1 ----

  function ParseHeaderV1(c: Codecs, data: seq<byte>, bucketIndex: byte): Result<Header> {
    if |data| < HEADER_SIZE then Err(BadFormat)
    else if ReadLE(At(data, 0, 2)) != 5 then Err(BadFormat)
    else if data[2] != bucketIndex then Err(BadFormat)
    else if ReadLE(At(data, 8, 8)) == 0 then Err(BadFormat)
    else if data[24] != 4 || data[25] != 5 || data[26] != 9 then Err(NotSupported)
    else if c.hashLittle(At(data, 0, 44) + [0, 0, 0, 0], 0) != LE32(At(data, 44, 4)) then Err(BadFormat)
    else
      var n1, n2 := LE32(At(data, 28, 4)), LE32(At(data, 32, 4));
      var end1 := HEADER_SIZE + ENTRY_SIZE * n1;
      if end1 > |data| then Err(FileCorrupt)
      else if c.hashLittle(At(data, HEADER_SIZE, ENTRY_SIZE * n1), 0) != LE32(At(data, 36, 4)) then Err(FileCorrupt)
      else if end1 + ENTRY_SIZE * n2 > |data| then Err(FileCorrupt)
      else if c.hashLittle(At(data, end1, ENTRY_SIZE * n2), 0) != LE32(At(data, 40, 4)) then Err(FileCorrupt)
      else Ok(Header(5, data[2], data[25], data[24], data[26], data[27], ReadLE(At(data, 16, 8)),
                     HEADER_SIZE, 0, ENTRY_SIZE, Wrap(n1 + n2)))
  }

  function EntriesV1(data: seq<byte>, h: Header): Result<seq<EKeyEntry>> {
    var off := h.HeaderLength + h.HeaderPadding;
    if off + ENTRY_SIZE * h.EKeyCount > |data| then Err(FileCorrupt)
    else Ok(EntryList(data, off, h.EKeyCount, h.FileOffsetBits))
  }

  method LoadEntriesV1(data: seq<byte>, h: Header) returns (r: Result<seq<EKeyEntry>>)
    ensures r == EntriesV1(data, h)
  {
    hide DecodeEntry;
    var off := h.HeaderLength + h.HeaderPadding;
    ghost var start := off;
    if off + ENTRY_SIZE * h.EKeyCount > |data| {
      return Err(FileCorrupt);
    }
    var out: seq<EKeyEntry> := [];
    for i := 0 to h.EKeyCount
      invariant off == start + ENTRY_SIZE * i
      invariant out == EntryList(data, start, i, h.FileOffsetBits)
    {
      out := out + [DecodeEntry(At(data, off, ENTRY_SIZE), h.FileOffsetBits)];
      off := off + ENTRY_SIZE;
    }
    r := Ok(out);
  }

  /** Parse: a V2 header decides for V2. */
  function Parsed(c: Codecs, data: seq<byte>, bucketIndex: byte): Result<IndexFile> {
    match ParseHeaderV2(c, data, bucketIndex)
    case Ok(hdr) =>
      (match EntriesV2(c, data, hdr)
       case Err(e) => Err(e)
       case Ok(es) => Ok(IndexFile(hdr, es)))
    case Err(_) =>
      match ParseHeaderV1(c, data, bucketIndex)
      case Err(e) => Err(e)
      case Ok(hdr) =>
        match EntriesV1(data, hdr)
        case Err(e) => Err(e)
        case Ok(es) => Ok(IndexFile(hdr, es))
  }

  method Parse(c: Codecs, data: seq<byte>, bucketIndex: byte) returns (r: Result<IndexFile>)
    ensures r == Parsed(c, data, bucketIndex)
  {
    hide ParseHeaderV1, ParseHeaderV2, EntriesV1, EntriesV2;
    var hdr2 := ParseHeaderV2(c, data, bucketIndex);
    if hdr2.Ok? {
      var es := LoadEntriesV2(c, data, hdr2.value);
      return if es.Ok? then Ok(IndexFile(hdr2.value, es.value)) else Err(es.error);
    }
    var hdr := ParseHeaderV1(c, data, bucketIndex);
    if hdr.Err? {
      return Err(hdr.error);
    }
    var entries := LoadEntriesV1(data, hdr.value);
    if entries.Err? {
      return Err(entries.error);
    }
    r := Ok(IndexFile(hdr.value, entries.value));
  }

  // ---- the round trip ----

  /** What an entry becomes in the file: nine key bytes, a 30-bit offset, ten bits of segment. */
  function Stored(e: EKeyEntry): EKeyEntry {
    EKeyEntry(TrimmedKey(e.EKey[..9]), Or(e.ArchiveIndex, e.ArchiveOffs / 0x4000_0000) % 1024,
              e.ArchiveOffs % 0x4000_0000, e.EncodedSize)
  }

  function StoredAll(es: seq<EKeyEntry>): seq<EKeyEntry> {
    seq(|es|, i requires 0 <= i < |es| => Stored(es[i]))
  }

  lemma StoredIsDecoded(e: EKeyEntry)
    ensures DecodeEntry(EntryBytes(e), FILE_OFFSET_BITS) == Stored(e)
  {
    hide Or, BE, ReadBE, BE32, High, LowBits, ShiftLeft;
    var b := EntryBytes(e);
    assert At(b, 0, 9) == e.EKey[..9];
    assert At(b, 9, 5) == BE(Storage(e), 5);
    assert At(b, 14, 4) == BE(e.EncodedSize, 4);
    FieldBE32(e.EncodedSize);
    WrapFits(e.EncodedSize);
    ReadBEOfBE(Storage(e), 5);
    StorageFields(e);
  }

  /** Five bytes keep the low 40 bits of the storage field. */
  lemma StorageFields(e: EKeyEntry)
    ensures Wrap(LowBits(Low(Storage(e), 5), 30)) == e.ArchiveOffs % 0x4000_0000
    ensures Wrap(High(Low(Storage(e), 5), 30)) == Or(e.ArchiveIndex, e.ArchiveOffs / 0x4000_0000) % 1024
  {
    hide Or, ShiftLeft, LowBits, High, Pow256;
    var s := Storage(e);
    ThirtyBits(s);
    ThirtyBits(e.ArchiveOffs);
    OrShifted(e.ArchiveIndex, e.ArchiveOffs, 30);
    Pow256Values();
    ThirtyBits(s % 0x100_0000_0000);
    FortyBits(s);
  }

  lemma FortyBits(s: nat)
    ensures s % 0x100_0000_0000 % 0x4000_0000 == s % 0x4000_0000
    ensures s % 0x100_0000_0000 / 0x4000_0000 == s / 0x4000_0000 % 1024
  {
    var q, r := s / 0x4000_0000, s % 0x4000_0000;
    var a, b := q / 1024, q % 1024;
    Digits(0x100_0000_0000, a, 0x4000_0000 * b + r);
    Digits(0x4000_0000, b, r);
    assert s == 0x100_0000_0000 * a + (0x4000_0000 * b + r);
  }

  lemma Digits(m: nat, q: nat, r: nat)
    requires r < m
    ensures (m * q + r) / m == q && (m * q + r) % m == r
  {
    Quotient(m * q + r, m, q, r);
  }

  lemma ThirtyBits(v: nat)
    ensures LowBits(v, 30) == v % 0x4000_0000
    ensures High(v, 30) == v / 0x4000_0000
  {
    assert Power2(10) == 0x400;
    assert Power2(20) == 0x10_0000;
    assert Power2(30) == 0x4000_0000;
  }

  /** The location survives exactly when the offset has 30 bits and the segment number ten. */
  lemma StoredExact(e: EKeyEntry)
    ensures (Stored(e).ArchiveIndex == e.ArchiveIndex && Stored(e).ArchiveOffs == e.ArchiveOffs)
         <==> (e.ArchiveOffs < 0x4000_0000 && e.ArchiveIndex < 1024)
  {
    if e.ArchiveOffs < 0x4000_0000 {
      OrZero(e.ArchiveIndex);
    }
  }

  lemma OrZero(a: nat)
    ensures Or(a, 0) == a
  {
  }

  lemma StartFields(opts: WriteOptions, n1: u32, n2: u32)
    ensures var h := HeaderStart(opts, n1, n2);
            && ReadLE(At(h, 0, 2)) == 5 && h[2] == opts.BucketIndex
            && ReadLE(At(h, 8, 2)) == 0 && ReadLE(At(h, 8, 8)) == 0x4000_0000
            && ReadLE(At(h, 16, 8)) == SegmentSizeOf(opts) % 0x1_0000_0000_0000_0000
            && h[24] == 4 && h[25] == 5 && h[26] == 9 && h[27] == 30
            && LE32(At(h, 28, 4)) == n1 && LE32(At(h, 32, 4)) == n2
  {
    StartSlices(opts, n1, n2);
    hide HeaderStart, LE, ReadLE, LE32;
    Pow256Values();
    ReadLEOfLE(5, 2);
    ReadLEOfLE(0x4000_0000, 8);
    ReadLEOfLE(SegmentSizeOf(opts), 8);
    ReadLEOfLE(0x4000_0000, 2);
    FieldLE32(n1);
    FieldLE32(n2);
  }

  lemma StartSlices(opts: WriteOptions, n1: u32, n2: u32)
    ensures var h := HeaderStart(opts, n1, n2);
            && At(h, 0, 2) == LE(5, 2) && h[2] == opts.BucketIndex
            && At(h, 8, 2) == LE(0x4000_0000, 2) && At(h, 8, 8) == LE(0x4000_0000, 8)
            && At(h, 16, 8) == LE(SegmentSizeOf(opts), 8)
            && h[24] == 4 && h[25] == 5 && h[26] == 9 && h[27] == 30
            && At(h, 28, 4) == LE(n1, 4) && At(h, 32, 4) == LE(n2, 4)
  {
    LEPrefix(0x4000_0000, 8, 2);
    var h := HeaderStart(opts, n1, n2);
    assert Has(h, 0, h);
    hide LE;
    var p3 := LE(5, 2) + [opts.BucketIndex] + [0];
    var p5 := p3 + LE(0, 4) + LE(0x4000_0000, 8);
    var p7 := p5 + LE(SegmentSizeOf(opts), 8) + [4, 5, 9, 30];
    assert h == p7 + LE(n1, 4) + LE(n2, 4);
    HasTwo(h, 0, p7 + LE(n1, 4), LE(n2, 4));
    HasTwo(h, 0, p7, LE(n1, 4));
    HasTwo(h, 0, p5 + LE(SegmentSizeOf(opts), 8), [4, 5, 9, 30]);
    HasTwo(h, 0, p5, LE(SegmentSizeOf(opts), 8));
    HasTwo(h, 0, p3 + LE(0, 4), LE(0x4000_0000, 8));
    HasTwo(h, 0, p3, LE(0, 4));
    Limits(h, p3, opts);
    SubSlice(h, 8, 16, 0, 2);
  }

  lemma Limits(h: seq<byte>, p3: seq<byte>, opts: WriteOptions)
    requires p3 == LE(5, 2) + [opts.BucketIndex] + [0]
    requires Has(h, 0, p3) && Has(h, 24, [4, 5, 9, 30])
    ensures At(h, 0, 2) == LE(5, 2) && h[2] == opts.BucketIndex
    ensures h[24] == 4 && h[25] == 5 && h[26] == 9 && h[27] == 30
  {
    hide LE;
    var four := h[24..28];
    assert four[0] == 4 && four[1] == 5 && four[2] == 9 && four[3] == 30;
    HasTwo(h, 0, LE(5, 2) + [opts.BucketIndex], [0]);
    HasTwo(h, 0, LE(5, 2), [opts.BucketIndex]);
    var one := h[2..3];
    assert one[0] == opts.BucketIndex;
  }

  /** A written V1 file is never taken for V2: bytes 8 and 9 are not 7. */
  lemma NeverV2(c: Codecs, data: seq<byte>, bucketIndex: byte)
    requires |data| >= HEADER_SIZE && ReadLE(At(data, 8, 2)) == 0
    ensures ParseHeaderV2(c, data, bucketIndex).Err?
  {
    hide LE32, ReadLE;
    var g := GuardedBlock(c, data);
    if g.Ok? && |g.value| >= 16 {
      assert At(g.value, 0, 2) == At(data, 8, 2);
    }
  }

  lemma SameField(h: seq<byte>, data: seq<byte>, off: nat, n: nat)
    requires Has(data, 0, h) && off + n <= |h|
    ensures At(data, off, n) == At(h, off, n)
  {
    PartOfPiece(data, 0, h, off, n);
  }

  lemma WrittenPieces(c: Codecs, sorted: seq<EKeyEntry>, opts: WriteOptions)
    ensures var k := FirstBlock(|sorted|, opts);
            var data := IndexBytes(c, sorted, opts);
            && |data| == HEADER_SIZE + ENTRY_SIZE * |sorted|
            && Has(data, 0, HeaderBytes(c, opts, sorted[..k], sorted[k..]))
            && Has(data, HEADER_SIZE, Block(sorted[..k]))
            && Has(data, HEADER_SIZE + ENTRY_SIZE * k, Block(sorted[k..]))
  {
    hide HeaderBytes, Block;
  }

  function HeaderRead(bucketIndex: byte, opts: WriteOptions, n: u32): Header {
    Header(5, bucketIndex, 5, 4, 9, 30, SegmentSizeOf(opts) % 0x1_0000_0000_0000_0000, HEADER_SIZE, 0, ENTRY_SIZE, n)
  }

  /** The V1 header of a written file passes every check, for its own bucket only. */
  lemma HeaderAccepted(c: Codecs, sorted: seq<EKeyEntry>, opts: WriteOptions, bucketIndex: byte)
    requires |sorted| < TWO32
    ensures var data := IndexBytes(c, sorted, opts);
            && (bucketIndex != opts.BucketIndex ==> ParseHeaderV1(c, data, bucketIndex) == Err(BadFormat))
            && (bucketIndex == opts.BucketIndex ==>
                  ParseHeaderV1(c, data, bucketIndex) == Ok(HeaderRead(bucketIndex, opts, |sorted|)))
            && ReadLE(At(data, 8, 2)) == 0
  {
    WrittenPieces(c, sorted, opts);
    hide IndexBytes, Block, LE32, ReadLE, LE, HeaderStart;
    var k := FirstBlock(|sorted|, opts);
    var es1, es2 := sorted[..k], sorted[k..];
    var data := IndexBytes(c, sorted, opts);
    HeaderFields(c, opts, es1, es2, data);
    WrapFits(|es1| + |es2|);
    assert At(data, HEADER_SIZE, ENTRY_SIZE * |es1|) == Block(es1);
    assert At(data, HEADER_SIZE + ENTRY_SIZE * |es1|, ENTRY_SIZE * |es2|) == Block(es2);
  }

  lemma HeaderFields(c: Codecs, opts: WriteOptions, es1: seq<EKeyEntry>, es2: seq<EKeyEntry>, data: seq<byte>)
    requires |es1| < TWO32 && |es2| < TWO32
    requires Has(data, 0, HeaderBytes(c, opts, es1, es2))
    ensures ReadLE(At(data, 0, 2)) == 5 && data[2] == opts.BucketIndex
    ensures ReadLE(At(data, 8, 2)) == 0 && ReadLE(At(data, 8, 8)) == 0x4000_0000
    ensures ReadLE(At(data, 16, 8)) == SegmentSizeOf(opts) % 0x1_0000_0000_0000_0000
    ensures data[24] == 4 && data[25] == 5 && data[26] == 9 && data[27] == 30
    ensures LE32(At(data, 28, 4)) == |es1| && LE32(At(data, 32, 4)) == |es2|
    ensures LE32(At(data, 36, 4)) == c.hashLittle(Block(es1), 0)
    ensures LE32(At(data, 40, 4)) == c.hashLittle(Block(es2), 0)
    ensures LE32(At(data, 44, 4)) == c.hashLittle(At(data, 0, 44) + [0, 0, 0, 0], 0)
  {
    hide LE, LE32, ReadLE, HeaderStart, Block;
    var start := HeaderStart(opts, |es1|, |es2|);
    var h1, h2 := c.hashLittle(Block(es1), 0), c.hashLittle(Block(es2), 0);
    var hashed := HashedHeader(c, opts, es1, es2);
    var hh := c.hashLittle(hashed + [0, 0, 0, 0], 0);
    HasTwo(data, 0, hashed, LE(hh, 4));
    HasTwo(data, 0, start + LE(h1, 4), LE(h2, 4));
    HasTwo(data, 0, start, LE(h1, 4));
    StartFields(opts, |es1|, |es2|);
    StartOfData(data, start);
    FieldLE32(h1);
    FieldLE32(h2);
    FieldLE32(hh);
    WrapFits(h1);
    WrapFits(h2);
    WrapFits(hh);
  }

  lemma StartOfData(data: seq<byte>, start: seq<byte>)
    requires |start| == 36 && Has(data, 0, start)
    ensures At(data, 0, 2) == At(start, 0, 2) && At(data, 8, 2) == At(start, 8, 2) && At(data, 8, 8) == At(start, 8, 8)
    ensures At(data, 16, 8) == At(start, 16, 8) && At(data, 28, 4) == At(start, 28, 4) && At(data, 32, 4) == At(start, 32, 4)
    ensures data[2] == start[2] && data[24] == start[24] && data[25] == start[25]
    ensures data[26] == start[26] && data[27] == start[27]
  {
    SameField(start, data, 0, 2);
    SameField(start, data, 8, 2);
    SameField(start, data, 8, 8);
    SameField(start, data, 16, 8);
    SameField(start, data, 28, 4);
    SameField(start, data, 32, 4);
    assert data[..36] == start;
  }

  /** Entry i stands at its place, whichever block it went to. */
  lemma EntryAt(c: Codecs, sorted: seq<EKeyEntry>, opts: WriteOptions, i: nat)
    requires i < |sorted|
    ensures |IndexBytes(c, sorted, opts)| == HEADER_SIZE + ENTRY_SIZE * |sorted|
    ensures At(IndexBytes(c, sorted, opts), HEADER_SIZE + ENTRY_SIZE * i, ENTRY_SIZE) == EntryBytes(sorted[i])
  {
    WrittenPieces(c, sorted, opts);
    hide IndexBytes, EntryBytes, HeaderBytes, Concat;
    var k := FirstBlock(|sorted|, opts);
    var data := IndexBytes(c, sorted, opts);
    if i < k {
      ConcatRecord(AllEntries(sorted[..k]), ENTRY_SIZE, i);
      PartOfPiece(data, HEADER_SIZE, Block(sorted[..k]), ENTRY_SIZE * i, ENTRY_SIZE);
    } else {
      ConcatRecord(AllEntries(sorted[k..]), ENTRY_SIZE, i - k);
      PartOfPiece(data, HEADER_SIZE + ENTRY_SIZE * k, Block(sorted[k..]), ENTRY_SIZE * (i - k), ENTRY_SIZE);
    }
  }

  lemma EntryRead(c: Codecs, data: seq<byte>, sorted: seq<EKeyEntry>, opts: WriteOptions, i: nat)
    requires i < |sorted| && data == IndexBytes(c, sorted, opts)
    ensures HEADER_SIZE + ENTRY_SIZE * i + ENTRY_SIZE <= |data| == HEADER_SIZE + ENTRY_SIZE * |sorted|
    ensures DecodeEntry(At(data, HEADER_SIZE + ENTRY_SIZE * i, ENTRY_SIZE), 30) == Stored(sorted[i])
  {
    hide IndexBytes, DecodeEntry, EntryBytes, Stored, At;
    EntryAt(c, sorted, opts, i);
    StoredIsDecoded(sorted[i]);
  }

  lemma EntriesRead(c: Codecs, data: seq<byte>, sorted: seq<EKeyEntry>, opts: WriteOptions)
    requires data == IndexBytes(c, sorted, opts)
    ensures |data| == HEADER_SIZE + ENTRY_SIZE * |sorted|
    ensures EntryList(data, HEADER_SIZE, |sorted|, 30) == StoredAll(sorted)
  {
    WrittenPieces(c, sorted, opts);
    hide IndexBytes, HeaderBytes, Block, Has, DecodeEntry, EntryBytes, Stored, At;
    forall i | 0 <= i < |sorted|
      ensures EntryList(data, HEADER_SIZE, |sorted|, 30)[i] == StoredAll(sorted)[i]
    {
      EntryRead(c, data, sorted, opts, i);
    }
  }

  /** Reading a written file gives the sorted entries, for every block split. */
  lemma IndexRoundTrip(c: Codecs, sorted: seq<EKeyEntry>, opts: WriteOptions, bucketIndex: byte)
    requires |sorted| < TWO32
    ensures var r := Parsed(c, IndexBytes(c, sorted, opts), bucketIndex);
            && (r.Ok? <==> bucketIndex == opts.BucketIndex)
            && (r.Ok? ==> r.value.Entries == StoredAll(sorted))
  {
    hide IndexBytes, ParseHeaderV1, ParseHeaderV2, EntriesV2, EntryList, ReadLE, StoredAll;
    HeaderAccepted(c, sorted, opts, bucketIndex);
    EntriesRead(c, IndexBytes(c, sorted, opts), sorted, opts);
    NeverV2(c, IndexBytes(c, sorted, opts), bucketIndex);
  }
}
