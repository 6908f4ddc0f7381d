// internal/index: the V1 .idx file. A 48-byte header with three hashes and two
// blocks of 18-byte entries sorted by the first nine key bytes.

module IndexV1 {
  import opened Words
  import opened Bitwise
  import opened Seqs
  import opened Bytes
  import opened Sorting
  import opened Environment
  import opened Archive

  const HEADER_SIZE: nat := 48
  const ENTRY_SIZE: nat := 18
  const FILE_OFFSET_BITS: nat := 30

  datatype WriteOptions = WriteOptions(BucketIndex: byte, SegmentSize: nat, Block1Count: int)

  datatype Header = Header(
    IndexVersion: nat,
    BucketIndex: byte,
    StorageOffsetLength: byte,
    EncodedSizeLength: byte,
    EKeyLength: byte,
    FileOffsetBits: byte,
    SegmentSize: nat,
    HeaderLength: nat,
    HeaderPadding: nat,
    EntryLength: nat,
    EKeyCount: u32)

  datatype IndexFile = IndexFile(Header: Header, Entries: seq<EKeyEntry>)

  // ---- the format ----

  function LessByKey(): (EKeyEntry, EKeyEntry) -> bool {
    (x: EKeyEntry, y: EKeyEntry) => LexLess(x.EKey[..9], y.EKey[..9])
  }

  /** (ArchiveIndex << 30) | ArchiveOffs */
  function Storage(e: EKeyEntry): nat { Or(ShiftLeft(e.ArchiveIndex, FILE_OFFSET_BITS), e.ArchiveOffs) }

  function EntryBytes(e: EKeyEntry): (s: seq<byte>)
    ensures |s| == ENTRY_SIZE
  {
    e.EKey[..9] + BE(Storage(e), 5) + BE(e.EncodedSize, 4)
  }

  function AllEntries(es: seq<EKeyEntry>): (t: seq<seq<byte>>)
    ensures |t| == |es| && AllOfLength(t, ENTRY_SIZE)
  {
    seq(|es|, i requires 0 <= i < |es| => EntryBytes(es[i]))
  }

  function Block(es: seq<EKeyEntry>): (s: seq<byte>)
    ensures |s| == ENTRY_SIZE * |es|
  {
    ConcatLength(AllEntries(es), ENTRY_SIZE);
    Concat(AllEntries(es))
  }

  function FirstBlock(n: nat, opts: WriteOptions): (k: nat)
    ensures k <= n
  {
    if opts.Block1Count <= 0 || opts.Block1Count > n then n else opts.Block1Count
  }

  function SegmentSizeOf(opts: WriteOptions): nat {
    if opts.SegmentSize == 0 then 0x4000_0000 else opts.SegmentSize
  }

  /** Version, bucket and sizes. */
  function HeaderFront(opts: WriteOptions): (s: seq<byte>)
    ensures |s| == 24
  {
    LE(5, 2) + [opts.BucketIndex] + [0] + LE(0, 4) + LE(0x4000_0000, 8) + LE(SegmentSizeOf(opts), 8)
  }

  function HeaderStart(opts: WriteOptions, n1: nat, n2: nat): (s: seq<byte>)
    ensures |s| == 36
  {
    HeaderFront(opts) + [4, 5, 9, 30] + LE(n1, 4) + LE(n2, 4)
  }

  /** All of the header but its own hash. */
  function HashedHeader(c: Codecs, opts: WriteOptions, es1: seq<EKeyEntry>, es2: seq<EKeyEntry>): (s: seq<byte>)
    ensures |s| == 44
  {
    HeaderStart(opts, |es1|, |es2|) + LE(c.hashLittle(Block(es1), 0), 4) + LE(c.hashLittle(Block(es2), 0), 4)
  }

  function HeaderBytes(c: Codecs, opts: WriteOptions, es1: seq<EKeyEntry>, es2: seq<EKeyEntry>): (s: seq<byte>)
    ensures |s| == HEADER_SIZE
  {
    var h := HashedHeader(c, opts, es1, es2);
    h + LE(c.hashLittle(h + [0, 0, 0, 0], 0), 4)
  }

  function IndexBytes(c: Codecs, sorted: seq<EKeyEntry>, opts: WriteOptions): seq<byte> {
    var k := FirstBlock(|sorted|, opts);
    HeaderBytes(c, opts, sorted[..k], sorted[k..]) + Block(sorted[..k]) + Block(sorted[k..])
  }

  // ---- the writer ----

  method EncodeV1(c: Codecs, entries: seq<EKeyEntry>, opts: WriteOptions)
      returns (out: seq<byte>, ghost sorted: seq<EKeyEntry>)
    ensures SortedCopy(sorted, entries, LessByKey())
    ensures out == IndexBytes(c, sorted, opts)
  {
    hide LexLess, HeaderStart, Block;
    LexIsOrder(LessByKey(), (e: EKeyEntry) => e.EKey[..9]);
    var s := SortSlice(entries, LessByKey());
    sorted := s;
    var k := FirstBlock(|s|, opts);
    var es1, es2 := s[..k], s[k..];
    var buf := new byte[HEADER_SIZE + ENTRY_SIZE * |s|](_ => 0);
    WriteHeaderStart(buf, opts, k, |s| - k);
    WriteBlock(buf, HEADER_SIZE, es1);
    ghost var b1 := buf[..];
    var n1 := HEADER_SIZE + ENTRY_SIZE * k;
    WriteBlock(buf, n1, es2);
    PutKeeps(b1, buf[..], n1, ENTRY_SIZE * |es2|, HEADER_SIZE, Block(es1));
    PutKeeps(b1, buf[..], n1, ENTRY_SIZE * |es2|, 0, HeaderStart(opts, |es1|, |es2|));
    HasTwo(buf[..], HEADER_SIZE, Block(es1), Block(es2));
    WriteKeyHashes(c, buf, opts, es1, es2);
    out := WriteHeaderHash(c, buf, opts, es1, es2);
  }

  method WriteHeaderStart(buf: array<byte>, opts: WriteOptions, n1: nat, n2: nat)
    requires buf.Length >= HEADER_SIZE
    modifies buf
    ensures Has(buf[..], 0, HeaderStart(opts, n1, n2))
  {
    hide LE, HeaderFront;
    WriteHeaderFront(buf, opts);
    var off := Append(buf, 24, [4, 5, 9, 30]);
    off := Append(buf, off, LE(n1, 4));
    off := Append(buf, off, LE(n2, 4));
  }

  method WriteHeaderFront(buf: array<byte>, opts: WriteOptions)
    requires buf.Length >= HEADER_SIZE
    modifies buf
    ensures buf[..24] == HeaderFront(opts)
  {
    hide LE;
    var off := Append(buf, 0, LE(5, 2));
    off := Append(buf, off, [opts.BucketIndex]);
    off := Append(buf, off, [0]);
    off := Append(buf, off, LE(0, 4));
    off := Append(buf, off, LE(0x4000_0000, 8));
    off := Append(buf, off, LE(SegmentSizeOf(opts), 8));
  }

  /** One block of entries from off on. */
  method WriteBlock(buf: array<byte>, off: nat, es: seq<EKeyEntry>)
    requires off + ENTRY_SIZE * |es| <= buf.Length
    modifies buf
    ensures Has(buf[..], off, Block(es))
    ensures buf[..off] == old(buf[..off])
    ensures buf[off + ENTRY_SIZE * |es|..] == old(buf[off + ENTRY_SIZE * |es|..])
  {
    hide EntryBytes, Concat;
    ghost var t := AllEntries(es);
    ghost var all := old(buf[..]);
    NoPieces(t);
    for i := 0 to |es|
      invariant buf[..off] == all[..off]
      invariant Has(buf[..], off, Concat(t[..i])) && |Concat(t[..i])| == ENTRY_SIZE * i
      invariant buf[off + ENTRY_SIZE * i..] == all[off + ENTRY_SIZE * i..]
    {
      ghost var before := buf[..];
      var at := off + ENTRY_SIZE * i;
      WriteEntryV1(buf, at, es[i]);
      PutKeeps(before, buf[..], at, ENTRY_SIZE, off, Concat(t[..i]));
      HasTwo(buf[..], off, Concat(t[..i]), t[i]);
      ConcatSnoc(t, i);
      assert before[at..][ENTRY_SIZE..] == before[at + ENTRY_SIZE..] && all[at..][ENTRY_SIZE..] == all[at + ENTRY_SIZE..];
      assert buf[..][..off] == before[..off];
    }
    assert t[..|es|] == t;
  }

  method WriteEntryV1(buf: array<byte>, at: nat, e: EKeyEntry)
    requires at + ENTRY_SIZE <= buf.Length
    modifies buf
    ensures Has(buf[..], at, EntryBytes(e))
    ensures buf[..at] == old(buf[..at])
    ensures buf[at + ENTRY_SIZE..] == old(buf[at + ENTRY_SIZE..])
  {
    hide BE, Storage;
    ghost var all := old(buf[..]);
    var key := e.EKey[..9];
    Put(buf, at, key);
    ghost var s1 := buf[..];
    assert s1[at + 14..] == all[at + 14..];
    WriteBE(buf, at + 9, 5, Storage(e));
    ghost var s2 := buf[..];
    PutKeeps(s1, s2, at + 9, 5, at, key);
    WriteBE(buf, at + 14, 4, e.EncodedSize);
    ghost var s3 := buf[..];
    PutKeeps(s2, s3, at + 14, 4, at, key);
    PutKeeps(s2, s3, at + 14, 4, at + 9, BE(Storage(e), 5));
    HasTwo(s3, at, key, BE(Storage(e), 5));
    HasTwo(s3, at, key + BE(Storage(e), 5), BE(e.EncodedSize, 4));
    StartKept(s1, s2, at + 9, at);
    StartKept(s2, s3, at + 14, at);
  }

  lemma StartKept(s: seq<byte>, t: seq<byte>, m: nat, n: nat)
    requires n <= m <= |s| && m <= |t| && s[..m] == t[..m]
    ensures s[..n] == t[..n]
  {
    assert s[..m][..n] == s[..n] && t[..m][..n] == t[..n];
  }

  /** The hashes of the two blocks. */
  method WriteKeyHashes(c: Codecs, buf: array<byte>, opts: WriteOptions, es1: seq<EKeyEntry>, es2: seq<EKeyEntry>)
    requires buf.Length == HEADER_SIZE + ENTRY_SIZE * |es1| + ENTRY_SIZE * |es2|
    requires Has(buf[..], 0, HeaderStart(opts, |es1|, |es2|))
    requires Has(buf[..], HEADER_SIZE, Block(es1) + Block(es2))
    modifies buf
    ensures Has(buf[..], 0, HashedHeader(c, opts, es1, es2))
    ensures Has(buf[..], HEADER_SIZE, Block(es1) + Block(es2))
  {
    hide LE, Block, HeaderStart, Has;
    ghost var start := HeaderStart(opts, |es1|, |es2|);
    var n1 := HEADER_SIZE + ENTRY_SIZE * |es1|;
    ghost var body := Block(es1) + Block(es2);
    HashedBlocks(buf[..], es1, es2);
    var keysHash1 := c.hashLittle(buf[HEADER_SIZE..n1], 0);
    PutNext(buf, LE(keysHash1, 4), start, HEADER_SIZE, body, 36);
    HashedBlocks(buf[..], es1, es2);
    var keysHash2 := c.hashLittle(buf[n1..n1 + ENTRY_SIZE * |es2|], 0);
    PutNext(buf, LE(keysHash2, 4), start + LE(keysHash1, 4), HEADER_SIZE, body, 40);
  }

  lemma HashedBlocks(s: seq<byte>, es1: seq<EKeyEntry>, es2: seq<EKeyEntry>)
    requires Has(s, HEADER_SIZE, Block(es1) + Block(es2))
    ensures var n1 := HEADER_SIZE + ENTRY_SIZE * |es1|;
            && n1 + ENTRY_SIZE * |es2| <= |s|
            && s[HEADER_SIZE..n1] == Block(es1)
            && s[n1..n1 + ENTRY_SIZE * |es2|] == Block(es2)
  {
    hide Block;
    HasTwo(s, HEADER_SIZE, Block(es1), Block(es2));
  }

  /** The hash of the header, its own field still zero. */
  method WriteHeaderHash(c: Codecs, buf: array<byte>, opts: WriteOptions, es1: seq<EKeyEntry>, es2: seq<EKeyEntry>)
      returns (out: seq<byte>)
    requires buf.Length == HEADER_SIZE + ENTRY_SIZE * |es1| + ENTRY_SIZE * |es2|
    requires Has(buf[..], 0, HashedHeader(c, opts, es1, es2))
    requires Has(buf[..], HEADER_SIZE, Block(es1) + Block(es2))
    modifies buf
    ensures out == HeaderBytes(c, opts, es1, es2) + Block(es1) + Block(es2)
  {
    hide LE, Block, HashedHeader;
    ghost var h, body := HashedHeader(c, opts, es1, es2), Block(es1) + Block(es2);
    assert buf[..44] == h;
    var headerHash := c.hashLittle(buf[..44] + [0, 0, 0, 0], 0);
    PutNext(buf, LE(headerHash, 4), h, HEADER_SIZE, body, 44);
    HasTwo(buf[..], 0, HeaderBytes(c, opts, es1, es2), body);
    HasAll(buf[..], HeaderBytes(c, opts, es1, es2) + body);
    out := buf[..];
    Assoc(HeaderBytes(c, opts, es1, es2), Block(es1), Block(es2));
  }
}
