// What was flushed into an empty directory is read back, name by name.

module EndToEnd {
  import opened Words
  import opened Wrappers
  import opened Seqs
  import opened Bytes
  import opened Sorting
  import opened Environment
  import opened Blte
  import opened BlteReader
  import opened BlteRoundTrip
  import opened EncodedHeaders
  import opened Archive
  import opened Allocation
  import opened FirstWins
  import opened Lookup
  import opened Flush
  import IndexV1
  import IndexV1Reader
  import Encoding
  import EncodingReader
  import EncodingRoundTrip
  import Install
  import InstallReader

  // ---- opening a storage and a file ----

  type NameHash = Name -> nat

  datatype ReadOptions = ReadOptions(keys: Option<Decoder>, overcome: bool, hash: NameHash)

  datatype Opened = Opened(disk: Disk, ekeys: map<EKeyKey, EKeyEntry>, encoding: EncodingReader.File,
                           root: InstallReader.Handler)

  /** The lookup map of bucket 0; an index that does not parse is skipped. */
  function KeyMap(c: Codecs, index: seq<byte>): map<EKeyKey, EKeyEntry> {
    match IndexV1Reader.Parsed(c, index, 0)
    case Err(_) => map[]
    case Ok(file) => Added(map[], Concat(KeyedAll([file])))
  }

  function Read(c: Codecs, o: ReadOptions, disk: Disk, ekeys: map<EKeyKey, EKeyEntry>, e: Key): Result<seq<byte>> {
    ReadByEKey(c, disk, ekeys, e, o.keys, o.overcome)
  }

  /** LoadEncoding: the ENCODING manifest is read by its encoded key. */
  function LoadEncoding(c: Codecs, o: ReadOptions, disk: Disk, ekeys: map<EKeyKey, EKeyEntry>, e: Key):
      Result<EncodingReader.File>
  {
    match Read(c, o, disk, ekeys, e)
    case Err(error) => Err(error)
    case Ok(data) => EncodingReader.Parsed(data)
  }

  /** LoadRoot: the root's content key goes through ENCODING. */
  function LoadRoot(c: Codecs, o: ReadOptions, disk: Disk, ekeys: map<EKeyKey, EKeyEntry>,
      encoding: EncodingReader.File, root: Key): Result<InstallReader.Handler>
  {
    match encoding.Find(root)
    case None => Err(FileNotFound)
    case Some(entry) =>
      if |entry.EKeys| == 0 then Err(FileNotFound) else
        match Read(c, o, disk, ekeys, entry.EKeys[0])
        case Err(error) => Err(error)
        case Ok(data) => InstallReader.Parsed(o.hash, data)
  }

  function OpenStorage(c: Codecs, o: ReadOptions, f: Flushed): Result<Opened> {
    var ekeys := KeyMap(c, f.index);
    match LoadEncoding(c, o, f.disk, ekeys, f.encoding.ekey)
    case Err(error) => Err(error)
    case Ok(encoding) =>
      match LoadRoot(c, o, f.disk, ekeys, encoding, f.install.ckey)
      case Err(error) => Err(error)
      case Ok(root) => Ok(Opened(f.disk, ekeys, encoding, root))
  }

  /** FindByName and ReadByEKey; a key ENCODING does not know stays zero. */
  function OpenFile(c: Codecs, o: ReadOptions, s: Opened, name: Name): Result<seq<byte>> {
    match InstallReader.LookupByName(o.hash, s.root, name)
    case None => Err(FileNotFound)
    case Some(entry) =>
      var ekey := match s.encoding.Find(entry.CKey)
                  case None => ZERO_KEY
                  case Some(e) => if |e.EKeys| > 0 then e.EKeys[0] else ZERO_KEY;
      Read(c, o, s.disk, s.ekeys, ekey)
  }

  // ---- assumptions on digests ----

  function EKeyFor(c: Codecs, content: seq<byte>): Key { c.md5(RawStream(c, content)) }

  predicate SameShortKey(c: Codecs, x: seq<byte>, y: seq<byte>) { EKeyOf(EKeyFor(c, x)) == EKeyOf(EKeyFor(c, y)) }

  /** MD5, and the first nine bytes of it on streams, tell the written contents apart. */
  ghost predicate NoCollisions(c: Codecs, contents: seq<seq<byte>>) {
    && (forall i, j :: 0 <= i < |contents| && 0 <= j < |contents| && c.md5(contents[i]) == c.md5(contents[j]) ==>
          contents[i] == contents[j])
    && (forall i, j :: 0 <= i < |contents| && 0 <= j < |contents| && SameShortKey(c, contents[i], contents[j]) ==>
          contents[i] == contents[j])
  }

  /** The 30-byte header starts with the key backwards; it must not read as BLTE. */
  predicate PlainHeader(c: Codecs, content: seq<byte>) {
    LE32(At(Reversed(EKeyFor(c, content)), 0, 4)) != BLTE_SIGNATURE
  }

  ghost predicate PlainHeaders(c: Codecs, contents: seq<seq<byte>>) {
    forall i :: 0 <= i < |contents| ==> PlainHeader(c, contents[i])
  }

  // ---- one span ----

  lemma FewFrames(content: seq<byte>)
    requires |content| < DEFAULT_SEGMENT_SIZE
    ensures FrameTotal(content, RAW_OPTIONS) <= 4096
  {
    ChunkCount(content, FrameSizeOf(RAW_OPTIONS));
  }

  lemma StreamDecodes(c: Codecs, d: FrameDecoder, content: seq<byte>)
    requires |content| < DEFAULT_SEGMENT_SIZE
    ensures DecodeBody(c, d, RawStream(c, content)) == Ok(content)
  {
    hide EncodedBytes, DecodeBody, FrameTotal;
    FewFrames(content);
    StreamHasHeader(c, content);
    HeaderFormRoundTrip(c, d, content, RAW_OPTIONS);
  }

  /** A stream starts with the signature, so its wrapper is taken off. */
  lemma StreamSigned(c: Codecs, content: seq<byte>)
    ensures |RawStream(c, content)| >= 8 && LE32(At(RawStream(c, content), 0, 4)) == BLTE_SIGNATURE
  {
    hide Chunks, EncodeFrames, Concat, LE, LE32, BE, TableEntries;
    StreamHasHeader(c, content);
    RawEncodes(c, Chunks(content, FrameSizeOf(RAW_OPTIONS)));
    FieldLE32(BLTE_SIGNATURE);
    assert At(RawStream(c, content), 0, 4) == LE(BLTE_SIGNATURE, 4);
  }

  lemma SpanDecodes(c: Codecs, d: FrameDecoder, content: seq<byte>, offset: nat)
    requires |content| < DEFAULT_SEGMENT_SIZE && PlainHeader(c, content)
    ensures SpanContent(c, d, Span(c, RawStream(c, content), EKeyFor(c, content), offset)) == Ok(content)
  {
    hide RawStream, DecodeBody, LE32, Fold, EncodedOffset;
    var stream, ekey := RawStream(c, content), EKeyFor(c, content);
    var span := Span(c, stream, ekey, offset);
    StreamSigned(c, content);
    StreamDecodes(c, d, content);
    assert span[ENCODED_HEADER_SIZE..] == stream;
    assert At(span, ENCODED_HEADER_SIZE, 4) == At(stream, 0, 4);
    HeaderStarts(c, ekey, Wrap(|stream|), offset);
    assert At(span, 0, 4) == At(EncodedHeader(c, ekey, Wrap(|stream|), offset), 0, 4);
  }

  lemma HeaderStarts(c: Codecs, ekey: Key, size: u32, offset: nat)
    ensures At(EncodedHeader(c, ekey, size, offset), 0, 4) == At(Reversed(ekey), 0, 4)
    ensures At(EncodedHeader(c, ekey, size, offset), 4, 4) == At(Reversed(ekey), 4, 4)
    ensures EncodedHeader(c, ekey, size, offset)[8] == Reversed(ekey)[8]
  {
    hide Fold, EncodedOffset, LE;
  }

  /**
   * Without that assumption a span can be unreadable: a key that, backwards, starts with the signature
   * makes the reader take the wrapper for the stream, and the key's next bytes for its header size.
   */
  lemma SignatureInKey(c: Codecs, d: FrameDecoder, content: seq<byte>, offset: nat)
    requires !PlainHeader(c, content)
    ensures var span := Span(c, RawStream(c, content), EKeyFor(c, content), offset);
            var r := Reversed(EKeyFor(c, content));
            var headerSize := BE32(At(r, 4, 4));
            && SpanContent(c, d, span) == DecodeBody(c, d, span)
            && (headerSize > 0 && (headerSize < 12 || headerSize > |span| || r[8] != 0x0F) ==>
                  SpanContent(c, d, span) == Err(BadFormat))
  {
    hide RawStream, LE32, BE32, LE, BE, Fold, EncodedOffset, DecodeFrames, EKeyFor;
    var stream, ekey := RawStream(c, content), EKeyFor(c, content);
    var span := Span(c, stream, ekey, offset);
    HeaderStarts(c, ekey, Wrap(|stream|), offset);
    var h := EncodedHeader(c, ekey, Wrap(|stream|), offset);
    assert At(span, 0, 4) == At(h, 0, 4) && At(span, 4, 4) == At(h, 4, 4) && span[8] == h[8];
  }

  // ---- the spans of a flush ----

  /** Nothing was refused: every request has its record, in order. */
  ghost predicate Complete(log: seq<Record>, reqs: seq<Request>) {
    |log| <= |reqs| && (|log| == |reqs| ==> forall i :: 0 <= i < |reqs| ==> log[i].req == reqs[i])
  }

  lemma {:induction false} CompleteLog(c: Codecs, size: nat, directory: Disk, reqs: seq<Request>)
    ensures Complete(Run(c, size, directory, reqs).log, reqs)
  {
    if |reqs| > 0 {
      hide EntryFor, Written, Refusal, Complete;
      var n := |reqs| - 1;
      CompleteLog(c, size, directory, reqs[..n]);
      var o := Run(c, size, directory, reqs[..n]);
      CompleteStep(o.log, reqs, EntryFor(o.store, reqs[n].blte, reqs[n].ekey, size));
    }
  }

  lemma CompleteStep(log: seq<Record>, reqs: seq<Request>, e: EKeyEntry)
    requires |reqs| > 0 && Complete(log, reqs[..|reqs| - 1])
    ensures Complete(log, reqs) && Complete(log + [Record(reqs[|reqs| - 1], e)], reqs)
  {
  }

  /** The offset field of an index entry. */
  const OFFSET_LIMIT: nat := 0x4000_0000

  /** A span's offset fits the index unless the span is put behind 1 GiB or more that its segment held before. */
  lemma OffsetBelow(c: Codecs, directory: Disk, reqs: seq<Request>, i: nat)
    requires |reqs| < TWO32 - 1 && SmallSegments(directory)
    requires i < |Run(c, DEFAULT_SEGMENT_SIZE, directory, reqs).log|
    ensures var log := Run(c, DEFAULT_SEGMENT_SIZE, directory, reqs).log;
            log[i].entry.ArchiveOffs < OFFSET_LIMIT
            <==> (Opens(log, i) ==> SizeIn(directory, log[i].entry.ArchiveIndex) < OFFSET_LIMIT)
  {
    hide GapFree, Run, Span, Kept, AtEnd;
    RunIsLaid(c, DEFAULT_SEGMENT_SIZE, directory, reqs);
    var o := Run(c, DEFAULT_SEGMENT_SIZE, directory, reqs);
    assert Holds(c, o.store.disk, o.log[i]);
    if i > 0 {
      assert Follows(directory, o.log[i - 1].entry, o.log[i].entry, DEFAULT_SEGMENT_SIZE);
    }
  }

  ghost predicate Preconditions(c: Codecs, directory: Disk, overlay: map<Name, seq<byte>>, download: seq<byte>, f: Flushed, t: Trace) {
    && IsFlush(c, directory, overlay, download, f, t)
    && |t.files| < 0xFFFF_FF00
    && NoCollisions(c, t.contents)
    && PlainHeaders(c, t.contents)
    && (forall k :: k in f.disk ==> k < 1024)
    && (forall k :: k in directory ==> |directory[k]| < OFFSET_LIMIT)
  }

  /** Content i lies where its record says, and the record is one the index can hold. */
  lemma SpanLies(c: Codecs, directory: Disk, overlay: map<Name, seq<byte>>, download: seq<byte>, f: Flushed, t: Trace, i: nat)
    requires Preconditions(c, directory, overlay, download, f, t) && i < |t.contents|
    ensures var log := Run(c, DEFAULT_SEGMENT_SIZE, directory, Requests(c, t.contents)).log;
            && |log| == |t.contents|
            && log[i].req == RequestFor(c, t.contents[i])
            && Holds(c, f.disk, log[i])
            && log[i].entry.ArchiveIndex < 1024 && log[i].entry.ArchiveOffs < OFFSET_LIMIT
            && |t.contents[i]| < DEFAULT_SEGMENT_SIZE
  {
    hide Run, RequestFor, EncodingContent, InstallContent, NoCollisions, PlainHeaders, IsListing, EncodingEntries,
         Span, GapFree, Chained, AtEnd, Kept, IndexV1.IndexBytes, SortedCopy;
    RunIsLaid(c, DEFAULT_SEGMENT_SIZE, directory, Requests(c, t.contents));
    CompleteLog(c, DEFAULT_SEGMENT_SIZE, directory, Requests(c, t.contents));
    EachFits(c, DEFAULT_SEGMENT_SIZE, directory, Requests(c, t.contents), i);
    OffsetBelow(c, directory, Requests(c, t.contents), i);
    RequestBlte(c, t.contents[i]);
    SmallerThanStream(c, t.contents[i]);
  }

  lemma RequestBlte(c: Codecs, content: seq<byte>)
    ensures RequestFor(c, content).blte == RawStream(c, content)
    ensures RequestFor(c, content).ekey == EKeyFor(c, content)
  {
  }

  /** An index entry that fits its fields leads to its record's content. */
  lemma EntryReads(c: Codecs, o: ReadOptions, disk: Disk, r: Record, content: seq<byte>)
    requires Holds(c, disk, r) && r.req == RequestFor(c, content)
    requires r.entry.ArchiveIndex < 1024 && r.entry.ArchiveOffs < 0x4000_0000
    requires |content| < DEFAULT_SEGMENT_SIZE && PlainHeader(c, content)
    ensures ReadSpan(c, disk, IndexV1Reader.Stored(r.entry), o.keys, o.overcome) == Ok(content)
  {
    hide RequestFor, PlainHeader, Span, SpanContent, Reversed, EKeyFor;
    RequestBlte(c, content);
    IndexV1Reader.StoredExact(r.entry);
    SpanDecodes(c, SpanDecoder(o.keys, o.overcome), content, r.entry.ArchiveOffs);
    StoredSize(r.entry);
  }

  lemma StoredSize(e: EKeyEntry)
    ensures IndexV1Reader.Stored(e).EncodedSize == e.EncodedSize
    ensures EKeyOf(IndexV1Reader.Stored(e).EKey) == EKeyOf(e.EKey)
  {
  }

  /** The lookup map of a written index: each key leads to some entry with that key. */
  lemma KeysFound(c: Codecs, sorted: seq<EKeyEntry>, e: EKeyEntry)
    requires |sorted| < TWO32 && e in sorted
    ensures var m := KeyMap(c, IndexV1.IndexBytes(c, sorted, INDEX_OPTIONS));
            && EKeyOf(e.EKey) in m
            && exists d :: d in sorted && EKeyOf(d.EKey) == EKeyOf(e.EKey) && m[EKeyOf(e.EKey)] == IndexV1Reader.Stored(d)
  {
    hide IndexV1Reader.Parsed, IndexV1.IndexBytes, IndexV1Reader.Stored, Added, Concat, EKeyOf;
    IndexV1Reader.IndexRoundTrip(c, sorted, INDEX_OPTIONS, 0);
    var file := IndexV1Reader.Parsed(c, IndexV1.IndexBytes(c, sorted, INDEX_OPTIONS), 0).value;
    assert KeyedAll([file]) == [Keyed(file.Entries)];
    ConcatOne(Keyed(file.Entries));
    var ps := Keyed(file.Entries);
    var none: map<EKeyKey, EKeyEntry> := map[];
    AddedKeys(none, ps);
    var m := Added(none, ps);
    var i :| 0 <= i < |sorted| && sorted[i] == e;
    StoredSize(e);
    assert ps[i].0 == EKeyOf(e.EKey);
    var k := EKeyOf(e.EKey);
    var j :| 0 <= j < |ps| && ps[j] == (k, m[k]);
    StoredSize(sorted[j]);
    assert sorted[j] in sorted && m[k] == IndexV1Reader.Stored(sorted[j]);
  }

  /** Reading by encoded key gives the content that was written under it. */
  lemma KeyReads(c: Codecs, o: ReadOptions, directory: Disk, overlay: map<Name, seq<byte>>, download: seq<byte>, f: Flushed, t: Trace, i: nat)
    requires Preconditions(c, directory, overlay, download, f, t) && i < |t.contents|
    ensures Read(c, o, f.disk, KeyMap(c, f.index), EKeyFor(c, t.contents[i])) == Ok(t.contents[i])
  {
    hide Run, RequestFor, EncodingContent, InstallContent, IsListing, EncodingEntries, PlainHeader, EKeyFor, EKeyOf,
         IndexV1.IndexBytes, Holds, KeyMap, ReadSpan, Sorted, IndexV1Reader.Stored, Requests;
    var log := Run(c, DEFAULT_SEGMENT_SIZE, directory, Requests(c, t.contents)).log;
    SpanLies(c, directory, overlay, download, f, t, i);
    LogEntry(c, f.disk, log[i], t.contents[i]);
    SameSize(t.sortedIndex, EntriesOf(log));
    assert EntriesOf(log)[i] == log[i].entry;
    KeysFound(c, t.sortedIndex, log[i].entry);
    var k, m := EKeyOf(EKeyFor(c, t.contents[i])), KeyMap(c, f.index);
    var d :| d in t.sortedIndex && EKeyOf(d.EKey) == k && m[k] == IndexV1Reader.Stored(d);
    var j :| 0 <= j < |log| && EntriesOf(log)[j] == d;
    SpanLies(c, directory, overlay, download, f, t, j);
    LogEntry(c, f.disk, log[j], t.contents[j]);
    EntryReads(c, o, f.disk, log[j], t.contents[j]);
    assert SameShortKey(c, t.contents[i], t.contents[j]);
  }

  lemma LogEntry(c: Codecs, disk: Disk, r: Record, content: seq<byte>)
    requires Holds(c, disk, r) && r.req == RequestFor(c, content)
    ensures r.entry.EKey == EKeyFor(c, content)
  {
    hide Span;
    RequestBlte(c, content);
  }

  // ---- the manifests ----

  lemma ListedEntry(c: Codecs, contents: seq<seq<byte>>, i: nat)
    requires i < |contents|
    ensures EncodingEntries(c, contents)[i] == EncodingEntry(c, contents[i])
    ensures EncodingEntry(c, contents[i]).CKey == c.md5(contents[i])
    ensures EncodingEntry(c, contents[i]).EKeys == [EKeyFor(c, contents[i])]
  {
  }

  /** The listed contents are the first of all contents. */
  lemma ListedFirst(c: Codecs, directory: Disk, overlay: map<Name, seq<byte>>, download: seq<byte>, f: Flushed, t: Trace, i: nat)
    requires Preconditions(c, directory, overlay, download, f, t) && i < |t.files| + 2
    ensures Listed(c, t.files, download)[i] == t.contents[i] && |t.contents| == |t.files| + 3
    ensures i < |t.files| ==> t.contents[i] == t.files[i].data
    ensures t.contents[|t.files|] == InstallContent(c, t.files)
    ensures t.contents[|t.files| + 2] == EncodingContent(c, t.sortedEncoding)
  {
    hide Run, InstallContent, EncodingContent, IsListing, EncodingEntries, NoCollisions, PlainHeaders, IndexV1.IndexBytes;
  }

  /** Where the manifest lists an entry, it is that of some content. */
  lemma SortedEntry(c: Codecs, contents: seq<seq<byte>>, sorted: seq<Encoding.CKeyEntry>, k: nat) returns (i: nat)
    requires SortedCopy(sorted, EncodingEntries(c, contents), Encoding.LessByCKey()) && k < |sorted|
    ensures i < |contents| && sorted[k] == EncodingEntry(c, contents[i])
  {
    hide EncodingEntry, Sorted;
    SameSize(sorted, EncodingEntries(c, contents));
    assert sorted[k] in EncodingEntries(c, contents);
    i :| 0 <= i < |contents| && EncodingEntries(c, contents)[i] == sorted[k];
  }

  ghost predicate Distinguished(c: Codecs, contents: seq<seq<byte>>) {
    && (forall i :: 0 <= i < |contents| ==> |contents[i]| < DEFAULT_SEGMENT_SIZE)
    && (forall i, j :: 0 <= i < |contents| && 0 <= j < |contents| && c.md5(contents[i]) == c.md5(contents[j]) ==>
          contents[i] == contents[j])
  }

  lemma EncodingWellFormed(c: Codecs, contents: seq<seq<byte>>, sorted: seq<Encoding.CKeyEntry>)
    requires Distinguished(c, contents)
    requires SortedCopy(sorted, EncodingEntries(c, contents), Encoding.LessByCKey())
    ensures EncodingRoundTrip.KeysAgree(sorted) && EncodingReader.AllFits(sorted, 4096)
  {
    hide Sorted, RawStream;
    forall i, j | 0 <= i < |sorted| && 0 <= j < |sorted| && sorted[i].CKey == sorted[j].CKey
      ensures sorted[i] == sorted[j]
    {
      var a := SortedEntry(c, contents, sorted, i);
      var b := SortedEntry(c, contents, sorted, j);
    }
    forall i | 0 <= i < |sorted|
      ensures EncodingReader.Fits(sorted[i], 4096)
    {
      var a := SortedEntry(c, contents, sorted, i);
    }
  }

  /** The manifest read back knows the encoded key of every content it lists. */
  lemma EncodingKnows(c: Codecs, contents: seq<seq<byte>>, sorted: seq<Encoding.CKeyEntry>, i: nat)
    requires Distinguished(c, contents) && |contents| < TWO32 && i < |contents|
    requires SortedCopy(sorted, EncodingEntries(c, contents), Encoding.LessByCKey())
    ensures EncodingReader.Parsed(EncodingContent(c, sorted)).Ok?
    ensures EncodingReader.Parsed(EncodingContent(c, sorted)).value.Find(c.md5(contents[i]))
         == Some(EncodingEntry(c, contents[i]))
  {
    hide Sorted, Encoding.EncodingBytes, EncodingReader.Parsed, EncodingRoundTrip.KeysAgree, EncodingReader.AllFits,
         EncodingEntry, EKeyFor, Distinguished;
    EncodingWellFormed(c, contents, sorted);
    SameSize(sorted, EncodingEntries(c, contents));
    EncodingRoundTrip.EncodingComesBack(c, sorted, ENCODING_OPTIONS);
    ListedEntry(c, contents, i);
    assert EncodingEntries(c, contents)[i] in sorted;
  }

  lemma FlushEncodingKnows(c: Codecs, directory: Disk, overlay: map<Name, seq<byte>>, download: seq<byte>, f: Flushed, t: Trace, i: nat)
    requires Preconditions(c, directory, overlay, download, f, t) && i < |t.files| + 2 <= |t.contents|
    ensures EncodingReader.Parsed(EncodingContent(c, t.sortedEncoding)).Ok?
    ensures EncodingReader.Parsed(EncodingContent(c, t.sortedEncoding)).value.Find(c.md5(t.contents[i]))
         == Some(EncodingEntry(c, t.contents[i]))
  {
    hide Run, InstallContent, EncodingContent, IsListing, EncodingEntries, PlainHeaders, IndexV1.IndexBytes,
         EncodingReader.Parsed, EncodingEntry, SortedCopy;
    var contents := Listed(c, t.files, download);
    forall k | 0 <= k < |contents|
      ensures |contents[k]| < DEFAULT_SEGMENT_SIZE && contents[k] == t.contents[k]
    {
      ListedFirst(c, directory, overlay, download, f, t, k);
      SpanLies(c, directory, overlay, download, f, t, k);
    }
    EncodingKnows(c, contents, t.sortedEncoding, i);
  }

  /** Going from a listed content key through ENCODING to the bytes. */
  lemma ContentReads(c: Codecs, o: ReadOptions, directory: Disk, overlay: map<Name, seq<byte>>, download: seq<byte>, f: Flushed, t: Trace, i: nat)
    requires Preconditions(c, directory, overlay, download, f, t) && i < |t.files| + 2 <= |t.contents|
    ensures EncodingReader.Parsed(EncodingContent(c, t.sortedEncoding)).Ok?
    ensures var e := EncodingReader.Parsed(EncodingContent(c, t.sortedEncoding)).value.Find(c.md5(t.contents[i]));
            && e.Some? && |e.value.EKeys| > 0
            && Read(c, o, f.disk, KeyMap(c, f.index), e.value.EKeys[0]) == Ok(t.contents[i])
  {
    hide Preconditions, Read, KeyMap, EncodingReader.Parsed, EncodingContent, EKeyFor;
    FlushEncodingKnows(c, directory, overlay, download, f, t, i);
    ListedEntry(c, t.contents, i);
    KeyReads(c, o, directory, overlay, download, f, t, i);
  }

  /** Opening the flushed directory finds both manifests. */
  lemma StorageOpens(c: Codecs, o: ReadOptions, directory: Disk, overlay: map<Name, seq<byte>>, download: seq<byte>, f: Flushed, t: Trace)
    requires Preconditions(c, directory, overlay, download, f, t)
    requires forall n :: n in overlay ==> InstallReader.NulFree(n)
    ensures EncodingReader.Parsed(EncodingContent(c, t.sortedEncoding)).Ok?
    ensures InstallReader.Parsed(o.hash, InstallContent(c, t.files)).Ok?
    ensures OpenStorage(c, o, f) == Ok(Opened(f.disk, KeyMap(c, f.index),
              EncodingReader.Parsed(EncodingContent(c, t.sortedEncoding)).value,
              InstallReader.Parsed(o.hash, InstallContent(c, t.files)).value))
  {
    hide Preconditions, Read, KeyMap, EncodingReader.Parsed, InstallReader.Parsed, EncodingContent, InstallContent, EKeyFor,
         InstallReader.NulFree, FilesListed, Listed;
    var n := |t.files|;
    ListedFirst(c, directory, overlay, download, f, t, n);
    FilesAreListed(c, directory, overlay, download, f, t);
    RootParses(c, o, overlay, t);
    KeysOfRecords(c, directory, overlay, download, f, t);
    ContentReads(c, o, directory, overlay, download, f, t, n);
    KeyReads(c, o, directory, overlay, download, f, t, n + 2);
  }

  lemma KeysOfRecords(c: Codecs, directory: Disk, overlay: map<Name, seq<byte>>, download: seq<byte>, f: Flushed, t: Trace)
    requires Preconditions(c, directory, overlay, download, f, t)
    ensures f.encoding.ekey == EKeyFor(c, EncodingContent(c, t.sortedEncoding))
    ensures f.install.ckey == c.md5(InstallContent(c, t.files))
  {
    hide Run, InstallContent, EncodingContent, IsListing, EncodingEntries, NoCollisions, PlainHeaders, IndexV1.IndexBytes;
  }

  ghost predicate FilesListed(overlay: map<Name, seq<byte>>, t: Trace) {
    IsListing(t.files, overlay) && |t.files| < 0xFFFF_FF00
  }

  lemma FilesAreListed(c: Codecs, directory: Disk, overlay: map<Name, seq<byte>>, download: seq<byte>, f: Flushed, t: Trace)
    requires Preconditions(c, directory, overlay, download, f, t)
    ensures FilesListed(overlay, t)
  {
    hide Run, InstallContent, EncodingContent, IsListing, EncodingEntries, NoCollisions, PlainHeaders, IndexV1.IndexBytes;
  }

  lemma FileOfName(overlay: map<Name, seq<byte>>, t: Trace, name: Name) returns (i: nat)
    requires FilesListed(overlay, t) && name in overlay
    ensures i < |t.files| && t.files[i] == FileEntry(name, overlay[name])
  {
    hide Sorted;
    assert FileEntry(name, overlay[name]) in t.files;
    i :| 0 <= i < |t.files| && t.files[i] == FileEntry(name, overlay[name]);
  }

  lemma FilesWritable(c: Codecs, overlay: map<Name, seq<byte>>, t: Trace)
    requires FilesListed(overlay, t)
    requires forall n :: n in overlay ==> InstallReader.NulFree(n)
    ensures InstallReader.Writable(InstallEntries(c, t.files), [])
    ensures var es := InstallEntries(c, t.files);
            forall a, b :: 0 <= a < b < |es| ==> es[a].Name != es[b].Name
  {
    hide Sorted, InstallReader.NulFree;
  }

  lemma RootParses(c: Codecs, o: ReadOptions, overlay: map<Name, seq<byte>>, t: Trace)
    requires FilesListed(overlay, t)
    requires forall n :: n in overlay ==> InstallReader.NulFree(n)
    ensures InstallReader.Parsed(o.hash, InstallContent(c, t.files)).Ok?
  {
    hide InstallReader.Parsed, Install.InstallBytes, InstallReader.Writable, IsListing, InstallReader.NulFree,
         InstallReader.HandlerRead;
    FilesWritable(c, overlay, t);
    InstallReader.ManifestBack(o.hash, InstallEntries(c, t.files), [], 0);
  }

  lemma RootKnows(c: Codecs, o: ReadOptions, overlay: map<Name, seq<byte>>, t: Trace, i: nat)
    requires FilesListed(overlay, t) && i < |t.files|
    requires forall n :: n in overlay ==> InstallReader.NulFree(n)
    ensures InstallReader.Parsed(o.hash, InstallContent(c, t.files)).Ok?
    ensures var root := InstallReader.Parsed(o.hash, InstallContent(c, t.files)).value;
            var e := InstallReader.LookupByName(o.hash, root, t.files[i].name);
            e.Some? && e.value.CKey == c.md5(t.files[i].data)
  {
    hide InstallReader.Parsed, Install.InstallBytes, InstallReader.Writable, IsListing, InstallReader.NulFree,
         InstallReader.LookupByName;
    FilesWritable(c, overlay, t);
    var es := InstallEntries(c, t.files);
    InstallReader.WrittenNameFound(o.hash, es, [], 0, i);
    assert es[i].CKey[..16] == es[i].CKey;
    assert InstallReader.PaddedKey(es[i].CKey) == es[i].CKey;
  }

  /**
   * Whatever the overlay, once it is flushed into a directory whose segments are below 1 GiB the storage
   * opens and every name gives exactly the bytes that were added under it.
   */
  lemma FlushReadsBack(c: Codecs, o: ReadOptions, directory: Disk, overlay: map<Name, seq<byte>>, download: seq<byte>, f: Flushed, t: Trace, name: Name)
    requires Preconditions(c, directory, overlay, download, f, t)
    requires forall n :: n in overlay ==> InstallReader.NulFree(n)
    requires name in overlay
    ensures OpenStorage(c, o, f).Ok?
    ensures OpenFile(c, o, OpenStorage(c, o, f).value, name) == Ok(overlay[name])
  {
    hide Preconditions, Read, KeyMap, EncodingReader.Parsed, InstallReader.Parsed, EncodingContent, InstallContent,
         EKeyFor, OpenStorage, FilesListed, InstallReader.NulFree, InstallReader.LookupByName, Listed;
    StorageOpens(c, o, directory, overlay, download, f, t);
    FilesAreListed(c, directory, overlay, download, f, t);
    var i := FileOfName(overlay, t, name);
    ListedFirst(c, directory, overlay, download, f, t, i);
    RootKnows(c, o, overlay, t, i);
    ContentReads(c, o, directory, overlay, download, f, t, i);
  }

  /** Flush into a directory, open it, read one name. */
  method FlushAndOpenFile(c: Codecs, o: ReadOptions, directory: Disk, overlay: map<Name, seq<byte>>, download: seq<byte>, name: Name)
      returns (r: Result<seq<byte>>, ghost f: Option<Flushed>, ghost t: Trace)
    requires name in overlay && forall n :: n in overlay ==> InstallReader.NulFree(n)
    ensures f.Some? && Preconditions(c, directory, overlay, download, f.value, t) ==> r == Ok(overlay[name])
    ensures f.None? ==> r == Err(NotSupported) && |t.contents| > 0 && TooLarge(c, t.contents[|t.contents| - 1])
  {
    hide Preconditions, OpenStorage, OpenFile, InstallReader.NulFree, IsFlush, TooLarge;
    var flushed;
    f := None;
    flushed, t := Flush.Flush(c, directory, overlay, download);
    if flushed.Err? {
      return Err(flushed.error), f, t;
    }
    f := Some(flushed.value);
    if Preconditions(c, directory, overlay, download, flushed.value, t) {
      FlushReadsBack(c, o, directory, overlay, download, flushed.value, t, name);
    }
    var storage := OpenStorage(c, o, flushed.value);
    if storage.Err? {
      return Err(storage.error), f, t;
    }
    r := OpenFile(c, o, storage.value, name);
  }

  // ---- larger segments ----

  /** A first segment that held 1 GiB or more: the index names another place, in a later segment. */
  lemma LocationLost(c: Codecs, directory: Disk, reqs: seq<Request>)
    requires |reqs| < TWO32 - 1 && SmallSegments(directory) && SizeIn(directory, 0) >= OFFSET_LIMIT
    requires |Run(c, DEFAULT_SEGMENT_SIZE, directory, reqs).log| > 0
    ensures var e := Run(c, DEFAULT_SEGMENT_SIZE, directory, reqs).log[0].entry;
            && e.ArchiveIndex == 0 && e.ArchiveOffs == SizeIn(directory, 0)
            && IndexV1Reader.Stored(e).ArchiveIndex == SizeIn(directory, 0) / OFFSET_LIMIT > 0
            && IndexV1Reader.Stored(e).ArchiveOffs == SizeIn(directory, 0) % OFFSET_LIMIT
  {
    hide GapFree, Run, Span, Kept, AtEnd;
    RunIsLaid(c, DEFAULT_SEGMENT_SIZE, directory, reqs);
  }

  /** A full first segment and a second one that starts with zeros: the first span cannot be read by its index entry. */
  lemma FullSegmentUnreadable(c: Codecs, o: ReadOptions, directory: Disk, reqs: seq<Request>)
    requires |reqs| < TWO32 - 1 && SmallSegments(directory)
    requires 0 in directory && |directory[0]| == OFFSET_LIMIT
    requires 1 in directory && |directory[1]| >= 34 && directory[1][..34] == Zeros(34)
    requires |Run(c, DEFAULT_SEGMENT_SIZE, directory, reqs).log| > 0
    ensures var run := Run(c, DEFAULT_SEGMENT_SIZE, directory, reqs);
            ReadSpan(c, run.store.disk, IndexV1Reader.Stored(run.log[0].entry), o.keys, o.overcome).Err?
  {
    hide GapFree, Run, Span, AtEnd, SpanContent, Zeros, IndexV1Reader.Stored;
    RunIsLaid(c, DEFAULT_SEGMENT_SIZE, directory, reqs);
    LocationLost(c, directory, reqs);
    var run := Run(c, DEFAULT_SEGMENT_SIZE, directory, reqs);
    var e := IndexV1Reader.Stored(run.log[0].entry);
    var file := run.store.disk[1];
    assert directory[1] <= file && file[..34] == directory[1][..34];
    if ENCODED_HEADER_SIZE <= e.EncodedSize <= |file| {
      ZerosRefused(c, SpanDecoder(o.keys, o.overcome), file, e.EncodedSize);
    }
  }

  lemma ZerosRefused(c: Codecs, d: FrameDecoder, file: seq<byte>, n: nat)
    requires |file| >= 34 && file[..34] == Zeros(34) && ENCODED_HEADER_SIZE <= n <= |file|
    ensures SpanContent(c, d, At(file, 0, n)) == Err(BadFormat)
  {
    hide DecodeBody, LE32;
    var span := At(file, 0, n);
    ZeroIsNoSignature();
    ZerosAt(file, n, 0);
    if n >= ENCODED_HEADER_SIZE + 4 {
      ZerosAt(file, n, ENCODED_HEADER_SIZE);
    }
  }

  lemma ZerosAt(file: seq<byte>, n: nat, off: nat)
    requires off + 4 <= n <= |file| && off + 4 <= 34 <= |file| && file[..34] == Zeros(34)
    ensures At(At(file, 0, n), off, 4) == [0, 0, 0, 0]
  {
    SubSlice(file, 0, n, off, off + 4);
    SubSlice(file, 0, 34, off, off + 4);
    assert Zeros(34)[off..off + 4] == [0, 0, 0, 0];
  }

  lemma ZeroIsNoSignature()
    ensures LE32([0, 0, 0, 0]) != BLTE_SIGNATURE
  {
    hide LE32;
    assert LE(0, 4) == [0, 0, 0, 0];
    FieldLE32(0);
  }
}
