// Flush of pkg/casc/flush.go: every file of the overlay becomes a span, then
// the INSTALL, DOWNLOAD and ENCODING manifests, then one V1 index of all spans.

module Flush {
  import opened Words
  import opened Wrappers
  import opened Seqs
  import opened Bytes
  import opened Sorting
  import opened Environment
  import opened Blte
  import BlteRoundTrip
  import opened BlteReader
  import opened Archive
  import opened Allocation
  import IndexV1
  import Install
  import Encoding

  type Name = seq<byte>

  datatype FileEntry = FileEntry(name: Name, data: seq<byte>)

  datatype SpanRecord = SpanRecord(ckey: Key, ekey: Key, contentSize: nat)

  /** What is left on disk, and the key pairs that go to the build config. */
  datatype Flushed = Flushed(disk: Disk, index: seq<byte>, encoding: SpanRecord, install: SpanRecord)

  /** The choices a run made: file order, the contents it wrote in turn, the two sorted lists. */
  datatype Trace = Trace(
    files: seq<FileEntry>,
    contents: seq<seq<byte>>,
    sortedEncoding: seq<Encoding.CKeyEntry>,
    sortedIndex: seq<EKeyEntry>)

  const RAW_OPTIONS: EncodeOptions := EncodeOptions(RAW, 0, false)
  const ENCODING_OPTIONS: Encoding.WriteOptions := Encoding.WriteOptions(0, 0, false, [])
  const INDEX_OPTIONS: IndexV1.WriteOptions := IndexV1.WriteOptions(0, DEFAULT_SEGMENT_SIZE, 0)

  // ---- what each step produces ----

  /** The raw stream of a content. */
  function RawStream(c: Codecs, content: seq<byte>): seq<byte> {
    BlteRoundTrip.RawEncodes(c, Chunks(content, FrameSizeOf(RAW_OPTIONS)));
    EncodedBytes(c, content, RAW_OPTIONS).value
  }

  function RequestFor(c: Codecs, content: seq<byte>): Request {
    Request(RawStream(c, content), c.md5(RawStream(c, content)))
  }

  function Requests(c: Codecs, contents: seq<seq<byte>>): (qs: seq<Request>)
    ensures |qs| == |contents|
  {
    seq(|contents|, i requires 0 <= i < |contents| => RequestFor(c, contents[i]))
  }

  function RecordFor(c: Codecs, content: seq<byte>): SpanRecord {
    SpanRecord(c.md5(content), c.md5(RawStream(c, content)), |content|)
  }

  function EncodingEntry(c: Codecs, content: seq<byte>): Encoding.CKeyEntry {
    Encoding.CKeyEntry(|content|, c.md5(content), [c.md5(RawStream(c, content))])
  }

  function EncodingEntries(c: Codecs, contents: seq<seq<byte>>): (es: seq<Encoding.CKeyEntry>)
    ensures |es| == |contents|
  {
    seq(|contents|, i requires 0 <= i < |contents| => EncodingEntry(c, contents[i]))
  }

  predicate TooLarge(c: Codecs, content: seq<byte>) {
    ENCODED_HEADER_SIZE + |RawStream(c, content)| > DEFAULT_SEGMENT_SIZE
  }

  function DataOf(files: seq<FileEntry>): (ds: seq<seq<byte>>)
    ensures |ds| == |files|
  {
    seq(|files|, i requires 0 <= i < |files| => files[i].data)
  }

  function InstallEntry(c: Codecs, f: FileEntry): Install.Entry {
    Install.Entry(f.name, c.md5(f.data), Wrap(|f.data|))
  }

  function InstallEntries(c: Codecs, files: seq<FileEntry>): (es: seq<Install.Entry>)
    ensures |es| == |files|
  {
    seq(|files|, i requires 0 <= i < |files| => InstallEntry(c, files[i]))
  }

  function InstallContent(c: Codecs, files: seq<FileEntry>): seq<byte> {
    Install.InstallBytes(InstallEntries(c, files), [], 0)
  }

  ghost function EncodingContent(c: Codecs, sorted: seq<Encoding.CKeyEntry>): seq<byte> {
    Encoding.EncodingBytes(c, sorted, ENCODING_OPTIONS)
  }

  /** The contents the ENCODING manifest lists. */
  function Listed(c: Codecs, files: seq<FileEntry>, download: seq<byte>): seq<seq<byte>> {
    DataOf(files) + [InstallContent(c, files)] + [download]
  }

  /** Every file of the overlay once, in name order. */
  ghost predicate IsListing(files: seq<FileEntry>, overlay: map<Name, seq<byte>>) {
    && Sorted(files, LessByName())
    && (forall i :: 0 <= i < |files| ==> files[i].name in overlay && overlay[files[i].name] == files[i].data)
    && (forall n :: n in overlay ==> FileEntry(n, overlay[n]) in files)
    && (forall i, j :: 0 <= i < j < |files| ==> files[i].name != files[j].name)
  }

  function LessByName(): (FileEntry, FileEntry) -> bool {
    (x: FileEntry, y: FileEntry) => LexLess(x.name, y.name)
  }

  function EntriesOf(log: seq<Record>): (es: seq<EKeyEntry>)
    ensures |es| == |log|
  {
    seq(|log|, i requires 0 <= i < |log| => log[i].entry)
  }

  /** All of a successful run. */
  ghost predicate IsFlush(c: Codecs, directory: Disk, overlay: map<Name, seq<byte>>, download: seq<byte>,
      f: Flushed, t: Trace)
  {
    var o := Run(c, DEFAULT_SEGMENT_SIZE, directory, Requests(c, t.contents));
    && IsListing(t.files, overlay)
    && SortedCopy(t.sortedEncoding, EncodingEntries(c, Listed(c, t.files, download)), Encoding.LessByCKey())
    && t.contents == Listed(c, t.files, download) + [EncodingContent(c, t.sortedEncoding)]
    && |o.log| == |t.contents|
    && SortedCopy(t.sortedIndex, EntriesOf(o.log), IndexV1.LessByKey())
    && f == Flushed(o.store.disk, IndexV1.IndexBytes(c, t.sortedIndex, INDEX_OPTIONS),
                    RecordFor(c, EncodingContent(c, t.sortedEncoding)), RecordFor(c, InstallContent(c, t.files)))
  }

  // ---- the run ----

  /** The overlay in some order: ranging over a map. */
  method Snapshot(overlay: map<Name, seq<byte>>) returns (files: seq<FileEntry>)
    ensures forall i :: 0 <= i < |files| ==> files[i].name in overlay && overlay[files[i].name] == files[i].data
    ensures forall n :: n in overlay ==> FileEntry(n, overlay[n]) in files
    ensures forall i, j :: 0 <= i < j < |files| ==> files[i].name != files[j].name
  {
    files := [];
    var left := overlay.Keys;
    while left != {}
      invariant left <= overlay.Keys
      invariant forall i :: 0 <= i < |files| ==>
        files[i].name in overlay && files[i].name !in left && overlay[files[i].name] == files[i].data
      invariant forall n :: n in overlay && n !in left ==> FileEntry(n, overlay[n]) in files
      invariant forall i, j :: 0 <= i < j < |files| ==> files[i].name != files[j].name
      decreases |left|
    {
      var k :| k in left;
      files := files + [FileEntry(k, overlay[k])];
      left := left - {k};
    }
  }

  method ListFiles(overlay: map<Name, seq<byte>>) returns (files: seq<FileEntry>)
    ensures IsListing(files, overlay)
  {
    hide LexLess;
    var any := Snapshot(overlay);
    LexIsOrder(LessByName(), (f: FileEntry) => f.name);
    files := SortSlice(any, LessByName());
    SameSize(files, any);
    SameFiles(any, files, overlay);
  }

  lemma SameFiles(any: seq<FileEntry>, files: seq<FileEntry>, overlay: map<Name, seq<byte>>)
    requires multiset(files) == multiset(any)
    requires forall i :: 0 <= i < |any| ==> any[i].name in overlay && overlay[any[i].name] == any[i].data
    requires forall i, j :: 0 <= i < j < |any| ==> any[i].name != any[j].name
    ensures forall i :: 0 <= i < |files| ==> files[i].name in overlay && overlay[files[i].name] == files[i].data
    ensures forall i, j :: 0 <= i < j < |files| ==> files[i].name != files[j].name
  {
    SameSize(files, any);
    forall i | 0 <= i < |files|
      ensures files[i].name in overlay && overlay[files[i].name] == files[i].data
    {
      assert files[i] in any;
    }
    forall i, j | 0 <= i < j < |files|
      ensures files[i].name != files[j].name
    {
      OnceThere(any, files[i]);
      assert multiset(files)[files[i]] == multiset(any)[files[i]];
      if files[i].name == files[j].name {
        TwiceThere(files, i, j);
      }
    }
  }

  lemma TwiceThere(s: seq<FileEntry>, i: nat, j: nat)
    requires i < j < |s| && s[i] == s[j]
    ensures multiset(s)[s[i]] >= 2
  {
    assert s == s[..j] + [s[j]] + s[j + 1..];
    assert s[i] in s[..j];
    assert multiset(s) == multiset(s[..j]) + multiset{s[j]} + multiset(s[j + 1..]);
  }

  lemma {:induction false} OnceThere(s: seq<FileEntry>, x: FileEntry)
    requires forall i, j :: 0 <= i < j < |s| ==> s[i].name != s[j].name
    ensures multiset(s)[x] <= 1
  {
    if |s| > 0 {
      var n := |s| - 1;
      OnceThere(s[..n], x);
      assert s == s[..n] + [s[n]];
      if s[n] == x {
        assert x !in s[..n];
      }
    }
  }

  /** The writer has written these contents, all of them, into a new directory. */
  ghost predicate HasWritten(c: Codecs, directory: Disk, done: seq<seq<byte>>, o: Outcome) {
    o == Run(c, DEFAULT_SEGMENT_SIZE, directory, Requests(c, done)) && |o.log| == |done| && !o.store.closed
  }

  /** The writeSpan closure: encode raw, write, and note where it went. */
  method WriteContent(c: Codecs, w: Writer, content: seq<byte>, ghost directory: Disk, ghost done: seq<seq<byte>>,
      ghost o: Outcome) returns (r: Result<(SpanRecord, EKeyEntry)>, ghost o': Outcome)
    requires w.Valid() && w.segmentSize == DEFAULT_SEGMENT_SIZE && w.State() == o.store
    requires HasWritten(c, directory, done, o)
    modifies w
    ensures w.Valid() && w.State() == o'.store
    ensures r.Err? ==> r == Err(NotSupported) && TooLarge(c, content) && o' == o
    ensures r.Ok? ==>
      && HasWritten(c, directory, done + [content], o')
      && r.value.0 == RecordFor(c, content)
      && o'.log == o.log + [Record(RequestFor(c, content), r.value.1)]
      && o' == After(c, DEFAULT_SEGMENT_SIZE, o, RequestFor(c, content))
  {
    hide EncodedBytes, Run, Written, EntryFor;
    BlteRoundTrip.RawEncodes(c, Chunks(content, FrameSizeOf(RAW_OPTIONS)));
    var encoded := Encode(c, content, RAW_OPTIONS);
    StreamHasHeader(c, content);
    var blte, ckey, ekey := encoded.value.blte, encoded.value.ckey, encoded.value.ekey;
    var entry := w.WriteSpan(c, blte, ekey);
    RunStep(c, directory, done, content);
    StaysOpen(c, o.store, blte, ekey);
    o' := After(c, DEFAULT_SEGMENT_SIZE, o, RequestFor(c, content));
    if entry.Err? {
      return Err(entry.error), o';
    }
    r := Ok((SpanRecord(ckey, ekey, |content|), entry.value));
  }

  lemma StreamHasHeader(c: Codecs, content: seq<byte>)
    ensures EncodedBytes(c, content, RAW_OPTIONS) == Ok(RawStream(c, content))
    ensures |RawStream(c, content)| >= 8
  {
    hide Chunks, EncodeFrames, Concat;
    BlteRoundTrip.RawEncodes(c, Chunks(content, FrameSizeOf(RAW_OPTIONS)));
  }

  lemma RunStep(c: Codecs, directory: Disk, done: seq<seq<byte>>, content: seq<byte>)
    ensures Run(c, DEFAULT_SEGMENT_SIZE, directory, Requests(c, done + [content]))
         == After(c, DEFAULT_SEGMENT_SIZE, Run(c, DEFAULT_SEGMENT_SIZE, directory, Requests(c, done)), RequestFor(c, content))
  {
    hide After;
    var qs := Requests(c, done + [content]);
    assert qs[..|qs| - 1] == Requests(c, done);
  }

  lemma StaysOpen(c: Codecs, s: Store, blte: seq<byte>, ekey: Key)
    ensures Written(c, s, blte, ekey, DEFAULT_SEGMENT_SIZE).closed == s.closed
  {
    hide Span;
  }

  /** The user files, each a span, an ENCODING entry and an INSTALL entry. */
  method WriteFiles(c: Codecs, w: Writer, files: seq<FileEntry>, ghost directory: Disk)
      returns (r: Result<(seq<EKeyEntry>, seq<Encoding.CKeyEntry>, seq<Install.Entry>)>, ghost o: Outcome, ghost tried: seq<seq<byte>>)
    requires w.Valid() && w.segmentSize == DEFAULT_SEGMENT_SIZE && w.State() == NewStore(directory)
    modifies w
    ensures w.Valid() && w.State() == o.store
    ensures r.Err? ==> r == Err(NotSupported) && |tried| > 0 && TooLarge(c, tried[|tried| - 1])
    ensures r.Ok? ==>
      && tried == DataOf(files) && HasWritten(c, directory, tried, o)
      && r == Ok((EntriesOf(o.log), EncodingEntries(c, tried), InstallEntries(c, files)))
  {
    hide Run, TooLarge, RequestFor, EncodingEntry, InstallEntry, HasWritten, RecordFor, After;
    var idxEntries: seq<EKeyEntry> := [];
    var encEntries: seq<Encoding.CKeyEntry> := [];
    var installEntries: seq<Install.Entry> := [];
    tried := [];
    o := Outcome(NewStore(directory), []);
    RunOfNothing(c, directory);
    for i := 0 to |files|
      invariant w.Valid() && w.State() == o.store
      invariant tried == DataOf(files[..i]) && HasWritten(c, directory, tried, o)
      invariant idxEntries == EntriesOf(o.log)
      invariant encEntries == EncodingEntries(c, tried)
      invariant installEntries == InstallEntries(c, files[..i])
    {
      ghost var next;
      var rec;
      rec, next := WriteContent(c, w, files[i].data, directory, tried, o);
      tried := tried + [files[i].data];
      if rec.Err? {
        o := next;
        return Err(rec.error), o, tried;
      }
      idxEntries := idxEntries + [rec.value.1];
      encEntries := encEntries + [RecordEntry(c, files[i].data, rec.value.0)];
      FileSize(c, files[i].data, o, next);
      if rec.value.0.contentSize <= 0xFFFF_FFFF {
        installEntries := installEntries + [RecordFile(c, files[i], rec.value.0)];
      }
      o := next;
    }
    assert files[..|files|] == files;
    r := Ok((idxEntries, encEntries, installEntries));
  }

  lemma RunOfNothing(c: Codecs, directory: Disk)
    ensures HasWritten(c, directory, [], Outcome(NewStore(directory), []))
  {
  }

  function RecordEntry(c: Codecs, content: seq<byte>, rec: SpanRecord): (e: Encoding.CKeyEntry)
    requires rec == RecordFor(c, content)
    ensures e == EncodingEntry(c, content)
  {
    Encoding.CKeyEntry(rec.contentSize, rec.ckey, [rec.ekey])
  }

  function RecordFile(c: Codecs, f: FileEntry, rec: SpanRecord): (e: Install.Entry)
    requires rec == RecordFor(c, f.data) && rec.contentSize <= 0xFFFF_FFFF
    ensures e == InstallEntry(c, f)
  {
    Install.Entry(f.name, rec.ckey, rec.contentSize)
  }

  /** A content that was written is smaller than a segment. */
  lemma FileSize(c: Codecs, content: seq<byte>, o: Outcome, o': Outcome)
    requires o' == After(c, DEFAULT_SEGMENT_SIZE, o, RequestFor(c, content)) && o'.log != o.log
    ensures |content| < DEFAULT_SEGMENT_SIZE && RecordFor(c, content).contentSize == |content|
  {
    SmallerThanStream(c, content);
  }

  lemma SmallerThanStream(c: Codecs, content: seq<byte>)
    ensures |content| < |RawStream(c, content)|
  {
    hide Chunks, EncodeFrames, Concat, TableEntries, FixedHeader, EncodeFrame;
    var chunks := Chunks(content, FrameSizeOf(RAW_OPTIONS));
    BlteRoundTrip.RawEncodes(c, chunks);
    var bodies := EncodeFrames(c, RAW, chunks).value;
    BlteRoundTrip.EncodedEach(c, RAW, chunks);
    BlteRoundTrip.ChunksPartition(content, FrameSizeOf(RAW_OPTIONS));
    RawBodies(c, chunks, bodies);
  }

  lemma {:induction false} RawBodies(c: Codecs, chunks: seq<seq<byte>>, bodies: seq<seq<byte>>)
    requires |chunks| == |bodies|
    requires forall i :: 0 <= i < |chunks| ==> EncodeFrame(c, RAW, chunks[i]) == Ok(bodies[i])
    ensures |Concat(chunks)| <= |Concat(bodies)|
  {
    if |chunks| > 0 {
      RawBodies(c, chunks[..|chunks| - 1], bodies[..|chunks| - 1]);
    }
  }

  lemma AllWritten(c: Codecs, directory: Disk, done: seq<seq<byte>>, o: Outcome)
    requires HasWritten(c, directory, done, o)
    ensures o == Run(c, DEFAULT_SEGMENT_SIZE, directory, Requests(c, done)) && |o.log| == |done|
  {
    hide Run, Requests;
  }

  /** One more content with its index and ENCODING entry. */
  method AddContent(c: Codecs, w: Writer, content: seq<byte>, idx: seq<EKeyEntry>, enc: seq<Encoding.CKeyEntry>,
      ghost directory: Disk, ghost tried: seq<seq<byte>>, ghost o: Outcome)
      returns (r: Result<SpanRecord>, idx': seq<EKeyEntry>, enc': seq<Encoding.CKeyEntry>, ghost o': Outcome)
    requires w.Valid() && w.segmentSize == DEFAULT_SEGMENT_SIZE && w.State() == o.store
    requires HasWritten(c, directory, tried, o)
    requires idx == EntriesOf(o.log) && enc == EncodingEntries(c, tried)
    modifies w
    ensures w.Valid() && w.State() == o'.store
    ensures r.Err? ==> r == Err(NotSupported) && TooLarge(c, content)
    ensures r.Ok? ==>
      && HasWritten(c, directory, tried + [content], o') && r == Ok(RecordFor(c, content))
      && idx' == EntriesOf(o'.log) && enc' == EncodingEntries(c, tried + [content])
  {
    hide Run, TooLarge, RequestFor, EncodingEntry, HasWritten, RecordFor, After;
    var rec;
    rec, o' := WriteContent(c, w, content, directory, tried, o);
    idx', enc' := idx, enc;
    if rec.Err? {
      return Err(rec.error), idx', enc', o';
    }
    idx' := idx + [rec.value.1];
    enc' := enc + [RecordEntry(c, content, rec.value.0)];
    r := Ok(rec.value.0);
  }

  /**
   * Flush: succeeds with everything written as IsFlush says, or stops at the first content whose
   * span is larger than a segment.
   */
  method Flush(c: Codecs, directory: Disk, overlay: map<Name, seq<byte>>, download: seq<byte>)
      returns (r: Result<Flushed>, ghost t: Trace)
    ensures r.Ok? ==> IsFlush(c, directory, overlay, download, r.value, t)
    ensures r.Err? ==> r == Err(NotSupported) && |t.contents| > 0 && TooLarge(c, t.contents[|t.contents| - 1])
  {
    hide Run, TooLarge, RecordFor, EncodingEntries, InstallEntries, HasWritten, After, Requests, Encoding.EncodingBytes,
         Install.InstallBytes, IsListing, EntriesOf, DataOf, IndexV1.IndexBytes;
    var files := ListFiles(overlay);
    var w := new Writer(directory, DEFAULT_SEGMENT_SIZE);
    var written;
    ghost var o, tried;
    written, o, tried := WriteFiles(c, w, files, directory);
    t := Trace(files, tried, [], []);
    if written.Err? {
      return Err(written.error), t;
    }
    var idxEntries, encEntries, installEntries := written.value.0, written.value.1, written.value.2;

    var installBytes := Install.Encode(installEntries, [], 0);
    var installRec;
    installRec, idxEntries, encEntries, o :=
      AddContent(c, w, installBytes.value, idxEntries, encEntries, directory, tried, o);
    tried := tried + [installBytes.value];
    t := t.(contents := tried);
    if installRec.Err? {
      return Err(installRec.error), t;
    }

    var dlRec;
    dlRec, idxEntries, encEntries, o := AddContent(c, w, download, idxEntries, encEntries, directory, tried, o);
    tried := tried + [download];
    t := t.(contents := tried);
    if dlRec.Err? {
      return Err(dlRec.error), t;
    }

    var encBytes;
    ghost var sortedEncoding;
    encBytes, sortedEncoding := Encoding.Encode(c, encEntries, ENCODING_OPTIONS);
    var encRec;
    encRec, idxEntries, encEntries, o :=
      AddContent(c, w, encBytes.value, idxEntries, encEntries, directory, tried, o);
    tried := tried + [encBytes.value];
    t := t.(contents := tried, sortedEncoding := sortedEncoding);
    if encRec.Err? {
      return Err(encRec.error), t;
    }
    w.Close();

    var idxBytes;
    ghost var sortedIndex;
    idxBytes, sortedIndex := IndexV1.EncodeV1(c, idxEntries, INDEX_OPTIONS);
    t := t.(sortedIndex := sortedIndex);
    r := Ok(Flushed(w.disk, idxBytes, encRec.value, installRec.value));
    AllWritten(c, directory, tried, o);
  }
}
