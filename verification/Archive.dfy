// The segment allocator of internal/archive/writer.go and the span reader of
// internal/archive/archive.go. A data directory is a map from segment numbers
// to file contents.

module Archive {
  import opened Words
  import opened Wrappers
  import opened Bytes
  import opened Environment
  import opened BlteReader
  import opened EncodedHeaders

  const DEFAULT_SEGMENT_SIZE: nat := 0x4000_0000

  type Disk = map<u32, seq<byte>>

  /** Where a span lies: segment, offset of its 30-byte header, size with the header. */
  datatype EKeyEntry = EKeyEntry(EKey: Key, ArchiveIndex: u32, ArchiveOffs: u32, EncodedSize: u32)

  /** The writer's fields and the directory it writes to. */
  datatype Store = Store(disk: Disk, segmentIndex: u32, segmentOffs: nat, isOpen: bool, closed: bool)

  /** A new writer on a directory. */
  function NewStore(directory: Disk): Store { Store(directory, 0, 0, false, false) }

  /** The bytes one span occupies. */
  function Span(c: Codecs, blte: seq<byte>, ekey: Key, offset: nat): (s: seq<byte>)
    ensures |s| == ENCODED_HEADER_SIZE + |blte|
  {
    EncodedHeader(c, ekey, Wrap(|blte|), offset) + blte
  }

  /** The state with a segment open in which total bytes are to be written. */
  function Placed(s: Store, total: nat, segmentSize: nat): Store {
    var s := if s.isOpen && s.segmentOffs + total > segmentSize
             then s.(segmentIndex := Wrap(s.segmentIndex + 1), segmentOffs := 0, isOpen := false) else s;
    if s.isOpen then s
    else
      var file := if s.segmentIndex in s.disk then s.disk[s.segmentIndex] else [];
      s.(disk := s.disk[s.segmentIndex := file], segmentOffs := |file|, isOpen := true)
  }

  function Refusal(s: Store, blte: seq<byte>, segmentSize: nat): Option<Error> {
    if s.closed then Some(InvalidHandle)
    else if |blte| < 8 then Some(BadFormat)
    else if ENCODED_HEADER_SIZE + |blte| > segmentSize then Some(NotSupported)
    else None
  }

  function Written(c: Codecs, s: Store, blte: seq<byte>, ekey: Key, segmentSize: nat): Store {
    var p := Placed(s, ENCODED_HEADER_SIZE + |blte|, segmentSize);
    var file := if p.segmentIndex in p.disk then p.disk[p.segmentIndex] else [];
    p.(disk := p.disk[p.segmentIndex := file + Span(c, blte, ekey, p.segmentOffs)],
       segmentOffs := p.segmentOffs + ENCODED_HEADER_SIZE + |blte|)
  }

  function EntryFor(s: Store, blte: seq<byte>, ekey: Key, segmentSize: nat): EKeyEntry {
    var total := ENCODED_HEADER_SIZE + |blte|;
    var p := Placed(s, total, segmentSize);
    EKeyEntry(ekey, p.segmentIndex, Wrap(p.segmentOffs), Wrap(total))
  }

  // ---- the writer ----

  class Writer {
    const segmentSize: nat
    var disk: Disk
    var segmentIndex: u32
    var segmentOffs: nat
    var segmentOpen: bool
    var closed: bool

    predicate Valid()
      reads this
    {
      segmentOpen ==> segmentIndex in disk
    }

    function State(): Store
      reads this
    {
      Store(disk, segmentIndex, segmentOffs, segmentOpen, closed)
    }

    constructor (directory: Disk, size: nat)
      ensures Valid() && State() == NewStore(directory)
      ensures segmentSize == if size == 0 then DEFAULT_SEGMENT_SIZE else size
    {
      segmentSize := if size == 0 then DEFAULT_SEGMENT_SIZE else size;
      disk, segmentIndex, segmentOffs, segmentOpen, closed := directory, 0, 0, false, false;
    }

    method Close()
      requires Valid()
      modifies this
      ensures Valid() && State() == old(State()).(closed := true, isOpen := false)
    {
      closed := true;
      segmentOpen := false;
    }

    method WriteSpan(c: Codecs, blte: seq<byte>, ekey: Key) returns (r: Result<EKeyEntry>)
      requires Valid()
      modifies this
      ensures Valid()
      ensures Refusal(old(State()), blte, segmentSize).Some? ==>
        r == Err(Refusal(old(State()), blte, segmentSize).value) && State() == old(State())
      ensures Refusal(old(State()), blte, segmentSize).None? ==>
        && r == Ok(EntryFor(old(State()), blte, ekey, segmentSize))
        && State() == Written(c, old(State()), blte, ekey, segmentSize)
    {
      hide EncodedHeader;
      if closed {
        return Err(InvalidHandle);
      }
      if |blte| < 8 {
        return Err(BadFormat);
      }
      var totalLen := ENCODED_HEADER_SIZE + |blte|;
      if totalLen > segmentSize {
        return Err(NotSupported);
      }
      if segmentOpen && segmentOffs + totalLen > segmentSize {
        segmentOpen := false;
        segmentIndex := Wrap(segmentIndex + 1);
        segmentOffs := 0;
      }
      if !segmentOpen {
        OpenSegment();
      }
      ghost var p := State();
      assert p == Placed(old(State()), totalLen, segmentSize);
      hide Placed;
      WriteHeaderAndStream(c, blte, ekey);
      r := Ok(EKeyEntry(ekey, segmentIndex, Wrap(segmentOffs), Wrap(totalLen)));
      segmentOffs := segmentOffs + totalLen;
    }

    /** The two file writes: header, then stream. */
    method WriteHeaderAndStream(c: Codecs, blte: seq<byte>, ekey: Key)
      requires segmentIndex in disk
      modifies this`disk
      ensures disk == old(disk)[segmentIndex := old(disk)[segmentIndex] + Span(c, blte, ekey, segmentOffs)]
    {
      hide EncodedHeader;
      var header := BuildEncodedHeader(c, ekey, Wrap(|blte|), segmentOffs);
      ghost var file := disk[segmentIndex];
      Write(header);
      Write(blte);
      assert file + header + blte == file + (header + blte);
    }

    /** Open or create the current segment and stand at its end. */
    method OpenSegment()
      modifies this
      ensures disk == old(disk)[segmentIndex := if segmentIndex in old(disk) then old(disk)[segmentIndex] else []]
      ensures segmentIndex == old(segmentIndex) && closed == old(closed)
      ensures segmentOpen && segmentOffs == |disk[segmentIndex]|
    {
      if segmentIndex !in disk {
        disk := disk[segmentIndex := []];
      }
      segmentOpen := true;
      segmentOffs := |disk[segmentIndex]|;
    }

    /** Write at the end of the open segment. */
    method Write(b: seq<byte>)
      requires segmentIndex in disk
      modifies this`disk
      ensures disk == old(disk)[segmentIndex := old(disk)[segmentIndex] + b]
    {
      disk := disk[segmentIndex := disk[segmentIndex] + b];
    }
  }

  // ---- the reader ----

  /** Pool.ReadSpan: the entry's bytes, if the segment has them, decoded. */
  function ReadSpan(c: Codecs, disk: Disk, e: EKeyEntry, keys: Option<Decoder>, overcome: bool): Result<seq<byte>> {
    if e.ArchiveIndex !in disk then Err(FileNotFound)
    else if e.EncodedSize < ENCODED_HEADER_SIZE then Err(BadFormat)
    else if e.ArchiveOffs + e.EncodedSize > |disk[e.ArchiveIndex]| then Err(Other(0))
    else SpanContent(c, SpanDecoder(keys, overcome), At(disk[e.ArchiveIndex], e.ArchiveOffs, e.EncodedSize))
  }
}
