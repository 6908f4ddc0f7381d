// internal/index/index.go: V2 index files, whose entries stand in one hashed
// block or in pages of entries hashed one by one.

module IndexV2Reader {
  import opened Words
  import opened Wrappers
  import opened Seqs
  import opened Bytes
  import opened Environment
  import opened Archive
  import opened IndexV1
  import opened IndexEntries

  // ---- headers, tried before those of V1 ----

  function GuardedBlock(c: Codecs, data: seq<byte>): Result<seq<byte>> {
    if |data| < 8 then Err(FileCorrupt) else
      var size := LE32(At(data, 0, 4));
      if 8 + size > |data| then Err(FileCorrupt)
      else if c.hashLittle(At(data, 8, size), 0) != LE32(At(data, 4, 4)) then Err(FileCorrupt)
      else Ok(At(data, 8, size))
  }

  function ParseHeaderV2(c: Codecs, data: seq<byte>, bucketIndex: byte): Result<Header> {
    match GuardedBlock(c, data)
    case Err(e) => Err(e)
    case Ok(h) =>
      if |h| < 16 then Err(BadFormat)
      else if ReadLE(At(h, 0, 2)) != 7 || h[2] != bucketIndex || h[3] != 0 then Err(BadFormat)
      else if h[4] != 4 || h[5] != 5 || h[6] != 9 then Err(BadFormat)
      else Ok(Header(7, h[2], h[5], h[4], h[6], h[7], ReadLE(At(h, 8, 8)), 24, 8, 18, 0))
  }

  // ---- one block of entries ----

  /** captureGuardedBlock2, first method: hashlittle2 over the entries, carried on from one to the next. */
  function Chained(c: Codecs, payload: seq<byte>, n: nat): (u32, u32)
    requires ENTRY_SIZE * n <= |payload|
  {
    if n == 0 then (0, 0)
    else
      var before := Chained(c, payload, n - 1);
      c.hashLittle2(At(payload, ENTRY_SIZE * (n - 1), ENTRY_SIZE), before.0, before.1)
  }

  /** Second method: hashlittle, carried on likewise. */
  function ChainedBlizzGet(c: Codecs, payload: seq<byte>, n: nat): u32
    requires ENTRY_SIZE * n <= |payload|
  {
    if n == 0 then 0
    else c.hashLittle(At(payload, ENTRY_SIZE * (n - 1), ENTRY_SIZE), ChainedBlizzGet(c, payload, n - 1))
  }

  function EntriesBlock(c: Codecs, data: seq<byte>): Result<seq<byte>> {
    if |data| < 8 then Err(FileCorrupt) else
      var size := LE32(At(data, 0, 4));
      if size == 0 || 8 + size > |data| then Err(FileCorrupt) else
        var payload := At(data, 8, size);
        var count := size / ENTRY_SIZE;
        if Chained(c, payload, count).0 == LE32(At(data, 4, 4)) || ChainedBlizzGet(c, payload, count) == LE32(At(data, 4, 4))
        then Ok(payload)
        else Err(FileCorrupt)
  }

  // ---- pages of entries ----

  const PAGE_SIZE: nat := 0x1000
  const SLOT_SIZE: nat := 24
  const LEAST_PAGED: nat := 0x8800

  /** The hash of a stored entry has its top bit set, so that it is never zero. */
  function EntryHash(c: Codecs, s: seq<byte>): u32 {
    var h := c.hashLittle(s, 0);
    if h < 0x8000_0000 then h + 0x8000_0000 else h
  }

  /** captureGuardedBlock3: hash, entry and one byte more. */
  function HashedEntry(c: Codecs, data: seq<byte>): (r: Option<seq<byte>>)
    ensures r.Some? ==> |r.value| == ENTRY_SIZE
  {
    if |data| < 4 + ENTRY_SIZE + 1 then None
    else if LE32(At(data, 0, 4)) == 0 || EntryHash(c, At(data, 4, ENTRY_SIZE + 1)) != LE32(At(data, 0, 4)) then None
    else Some(At(data, 4, ENTRY_SIZE))
  }

  /** The entries of a page from p on, up to the first place that holds none. */
  function PageEntries(c: Codecs, data: seq<byte>, p: nat, end: nat, bits: nat): seq<EKeyEntry>
    requires end <= |data|
    decreases end - p
  {
    if p + 4 + ENTRY_SIZE > end then []
    else
      match HashedEntry(c, data[p..end])
      case None => []
      case Some(b) => [DecodeEntry(b, bits)] + PageEntries(c, data, p + SLOT_SIZE, end, bits)
  }

  function PageLimit(data: seq<byte>, start: nat): nat {
    if start + PAGE_SIZE > |data| then |data| else start + PAGE_SIZE
  }

  function PagedEntries(c: Codecs, data: seq<byte>, start: nat, bits: nat): seq<EKeyEntry>
    decreases |data| - start
  {
    if start >= |data| then []
    else PageEntries(c, data, start, PageLimit(data, start), bits) + PagedEntries(c, data, start + PAGE_SIZE, bits)
  }

  // ---- the loader ----

  function EntriesV2(c: Codecs, data: seq<byte>, h: Header): Result<seq<EKeyEntry>> {
    var off := h.HeaderLength + h.HeaderPadding;
    var block := if off < |data| then EntriesBlock(c, data[off..]) else Err(FileCorrupt);
    if block.Ok? then Ok(EntryList(block.value, 0, |block.value| / ENTRY_SIZE, h.FileOffsetBits))
    else if |data| < LEAST_PAGED then Err(FileCorrupt)
    else Ok(PagedEntries(c, data, PAGE_SIZE, h.FileOffsetBits))
  }

  method CaptureEntriesBlock(c: Codecs, data: seq<byte>) returns (r: Result<seq<byte>>)
    ensures r == EntriesBlock(c, data)
  {
    if |data| < 8 {
      return Err(FileCorrupt);
    }
    var blockSize, blockHash := LE32(At(data, 0, 4)), LE32(At(data, 4, 4));
    if blockSize == 0 || 8 + blockSize > |data| {
      return Err(FileCorrupt);
    }
    var payload := At(data, 8, blockSize);
    var count := blockSize / ENTRY_SIZE;
    var hashes: (u32, u32) := (0, 0);
    for i := 0 to count
      invariant hashes == Chained(c, payload, i)
    {
      hashes := c.hashLittle2(At(payload, ENTRY_SIZE * i, ENTRY_SIZE), hashes.0, hashes.1);
    }
    if hashes.0 == blockHash {
      return Ok(payload);
    }
    var blizzGet: u32 := 0;
    for i := 0 to count
      invariant blizzGet == ChainedBlizzGet(c, payload, i)
    {
      blizzGet := c.hashLittle(At(payload, ENTRY_SIZE * i, ENTRY_SIZE), blizzGet);
    }
    r := if blizzGet == blockHash then Ok(payload) else Err(FileCorrupt);
  }

  method LoadEntriesV2(c: Codecs, data: seq<byte>, h: Header) returns (r: Result<seq<EKeyEntry>>)
    ensures r == EntriesV2(c, data, h)
  {
    hide DecodeEntry, EntriesBlock, PageEntries;
    var off := h.HeaderLength + h.HeaderPadding;
    if off < |data| {
      var block := CaptureEntriesBlock(c, data[off..]);
      if block.Ok? {
        var payload := block.value;
        var out: seq<EKeyEntry> := [];
        for i := 0 to |payload| / ENTRY_SIZE
          invariant out == EntryList(payload, 0, i, h.FileOffsetBits)
        {
          out := out + [DecodeEntry(At(payload, ENTRY_SIZE * i, ENTRY_SIZE), h.FileOffsetBits)];
        }
        return Ok(out);
      }
    }
    if |data| < LEAST_PAGED {
      return Err(FileCorrupt);
    }
    var out := ReadPages(c, data, h.FileOffsetBits);
    r := Ok(out);
  }

  method ReadPages(c: Codecs, data: seq<byte>, bits: nat) returns (out: seq<EKeyEntry>)
    ensures out == PagedEntries(c, data, PAGE_SIZE, bits)
  {
    hide PageEntries;
    out := [];
    var pageStart := PAGE_SIZE;
    while pageStart < |data|
      invariant out + PagedEntries(c, data, pageStart, bits) == PagedEntries(c, data, PAGE_SIZE, bits)
      decreases |data| - pageStart
    {
      var page := ReadPage(c, data, pageStart, PageLimit(data, pageStart), bits);
      Assoc(out, page, PagedEntries(c, data, pageStart + PAGE_SIZE, bits));
      out := out + page;
      pageStart := pageStart + PAGE_SIZE;
    }
    assert out + [] == out;
  }

  method ReadPage(c: Codecs, data: seq<byte>, start: nat, end: nat, bits: nat) returns (out: seq<EKeyEntry>)
    requires end <= |data|
    ensures out == PageEntries(c, data, start, end, bits)
  {
    hide DecodeEntry, HashedEntry;
    out := [];
    var p := start;
    while p + 4 + ENTRY_SIZE <= end
      invariant out + PageEntries(c, data, p, end, bits) == PageEntries(c, data, start, end, bits)
      decreases end - p
    {
      var entry := HashedEntry(c, data[p..end]);
      if entry.None? {
        break;
      }
      Assoc(out, [DecodeEntry(entry.value, bits)], PageEntries(c, data, p + SLOT_SIZE, end, bits));
      out := out + [DecodeEntry(entry.value, bits)];
      p := p + SLOT_SIZE;
    }
    assert out + [] == out;
  }
}
