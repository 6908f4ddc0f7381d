// internal/root/install: the INSTALL manifest, names to content keys, with
// optional tags. Format, writer and reader. Names are byte strings.

module Install {
  import opened Words
  import opened Wrappers
  import opened Seqs
  import opened Bytes

  const MAGIC_INSTALL: nat := 0x4E49
  const HEADER_SIZE: nat := 10

  type Name = seq<byte>

  type u16 = x: nat | x < 0x1_0000

  datatype Entry = Entry(Name: Name, CKey: Key, ContentSize: u32)

  datatype Tag = Tag(Name: Name, Type: u16, Bitmap: seq<byte>)

  // ---- the format ----

  function BitmapLength(n: nat): nat { (n + 7) / 8 }

  /** The bitmap cut or filled up with zeros to n bytes. */
  function Fitted(s: seq<byte>, n: nat): (r: seq<byte>)
    ensures |r| == n
  {
    if |s| >= n then s[..n] else s + Zeros(n - |s|)
  }

  function TagBytes(t: Tag, bitmapLen: nat): (s: seq<byte>)
    ensures |s| == |t.Name| + 3 + bitmapLen
  {
    t.Name + [0] + BE(t.Type, 2) + Fitted(t.Bitmap, bitmapLen)
  }

  function EntryBytes(e: Entry, hashSize: nat): (s: seq<byte>)
    requires hashSize <= 16
    ensures |s| == |e.Name| + 5 + hashSize
  {
    e.Name + [0] + e.CKey[..hashSize] + BE(e.ContentSize, 4)
  }

  function AllTags(tags: seq<Tag>, bitmapLen: nat): (t: seq<seq<byte>>)
    ensures |t| == |tags|
  {
    seq(|tags|, i requires 0 <= i < |tags| => TagBytes(tags[i], bitmapLen))
  }

  function AllEntries(es: seq<Entry>, hashSize: nat): (t: seq<seq<byte>>)
    requires hashSize <= 16
    ensures |t| == |es|
  {
    seq(|es|, i requires 0 <= i < |es| => EntryBytes(es[i], hashSize))
  }

  function HeaderBytes(hashSize: byte, tagCount: nat, entryCount: nat): (s: seq<byte>)
    ensures |s| == HEADER_SIZE
  {
    LE(MAGIC_INSTALL, 2) + [1] + [hashSize] + BE(tagCount, 2) + BE(entryCount, 4)
  }

  function HashSizeOf(hashSize: byte): byte { if hashSize == 0 then 16 else hashSize }

  function InstallBytes(es: seq<Entry>, tags: seq<Tag>, hashSize: byte): seq<byte>
    requires HashSizeOf(hashSize) <= 16
  {
    HeaderBytes(HashSizeOf(hashSize), |tags|, |es|) + Concat(AllTags(tags, BitmapLength(|es|)))
      + Concat(AllEntries(es, HashSizeOf(hashSize)))
  }

  // ---- the writer ----

  method Encode(entries: seq<Entry>, tags: seq<Tag>, hashSizeOption: byte) returns (r: Result<seq<byte>>)
    ensures r == if HashSizeOf(hashSizeOption) > 16 then Err(InvalidParameter)
                 else Ok(InstallBytes(entries, tags, hashSizeOption))
  {
    hide TagBytes, EntryBytes, HeaderBytes, Concat;
    var hashSize := HashSizeOf(hashSizeOption);
    if hashSize > 16 {
      return Err(InvalidParameter);
    }
    var bitmapLen := BitmapLength(|entries|);
    var total := TotalSize(entries, tags, bitmapLen, hashSize);
    var out := new byte[total](_ => 0);
    var off := WriteHeader(out, hashSize, |tags|, |entries|);
    ghost var head := out[..off];
    off := WriteTags(out, off, tags, bitmapLen);
    off := WriteEntries(out, off, entries, hashSize);
    r := Ok(out[..]);
    assert out[..] == out[..off];
  }

  /** The two size loops. */
  method TotalSize(entries: seq<Entry>, tags: seq<Tag>, bitmapLen: nat, hashSize: nat) returns (total: nat)
    requires hashSize <= 16
    ensures total == HEADER_SIZE + |Concat(AllTags(tags, bitmapLen))| + |Concat(AllEntries(entries, hashSize))|
  {
    hide Concat;
    total := HEADER_SIZE;
    ghost var ts, es := AllTags(tags, bitmapLen), AllEntries(entries, hashSize);
    NoPieces(ts);
    for i := 0 to |tags|
      invariant total == HEADER_SIZE + |Concat(ts[..i])|
    {
      ConcatPiece(ts, i);
      total := total + |tags[i].Name| + 1 + 2 + bitmapLen;
    }
    assert ts[..|tags|] == ts;
    NoPieces(es);
    for i := 0 to |entries|
      invariant total == HEADER_SIZE + |Concat(ts)| + |Concat(es[..i])|
    {
      ConcatPiece(es, i);
      total := total + |entries[i].Name| + 1 + hashSize + 4;
    }
    assert es[..|entries|] == es;
  }

  method WriteHeader(out: array<byte>, hashSize: byte, tagCount: nat, entryCount: nat) returns (off: nat)
    requires out.Length >= HEADER_SIZE
    modifies out
    ensures off == HEADER_SIZE && out[..off] == HeaderBytes(hashSize, tagCount, entryCount)
  {
    hide LE, BE;
    off := Append(out, 0, LE(MAGIC_INSTALL, 2));
    off := Append(out, off, [1]);
    off := Append(out, off, [hashSize]);
    off := Append(out, off, BE(tagCount, 2));
    off := Append(out, off, BE(entryCount, 4));
  }

  method WriteTags(out: array<byte>, start: nat, tags: seq<Tag>, bitmapLen: nat) returns (off: nat)
    requires start + |Concat(AllTags(tags, bitmapLen))| <= out.Length
    modifies out
    ensures off == start + |Concat(AllTags(tags, bitmapLen))|
    ensures out[..off] == old(out[..start]) + Concat(AllTags(tags, bitmapLen))
  {
    hide Concat, TagBytes;
    ghost var ts, head := AllTags(tags, bitmapLen), out[..start];
    off := start;
    NoPieces(ts);
    for i := 0 to |tags|
      invariant off == start + |Concat(ts[..i])| <= out.Length
      invariant out[..off] == head + Concat(ts[..i])
    {
      ConcatPiece(ts, i);
      ConcatSnoc(ts, i);
      off := WriteTag(out, off, tags[i], bitmapLen);
      Assoc(head, Concat(ts[..i]), ts[i]);
    }
    assert ts[..|tags|] == ts;
  }

  method WriteTag(out: array<byte>, start: nat, t: Tag, bitmapLen: nat) returns (off: nat)
    requires start + |TagBytes(t, bitmapLen)| <= out.Length
    modifies out
    ensures off == start + |TagBytes(t, bitmapLen)|
    ensures out[..off] == old(out[..start]) + TagBytes(t, bitmapLen)
  {
    hide BE;
    off := Append(out, start, t.Name);
    off := Append(out, off, [0]);
    off := Append(out, off, BE(t.Type, 2));
    off := Append(out, off, Fitted(t.Bitmap, bitmapLen));
  }

  method WriteEntries(out: array<byte>, start: nat, entries: seq<Entry>, hashSize: nat) returns (off: nat)
    requires hashSize <= 16 && start + |Concat(AllEntries(entries, hashSize))| <= out.Length
    modifies out
    ensures off == start + |Concat(AllEntries(entries, hashSize))|
    ensures out[..off] == old(out[..start]) + Concat(AllEntries(entries, hashSize))
  {
    hide Concat, EntryBytes;
    ghost var es, head := AllEntries(entries, hashSize), out[..start];
    off := start;
    NoPieces(es);
    for i := 0 to |entries|
      invariant off == start + |Concat(es[..i])| <= out.Length
      invariant out[..off] == head + Concat(es[..i])
    {
      ConcatPiece(es, i);
      ConcatSnoc(es, i);
      off := WriteEntry(out, off, entries[i], hashSize);
      Assoc(head, Concat(es[..i]), es[i]);
    }
    assert es[..|entries|] == es;
  }

  method WriteEntry(out: array<byte>, start: nat, e: Entry, hashSize: nat) returns (off: nat)
    requires hashSize <= 16 && start + |EntryBytes(e, hashSize)| <= out.Length
    modifies out
    ensures off == start + |EntryBytes(e, hashSize)|
    ensures out[..off] == old(out[..start]) + EntryBytes(e, hashSize)
  {
    hide BE;
    off := Append(out, start, e.Name);
    off := Append(out, off, [0]);
    off := Append(out, off, e.CKey[..hashSize]);
    off := Append(out, off, BE(e.ContentSize, 4));
  }
}
