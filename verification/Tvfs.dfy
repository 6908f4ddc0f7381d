// internal/root/tvfs/writer.go: a TVFS root of one flat folder, with path,
// VFS and container-file tables behind a 38-byte header.

module Tvfs {
  import opened Words
  import opened Wrappers
  import opened Bitwise
  import opened Seqs
  import opened Bytes

  const TVFS_MAGIC: nat := 0x53465654
  const HEADER_SIZE: nat := 38
  const FOLDER_BIT: nat := 0x8000_0000
  const LOWERCASE_MANIFEST: u32 := 8

  type Name = seq<byte>

  datatype WriteEntry = WriteEntry(Name: Name, EKey: Key, ContentSize: u32)

  /** Bytes needed for an offset into a table of this size. */
  function OffsetFieldSize(tableSize: nat): (n: nat)
    ensures 1 <= n <= 4
  {
    if tableSize > 0xFF_FFFF then 4 else if tableSize > 0xFFFF then 3 else if tableSize > 0xFF then 2 else 1
  }

  // ---- the format ----

  predicate NameOk(name: Name) { 0 < |name| <= 0xFE }

  /** Bytes of an offset into the file table of n entries, whose size the writer takes as 32 bits. */
  function CftWidth(n: nat): nat { OffsetFieldSize(Wrap(9 * n)) }

  function ItemSize(n: nat): nat { 9 + CftWidth(n) }

  /** Name length, name, and a node value that is a VFS offset. */
  function PathEntry(name: Name, value: nat): (s: seq<byte>)
    requires NameOk(name)
    ensures |s| == |name| + 6
  {
    [|name|] + name + [0xFF] + BE(value, 4)
  }

  function VfsEntry(contentSize: u32, cftOffset: nat, width: nat): (s: seq<byte>)
    ensures |s| == 9 + width
  {
    [1] + [0, 0, 0, 0] + BE(contentSize, 4) + BE(cftOffset, width)
  }

  function PathEntries(es: seq<WriteEntry>): (t: seq<seq<byte>>)
    requires forall i :: 0 <= i < |es| ==> NameOk(es[i].Name)
    ensures |t| == |es|
  {
    seq(|es|, i requires 0 <= i < |es| => PathEntry(es[i].Name, ItemSize(|es|) * i))
  }

  function VfsEntries(es: seq<WriteEntry>): (t: seq<seq<byte>>)
    ensures |t| == |es| && AllOfLength(t, ItemSize(|es|))
  {
    seq(|es|, i requires 0 <= i < |es| => VfsEntry(es[i].ContentSize, 9 * i, CftWidth(|es|)))
  }

  function CftEntries(es: seq<WriteEntry>): (t: seq<seq<byte>>)
    ensures |t| == |es| && AllOfLength(t, 9)
  {
    seq(|es|, i requires 0 <= i < |es| => es[i].EKey[..9])
  }

  /** folderNodeBit | size */
  function FolderValue(size: nat): nat { Or(FOLDER_BIT, size) }

  /** Where a table lies and how long it is. */
  function TablePlace(offset: nat, size: nat): (s: seq<byte>)
    ensures |s| == 8
  {
    BE(offset, 4) + BE(size, 4)
  }

  function HeaderBytes(flags: u32, pathSize: nat, vfsSize: nat, cftSize: nat): (s: seq<byte>)
    ensures |s| == HEADER_SIZE
  {
    LE(TVFS_MAGIC, 4) + [1, 38, 9, 9] + LE(flags, 4)
      + TablePlace(HEADER_SIZE, pathSize)
      + TablePlace(HEADER_SIZE + pathSize, vfsSize)
      + TablePlace(HEADER_SIZE + pathSize + vfsSize, cftSize)
      + BE(1, 2)
  }

  function Flags(lowercase: bool): u32 { if lowercase then LOWERCASE_MANIFEST else 0 }

  ghost predicate NamesOk(es: seq<WriteEntry>) { forall i :: 0 <= i < |es| ==> NameOk(es[i].Name) }

  function PathBody(es: seq<WriteEntry>): seq<byte>
    requires forall i :: 0 <= i < |es| ==> NameOk(es[i].Name)
  {
    Concat(PathEntries(es))
  }

  /** The folder around the path entries. */
  function PathTable(es: seq<WriteEntry>): (s: seq<byte>)
    requires forall i :: 0 <= i < |es| ==> NameOk(es[i].Name)
    ensures |s| == 5 + |PathBody(es)|
  {
    [0xFF] + BE(FolderValue(4 + |PathBody(es)|), 4) + PathBody(es)
  }

  function VfsTable(es: seq<WriteEntry>): seq<byte> { Concat(VfsEntries(es)) }

  function CftTable(es: seq<WriteEntry>): seq<byte> { Concat(CftEntries(es)) }

  function RootBytes(es: seq<WriteEntry>, lowercase: bool): seq<byte>
    requires forall i :: 0 <= i < |es| ==> NameOk(es[i].Name)
  {
    HeaderBytes(Flags(lowercase), |PathTable(es)|, |VfsTable(es)|, |CftTable(es)|)
      + PathTable(es) + VfsTable(es) + CftTable(es)
  }

  // ---- the buffer ----

  /** Where the VFS table goes, in 32 bits. */
  function VfsStart(es: seq<WriteEntry>): u32
    requires forall i :: 0 <= i < |es| ==> NameOk(es[i].Name)
  {
    Wrap(HEADER_SIZE + |PathTable(es)|)
  }

  /** Where the file table goes, in 32 bits; the buffer ends behind it. */
  function CftStart(es: seq<WriteEntry>): u32
    requires forall i :: 0 <= i < |es| ==> NameOk(es[i].Name)
  {
    Wrap(VfsStart(es) as nat + |VfsTable(es)|)
  }

  /** Every table lies within the buffer; otherwise slicing it panics. */
  predicate Sliceable(es: seq<WriteEntry>)
    requires forall i :: 0 <= i < |es| ==> NameOk(es[i].Name)
  {
    var total := CftStart(es) + |CftTable(es)|;
    HEADER_SIZE + |PathTable(es)| <= total && VfsStart(es) + |VfsTable(es)| <= total
  }

  /** The offsets fit their 32 bits. */
  ghost predicate Addressable(es: seq<WriteEntry>) {
    NamesOk(es) && HEADER_SIZE + |PathTable(es)| + |VfsTable(es)| < TWO32
  }

  /** When path table and file table are below 4 GiB, the writer panics exactly if the offsets do not fit. */
  lemma SliceableExactly(es: seq<WriteEntry>)
    requires NamesOk(es) && HEADER_SIZE + |PathTable(es)| < TWO32 && |CftTable(es)| < TWO32
    ensures Sliceable(es) <==> Addressable(es)
  {
    hide PathTable, VfsTable, CftTable;
    WrapFits(HEADER_SIZE + |PathTable(es)|);
    if Addressable(es) {
      WrapFits(HEADER_SIZE + |PathTable(es)| + |VfsTable(es)|);
    } else {
      Wrapped(VfsStart(es) as nat + |VfsTable(es)|);
    }
  }

  lemma Wrapped(v: nat)
    requires v >= TWO32
    ensures Wrap(v) <= v - TWO32
  {
  }

  // ---- the writer ----

  /** The root, or the error for a name; None is a panic. */
  method Encode(entries: seq<WriteEntry>, lowercase: bool) returns (r: Option<Result<seq<byte>>>)
    ensures !NamesOk(entries) <==> r == Some(Err(InvalidParameter))
    ensures NamesOk(entries) ==> (r == None <==> !Sliceable(entries))
    ensures NamesOk(entries) && r.Some? ==> r.value.Ok? && |r.value.value| == CftStart(entries) + |CftTable(entries)|
    ensures Addressable(entries) ==> r == Some(Ok(RootBytes(entries, lowercase)))
  {
    hide PathEntries, VfsEntries, CftEntries, Concat, HeaderBytes;
    for i := 0 to |entries|
      invariant forall k :: 0 <= k < i ==> NameOk(entries[k].Name)
    {
      if |entries[i].Name| == 0 || |entries[i].Name| > 0xFE {
        return Some(Err(InvalidParameter));
      }
    }
    var n := |entries|;
    var pathBodySize := BodySize(entries);
    var pathTableSize := 5 + pathBodySize;
    var vfsItemSize := ItemSize(n);
    ConcatLength(VfsEntries(entries), vfsItemSize);
    ConcatLength(CftEntries(entries), 9);
    var vfsTableSize, cftTableSize := vfsItemSize * n, 9 * n;
    var vfsTableOffset := Wrap(HEADER_SIZE + pathTableSize);
    var cftTableOffset := Wrap(vfsTableOffset as nat + vfsTableSize);
    var totalSize := cftTableOffset + cftTableSize;
    if HEADER_SIZE + pathTableSize > totalSize || vfsTableOffset + vfsTableSize > totalSize {
      OffsetsFit(entries);
      return None;
    }
    var out := FillTables(entries, lowercase, pathBodySize, vfsTableOffset, cftTableOffset);
    r := Some(Ok(out));
  }

  lemma OffsetsFit(es: seq<WriteEntry>)
    ensures Addressable(es) ==>
              && VfsStart(es) == HEADER_SIZE + |PathTable(es)|
              && CftStart(es) == HEADER_SIZE + |PathTable(es)| + |VfsTable(es)|
              && Sliceable(es)
  {
    hide PathTable, VfsTable, CftTable;
    if Addressable(es) {
      WrapFits(HEADER_SIZE + |PathTable(es)|);
      WrapFits(HEADER_SIZE + |PathTable(es)| + |VfsTable(es)|);
    }
  }

  /** Header and tables, each written where its offset says. */
  method FillTables(entries: seq<WriteEntry>, lowercase: bool, bodySize: nat, vfsOffset: u32, cftOffset: u32)
      returns (s: seq<byte>)
    requires NamesOk(entries) && Sliceable(entries) && bodySize == |PathBody(entries)|
    requires vfsOffset == VfsStart(entries) && cftOffset == CftStart(entries)
    ensures |s| == cftOffset + |CftTable(entries)|
    ensures Addressable(entries) ==> s == RootBytes(entries, lowercase)
  {
    hide PathEntries, VfsEntries, CftEntries, Concat, HeaderBytes, ItemSize;
    TableSizes(entries);
    OffsetsFit(entries);
    var n := |entries|;
    var out := new byte[cftOffset + 9 * n](_ => 0);
    var off := WriteHeader(out, lowercase, 5 + bodySize, ItemSize(n) * n, 9 * n);
    off := WritePathTable(out, entries, bodySize);
    off := WriteVfsTable(out, vfsOffset, entries);
    off := WriteCftTable(out, cftOffset, entries);
    s := out[..];
    assert s == out[..off];
  }

  lemma TableSizes(es: seq<WriteEntry>)
    ensures |VfsTable(es)| == ItemSize(|es|) * |es| && |CftTable(es)| == 9 * |es|
  {
    hide Concat, ItemSize;
    ConcatLength(VfsEntries(es), ItemSize(|es|));
    ConcatLength(CftEntries(es), 9);
  }

  method BodySize(entries: seq<WriteEntry>) returns (size: nat)
    requires NamesOk(entries)
    ensures size == |PathBody(entries)|
  {
    hide Concat;
    ghost var t := PathEntries(entries);
    size := 0;
    NoPieces(t);
    for i := 0 to |entries|
      invariant size == |Concat(t[..i])|
    {
      ConcatPiece(t, i);
      size := size + 1 + |entries[i].Name| + 5;
    }
    assert t[..|entries|] == t;
  }

  method WriteHeader(out: array<byte>, lowercase: bool, pathSize: nat, vfsSize: nat, cftSize: nat) returns (off: nat)
    requires out.Length >= HEADER_SIZE
    modifies out
    ensures off == HEADER_SIZE && out[..off] == HeaderBytes(Flags(lowercase), pathSize, vfsSize, cftSize)
  {
    hide LE, BE, TablePlace;
    var vfsOffset := HEADER_SIZE + pathSize;
    off := Append(out, 0, LE(TVFS_MAGIC, 4));
    off := Append(out, off, [1, 38, 9, 9]);
    off := Append(out, off, LE(Flags(lowercase), 4));
    off := WriteTablePlace(out, off, HEADER_SIZE, pathSize);
    off := WriteTablePlace(out, off, vfsOffset, vfsSize);
    off := WriteTablePlace(out, off, vfsOffset + vfsSize, cftSize);
    off := Append(out, off, BE(1, 2));
  }

  method WriteTablePlace(out: array<byte>, start: nat, offset: nat, size: nat) returns (off: nat)
    requires start + 8 <= out.Length
    modifies out
    ensures off == start + 8 && out[..off] == old(out[..start]) + TablePlace(offset, size)
  {
    hide BE;
    off := Append(out, start, BE(offset, 4));
    off := Append(out, off, BE(size, 4));
  }

  method WritePathTable(out: array<byte>, entries: seq<WriteEntry>, bodySize: nat) returns (off: nat)
    requires NamesOk(entries) && bodySize == |PathBody(entries)|
    requires HEADER_SIZE + |PathTable(entries)| <= out.Length
    modifies out
    ensures off == HEADER_SIZE + |PathTable(entries)|
    ensures out[..off] == old(out[..HEADER_SIZE]) + PathTable(entries)
  {
    hide Concat, PathEntry, BE, Or, ItemSize;
    ghost var t, head := PathEntries(entries), out[..HEADER_SIZE];
    off := Append(out, HEADER_SIZE, [0xFF]);
    off := Append(out, off, BE(FolderValue(4 + bodySize), 4));
    ghost var front := [0xFF] + BE(FolderValue(4 + bodySize), 4);
    assert out[..off] == head + front;
    NoPieces(t);
    for i := 0 to |entries|
      invariant off == HEADER_SIZE + 5 + |Concat(t[..i])| <= out.Length
      invariant out[..off] == head + front + Concat(t[..i])
    {
      ConcatPiece(t, i);
      ConcatSnoc(t, i);
      off := WritePathEntry(out, off, entries[i].Name, ItemSize(|entries|) * i);
      Assoc(head + front, Concat(t[..i]), t[i]);
    }
    assert t[..|entries|] == t;
    Assoc(head, front, Concat(t));
  }

  method WritePathEntry(out: array<byte>, start: nat, name: Name, value: int) returns (off: nat)
    requires NameOk(name) && value >= 0 && start + |name| + 6 <= out.Length
    modifies out
    ensures off == start + |name| + 6
    ensures out[..off] == old(out[..start]) + PathEntry(name, value)
  {
    hide BE;
    off := Append(out, start, [|name|]);
    off := Append(out, off, name);
    off := Append(out, off, [0xFF]);
    off := Append(out, off, BE(value, 4));
  }

  method WriteVfsTable(out: array<byte>, start: nat, entries: seq<WriteEntry>) returns (off: nat)
    requires start + |VfsTable(entries)| <= out.Length
    modifies out
    ensures off == start + |VfsTable(entries)| && out[..off] == old(out[..start]) + VfsTable(entries)
  {
    hide Concat, BE, ItemSize;
    ghost var t, head := VfsEntries(entries), out[..start];
    var width := CftWidth(|entries|);
    off := start;
    NoPieces(t);
    for i := 0 to |entries|
      invariant off == start + |Concat(t[..i])| <= out.Length
      invariant out[..off] == head + Concat(t[..i])
    {
      ConcatPiece(t, i);
      ConcatSnoc(t, i);
      off := WriteVfsEntry(out, off, entries[i].ContentSize, 9 * i, width);
      Assoc(head, Concat(t[..i]), t[i]);
    }
    assert t[..|entries|] == t;
  }

  method WriteVfsEntry(out: array<byte>, start: nat, contentSize: u32, cftOffset: nat, width: nat) returns (off: nat)
    requires start + 9 + width <= out.Length
    modifies out
    ensures off == start + 9 + width
    ensures out[..off] == old(out[..start]) + VfsEntry(contentSize, cftOffset, width)
  {
    hide BE;
    off := Append(out, start, [1]);
    off := Append(out, off, [0, 0, 0, 0]);
    off := Append(out, off, BE(contentSize, 4));
    ghost var before := out[..off];
    WriteBE(out, off, width, cftOffset);
    assert out[..off + width] == before + BE(cftOffset, width);
    off := off + width;
  }

  method WriteCftTable(out: array<byte>, start: nat, entries: seq<WriteEntry>) returns (off: nat)
    requires start + |CftTable(entries)| <= out.Length
    modifies out
    ensures off == start + |CftTable(entries)| && out[..off] == old(out[..start]) + CftTable(entries)
  {
    hide Concat;
    ghost var t, head := CftEntries(entries), out[..start];
    off := start;
    NoPieces(t);
    for i := 0 to |entries|
      invariant off == start + |Concat(t[..i])| <= out.Length
      invariant out[..off] == head + Concat(t[..i])
    {
      ConcatPiece(t, i);
      ConcatSnoc(t, i);
      off := Append(out, off, entries[i].EKey[..9]);
      Assoc(head, Concat(t[..i]), t[i]);
    }
    assert t[..|entries|] == t;
  }
}
