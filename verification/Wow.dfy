// internal/root/wow/writer.go: a v2 root with one group, file numbers as
// wrapping 32-bit deltas in ascending order.

module Wow {
  import opened Words
  import opened Wrappers
  import opened Seqs
  import opened Bytes
  import opened Sorting

  const WOW_MAGIC: nat := 0x4D465354
  const FILE_HEADER: nat := 12
  const GROUP_HEADER: nat := 12

  type u64 = x: nat | x < 0x1_0000_0000_0000_0000

  datatype WriteEntry = WriteEntry(FileDataID: u32, CKey: Key, FileNameHash: u64)

  datatype WriteOptions = WriteOptions(LocaleFlags: u32, ContentFlags: u32)

  // ---- the format ----

  function LessById(): (WriteEntry, WriteEntry) -> bool {
    (x: WriteEntry, y: WriteEntry) => x.FileDataID < y.FileDataID
  }

  /** Bit 28 of the content flags: the group carries no name hashes. */
  predicate NoNameHash(flags: u32) { flags / 0x1000_0000 % 2 == 1 }

  predicate HasHash(es: seq<WriteEntry>) { exists i :: 0 <= i < |es| && es[i].FileNameHash != 0 }

  /** The options' flags with bit 28 cleared if there are hashes, set if not. */
  function FlagsWritten(flags: u32, hasHash: bool): (f: u32)
    ensures NoNameHash(f) == !hasHash
  {
    if hasHash then (if NoNameHash(flags) then flags - 0x1000_0000 else flags)
    else if NoNameHash(flags) then flags else flags + 0x1000_0000
  }

  function LocaleOf(opts: WriteOptions): u32 { if opts.LocaleFlags == 0 then 0xFFFF_FFFF else opts.LocaleFlags }

  /** What the reader has counted up to when it comes to entry i. */
  function Expected(es: seq<WriteEntry>, i: nat): u32
    requires i <= |es|
  {
    if i == 0 then 0 else Wrap((es[i - 1].FileDataID as nat) + 1)
  }

  function Delta(es: seq<WriteEntry>, i: nat): u32
    requires i < |es|
  {
    Wrap(es[i].FileDataID - Expected(es, i))
  }

  function Deltas(es: seq<WriteEntry>): (t: seq<seq<byte>>)
    ensures |t| == |es| && AllOfLength(t, 4)
  {
    seq(|es|, i requires 0 <= i < |es| => LE(Delta(es, i), 4))
  }

  function CKeys(es: seq<WriteEntry>): (t: seq<seq<byte>>)
    ensures |t| == |es| && AllOfLength(t, 16)
  {
    seq(|es|, i requires 0 <= i < |es| => KeyBytes(es[i].CKey))
  }

  function KeyBytes(k: Key): (s: seq<byte>)
    ensures |s| == 16
  {
    k
  }

  function Hashes(es: seq<WriteEntry>): (t: seq<seq<byte>>)
    ensures |t| == |es| && AllOfLength(t, 8)
  {
    seq(|es|, i requires 0 <= i < |es| => LE(es[i].FileNameHash, 8))
  }

  function Headers(n: nat, hasHash: bool, content: u32, locale: u32): (s: seq<byte>)
    ensures |s| == 24
  {
    LE(WOW_MAGIC, 4) + LE(n, 4) + LE(if hasHash then n else 0, 4) + LE(n, 4) + LE(content, 4) + LE(locale, 4)
  }

  function ContentOf(es: seq<WriteEntry>, opts: WriteOptions): u32 { FlagsWritten(opts.ContentFlags, HasHash(es)) }

  function RootBytes(sorted: seq<WriteEntry>, opts: WriteOptions): seq<byte> {
    Headers(|sorted|, HasHash(sorted), ContentOf(sorted, opts), LocaleOf(opts))
      + Concat(Deltas(sorted)) + Concat(CKeys(sorted)) + (if HasHash(sorted) then Concat(Hashes(sorted)) else [])
  }

  ghost predicate SomeTwice(es: seq<WriteEntry>) {
    exists i, j :: 0 <= i < j < |es| && es[i].FileDataID == es[j].FileDataID
  }

  // ---- the writer ----

  method Encode(entries: seq<WriteEntry>, opts: WriteOptions) returns (r: Result<seq<byte>>, ghost sorted: seq<WriteEntry>)
    ensures |entries| == 0 || SomeTwice(sorted) <==> r.Err?
    ensures r.Err? ==> r == Err(InvalidParameter)
    ensures SortedCopy(sorted, entries, LessById())
    ensures r.Ok? ==> r == Ok(RootBytes(sorted, opts))
  {
    hide Headers, Concat, Delta, FlagsWritten;
    sorted := entries;
    if |entries| == 0 {
      return Err(InvalidParameter), sorted;
    }
    var locale := LocaleOf(opts);
    var cp := SortSlice(entries, LessById());
    sorted := cp;
    var twice := FindDuplicate(cp);
    if twice {
      return Err(InvalidParameter), sorted;
    }
    var hasHash := FindHash(cp);
    var contentFlags := FlagsWritten(opts.ContentFlags, hasHash);
    var out := WriteAll(cp, hasHash, contentFlags, locale);
    r := Ok(out);
  }

  /** Neighbours in the sorted list with the same number. */
  method FindDuplicate(cp: seq<WriteEntry>) returns (twice: bool)
    requires Sorted(cp, LessById())
    ensures twice == SomeTwice(cp)
  {
    var i := 1;
    while i < |cp|
      invariant 1 <= i
      invariant forall a, b :: 0 <= a < b < i && b < |cp| ==> cp[a].FileDataID < cp[b].FileDataID
    {
      if cp[i].FileDataID == cp[i - 1].FileDataID {
        return true;
      }
      assert !LessById()(cp[i], cp[i - 1]);
      i := i + 1;
    }
    twice := false;
  }

  method FindHash(cp: seq<WriteEntry>) returns (hasHash: bool)
    ensures hasHash == HasHash(cp)
  {
    for i := 0 to |cp|
      invariant forall k :: 0 <= k < i ==> cp[k].FileNameHash == 0
    {
      if cp[i].FileNameHash != 0 {
        return true;
      }
    }
    hasHash := false;
  }

  method WriteAll(cp: seq<WriteEntry>, hasHash: bool, contentFlags: u32, locale: u32) returns (s: seq<byte>)
    ensures s == Headers(|cp|, hasHash, contentFlags, locale) + Concat(Deltas(cp)) + Concat(CKeys(cp))
                   + (if hasHash then Concat(Hashes(cp)) else [])
  {
    hide Concat, Headers, Delta;
    var n := |cp|;
    ConcatLength(Deltas(cp), 4);
    ConcatLength(CKeys(cp), 16);
    ConcatLength(Hashes(cp), 8);
    var out := new byte[24 + 20 * n + if hasHash then 8 * n else 0](_ => 0);
    WriteHeaders(out, n, hasHash, contentFlags, locale);
    WriteDeltas(out, cp);
    var off := WriteRecords(out, 24 + 4 * n, CKeys(cp), 16);
    if hasHash {
      off := WriteRecords(out, off, Hashes(cp), 8);
    }
    s := out[..];
    assert s == out[..off];
  }

  method WriteHeaders(out: array<byte>, n: nat, hasHash: bool, contentFlags: u32, locale: u32)
    requires out.Length >= 24
    modifies out
    ensures out[..24] == Headers(n, hasHash, contentFlags, locale)
  {
    hide LE;
    var withHash := if hasHash then n else 0;
    var off := Append(out, 0, LE(WOW_MAGIC, 4));
    off := Append(out, off, LE(n, 4));
    off := Append(out, off, LE(withHash, 4));
    off := Append(out, off, LE(n, 4));
    off := Append(out, off, LE(contentFlags, 4));
    off := Append(out, off, LE(locale, 4));
  }

  /** The delta loop, carrying the number the reader will have reached. */
  method WriteDeltas(out: array<byte>, cp: seq<WriteEntry>)
    requires 24 + 4 * |cp| <= out.Length
    modifies out
    ensures out[..24 + 4 * |cp|] == old(out[..24]) + Concat(Deltas(cp))
  {
    hide Concat, LE;
    ghost var ds, head := Deltas(cp), out[..24];
    NoPieces(ds);
    var prevPost: u32 := 0;
    for i := 0 to |cp|
      invariant prevPost == Expected(cp, i)
      invariant out[..24 + 4 * i] == head + Concat(ds[..i])
    {
      var delta := Wrap(cp[i].FileDataID - prevPost);
      ConcatSnoc(ds, i);
      var _ := Append(out, 24 + 4 * i, LE(delta, 4));
      Assoc(head, Concat(ds[..i]), ds[i]);
      prevPost := Wrap((cp[i].FileDataID as nat) + 1);
    }
    assert ds[..|cp|] == ds;
  }

  /** Records of one width behind each other. */
  method WriteRecords(out: array<byte>, start: nat, records: seq<seq<byte>>, width: nat) returns (off: nat)
    requires AllOfLength(records, width) && start + |Concat(records)| <= out.Length
    modifies out
    ensures off == start + |Concat(records)|
    ensures out[..off] == old(out[..start]) + Concat(records)
  {
    hide Concat;
    ghost var head := out[..start];
    off := start;
    NoPieces(records);
    for i := 0 to |records|
      invariant off == start + |Concat(records[..i])| <= out.Length
      invariant out[..off] == head + Concat(records[..i])
    {
      ConcatPiece(records, i);
      ConcatSnoc(records, i);
      off := Append(out, off, records[i]);
      Assoc(head, Concat(records[..i]), records[i]);
    }
    assert records[..|records|] == records;
  }
}
