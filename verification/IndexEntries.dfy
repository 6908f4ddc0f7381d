// decodeEntry of internal/index/index.go: the 18 bytes of an index entry, in
// files of either version.

module IndexEntries {
  import opened Words
  import opened Bitwise
  import opened Bytes
  import opened Archive
  import opened IndexV1

  /** Nine key bytes, the rest zero. */
  function TrimmedKey(s: seq<byte>): Key
    requires |s| == 9
  {
    s + [0, 0, 0, 0, 0, 0, 0]
  }

  /** decodeEntry: the low FileOffsetBits of the storage field are the offset, the rest the segment. */
  function DecodeEntry(b: seq<byte>, fileOffsetBits: nat): EKeyEntry
    requires |b| == ENTRY_SIZE
  {
    var storage := ReadBE(At(b, 9, 5));
    EKeyEntry(TrimmedKey(At(b, 0, 9)), Wrap(High(storage, fileOffsetBits)), Wrap(LowBits(storage, fileOffsetBits)),
              BE32(At(b, 14, 4)))
  }

  function EntryList(data: seq<byte>, start: nat, n: nat, fileOffsetBits: nat): seq<EKeyEntry>
    requires start + ENTRY_SIZE * n <= |data|
  {
    seq(n, i requires 0 <= i < n => DecodeEntry(At(data, start + ENTRY_SIZE * i, ENTRY_SIZE), fileOffsetBits))
  }
}
