// buildEncodedHeader of internal/archive/writer.go: the 30 bytes in front of
// every stored stream, with a hash and a position-dependent checksum.

module EncodedHeaders {
  import opened Words
  import opened Bitwise
  import opened Bytes
  import opened Environment
  import opened BlteReader

  const JENKINS_INITVAL: u32 := 0x3D6BE971

  const ENCODED_OFFSET_TABLE: seq<u32> := [
    0x049396B8, 0x72A82A9B, 0xEE626CCA, 0x9917754F,
    0x15DE40B1, 0xF5A8A9B6, 0x421EAC7E, 0xA9D55C9A,
    0x317FD40C, 0x04FAF80D, 0x3D6BE971, 0x52933CFD,
    0x27F64B7D, 0xC6F5C11B, 0xD5757E3A, 0x6C388745]

  function Reversed(k: Key): (r: Key)
    ensures forall i :: 0 <= i < 16 ==> r[i] == k[15 - i]
  {
    seq(16, i requires 0 <= i < 16 => k[15 - i])
  }

  /** Key, size, two zero fields. */
  function HashedPart(ekey: Key, blteSize: u32): (s: seq<byte>)
    ensures |s| == 22
  {
    Reversed(ekey) + LE(blteSize, 4) + [0, 0]
  }

  /** What precedes the checksum: the hashed part and its hash. */
  function HeaderPrefix(c: Codecs, ekey: Key, blteSize: u32): (s: seq<byte>)
    ensures |s| == 26
  {
    HashedPart(ekey, blteSize) + LE(c.hashLittle(HashedPart(ekey, blteSize), JENKINS_INITVAL), 4)
  }

  /** The exclusive or of the bytes that stand at r modulo 4. */
  function Fold(s: seq<byte>, r: nat): byte {
    if |s| == 0 then 0
    else
      var before := Fold(s[..|s| - 1], r);
      if (|s| - 1) % 4 == r then XorByte(before, s[|s| - 1]) else before
  }

  function EncodedOffset(headerOffset: nat): u32 {
    var signatureOffset := Wrap(Wrap(headerOffset) + ENCODED_HEADER_SIZE);
    XorWord(ENCODED_OFFSET_TABLE[signatureOffset % 16], signatureOffset)
  }

  function EncodedHeader(c: Codecs, ekey: Key, blteSize: u32, headerOffset: nat): (h: seq<byte>)
    ensures |h| == ENCODED_HEADER_SIZE
  {
    var p, e := HeaderPrefix(c, ekey, blteSize), LE(EncodedOffset(headerOffset), 4);
    p + [XorByte(Fold(p, 2), e[2]), XorByte(Fold(p, 3), e[3]), XorByte(Fold(p, 0), e[0]), XorByte(Fold(p, 1), e[1])]
  }

  method BuildEncodedHeader(c: Codecs, ekey: Key, blteSize: u32, headerOffset: nat) returns (h: seq<byte>)
    ensures h == EncodedHeader(c, ekey, blteSize, headerOffset)
  {
    hide XorByte, XorWord, LE;
    var hdr := new byte[30](_ => 0);
    for i := 0 to 16
      invariant forall k :: 0 <= k < i ==> hdr[k] == ekey[15 - k]
    {
      hdr[i] := ekey[15 - i];
    }
    assert hdr[..16] == Reversed(ekey);
    var off := Append(hdr, 16, LE(blteSize, 4));
    off := Append(hdr, off, [0, 0]);
    var jh := c.hashLittle(hdr[..22], JENKINS_INITVAL);
    off := Append(hdr, off, LE(jh, 4));
    ghost var p := HeaderPrefix(c, ekey, blteSize);
    assert hdr[..26] == p;
    var encodedOffsetBytes := LE(EncodedOffset(headerOffset), 4);
    AddChecksum(hdr, encodedOffsetBytes);
    h := hdr[..];
    assert h == hdr[..26] + [hdr[26], hdr[27], hdr[28], hdr[29]];
  }

  /** The two checksum loops: fold the first 26 bytes, mix in the offset bytes. */
  method AddChecksum(hdr: array<byte>, e: seq<byte>)
    requires hdr.Length == 30 && |e| == 4
    modifies hdr
    ensures hdr[..26] == old(hdr[..26])
    ensures forall j {:trigger hdr[j]} :: 26 <= j < 30 ==> hdr[j] == XorByte(Fold(old(hdr[..26]), j % 4), e[j % 4])
  {
    hide XorByte;
    var hashed := new byte[4](_ => 0);
    for i := 0 to 26
      invariant hdr[..26] == old(hdr[..26])
      invariant forall r {:trigger hashed[r]} :: 0 <= r < 4 ==> hashed[r] == Fold(hdr[..i], r)
    {
      assert hdr[..i + 1][..i] == hdr[..i];
      hashed[i % 4] := XorByte(hashed[i % 4], hdr[i]);
    }
    for j := 0 to 4
      invariant hdr[..26] == old(hdr[..26])
      invariant forall r {:trigger hashed[r]} :: 0 <= r < 4 ==> hashed[r] == Fold(hdr[..26], r)
      invariant forall k {:trigger hdr[k]} :: 26 <= k < 26 + j ==> hdr[k] == XorByte(hashed[k % 4], e[k % 4])
    {
      var i := 26 + j;
      hdr[i] := XorByte(hashed[i % 4], e[i % 4]);
    }
  }

  /**
   * What a reader of the header can check: the key backwards, the size, the hash of the first
   * 22 bytes, and that the bytes at each residue modulo 4 add up to the byte of the masked offset.
   */
  lemma HeaderChecks(c: Codecs, ekey: Key, blteSize: u32, headerOffset: nat)
    ensures var h := EncodedHeader(c, ekey, blteSize, headerOffset);
            && h[..16] == Reversed(ekey)
            && LE32(At(h, 16, 4)) == blteSize
            && LE32(At(h, 22, 4)) == c.hashLittle(h[..22], JENKINS_INITVAL)
            && (forall r :: 0 <= r < 4 ==> Fold(h, r) == LE(EncodedOffset(headerOffset), 4)[r])
  {
    hide XorByte, XorWord, LE, LE32, Fold, Wrap;
    var h := EncodedHeader(c, ekey, blteSize, headerOffset);
    var p := HeaderPrefix(c, ekey, blteSize);
    var first := HashedPart(ekey, blteSize);
    var jh := c.hashLittle(first, JENKINS_INITVAL);
    assert h[..26] == p && p[..22] == first && h[..22] == first && h[..16] == Reversed(ekey);
    assert At(h, 16, 4) == LE(blteSize, 4) && At(h, 22, 4) == LE(jh, 4);
    FieldLE32(blteSize);
    FieldLE32(jh);
    Unwrapped(blteSize);
    Unwrapped(jh);
    FoldFour(p, LE(EncodedOffset(headerOffset), 4));
  }

  lemma Unwrapped(v: u32)
    ensures Wrap(v) == v
  {
  }

  lemma FoldFour(p: seq<byte>, e: seq<byte>)
    requires |p| == 26 && |e| == 4
    ensures var h := p + [XorByte(Fold(p, 2), e[2]), XorByte(Fold(p, 3), e[3]),
                          XorByte(Fold(p, 0), e[0]), XorByte(Fold(p, 1), e[1])];
            forall r :: 0 <= r < 4 ==> Fold(h, r) == e[r]
  {
    hide Fold, XorByte;
    var a, b := XorByte(Fold(p, 2), e[2]), XorByte(Fold(p, 3), e[3]);
    var d, f := XorByte(Fold(p, 0), e[0]), XorByte(Fold(p, 1), e[1]);
    var h := p + [a, b, d, f];
    forall r | 0 <= r < 4
      ensures Fold(h, r) == e[r]
    {
      FoldStep(p, a, r);
      FoldStep(p + [a], b, r);
      FoldStep(p + [a] + [b], d, r);
      FoldStep(p + [a] + [b] + [d], f, r);
      assert p + [a] + [b] + [d] + [f] == h;
      Cancels(Fold(p, r), e[r]);
    }
  }

  lemma FoldStep(s: seq<byte>, x: byte, r: nat)
    ensures Fold(s + [x], r) == if |s| % 4 == r then XorByte(Fold(s, r), x) else Fold(s, r)
  {
    assert (s + [x])[..|s|] == s;
  }

  lemma Cancels(a: byte, b: byte)
    ensures XorByte(a, XorByte(a, b)) == b
  {
    XorTwice(a, b);
  }
}
