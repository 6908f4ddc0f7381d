// Decoding a BLTE stream gives back the content it was made from, and which
// streams do not decode to it.

module BlteRoundTrip {
  import opened Words
  import opened Wrappers
  import opened Seqs
  import opened Bytes
  import opened Environment
  import opened Blte
  import opened BlteReader

  /** The codecs undo deflate on this chunk, and the deflated bytes are not taken for another format. */
  ghost predicate Faithful(c: Codecs, chunk: seq<byte>, expected: nat) {
    c.deflate(chunk).Ok? ==>
      var zb := c.deflate(chunk).value;
      |zb| < |chunk| ==>
        && !LooksLikeBzip2(zb)
        && !(c.lzma.Some? && LooksLikeLZMA(zb))
        && c.inflate(zb, expected) == Ok(chunk)
  }

  /** One frame: whatever EncodeFrame chose, decoding undoes it. */
  lemma FrameRoundTrip(c: Codecs, d: FrameDecoder, mode: byte, chunk: seq<byte>, fr: Frame)
    requires EncodeFrame(c, mode, chunk).Ok?
    requires fr.ContentSize <= |chunk|
    requires mode == ZLIB ==> Faithful(c, chunk, fr.ContentSize)
    requires fr.FrameHash == ZERO_KEY || fr.FrameHash == c.md5(EncodeFrame(c, mode, chunk).value)
    ensures DecodeFrame(c, d, fr, EncodeFrame(c, mode, chunk).value) == Ok(chunk)
  {
    hide LooksLikeLZMA;
    var body := EncodeFrame(c, mode, chunk).value;
    if body[0] == RAW {
      assert body[1..] == chunk;
    } else {
      assert body[1..] == c.deflate(chunk).value;
    }
  }

  ghost predicate SizesFit(chunks: seq<seq<byte>>, bodies: seq<seq<byte>>)
    requires |chunks| == |bodies|
  {
    12 + 24 * |bodies| < TWO32 && forall i :: 0 <= i < |bodies| ==> |chunks[i]| < TWO32 && |bodies[i]| < TWO32
  }

  function FrameOf(c: Codecs, i: nat, chunk: seq<byte>, body: seq<byte>): Frame {
    Frame(i, Wrap(|body|), Wrap(|chunk|), c.md5(body))
  }

  /** The frame table of a stream, read back as far as the 24-bit count says. */
  function FramesOf(c: Codecs, chunks: seq<seq<byte>>, bodies: seq<seq<byte>>, m: nat): seq<Frame>
    requires m <= |chunks| == |bodies|
  {
    seq(m, i requires 0 <= i < m => FrameOf(c, i, chunks[i], bodies[i]))
  }

  lemma FixedFields(n: nat)
    requires 12 + 24 * n < TWO32
    ensures LE32(At(FixedHeader(n), 0, 4)) == BLTE_SIGNATURE
    ensures BE32(At(FixedHeader(n), 4, 4)) == 12 + 24 * n
    ensures FixedHeader(n)[8] == 0x0F
    ensures FrameCount(At(FixedHeader(n), 9, 3)) == n % 0x100_0000
  {
    hide BE, LE, BE32, LE32;
    var h := FixedHeader(n);
    assert At(h, 0, 4) == LE(BLTE_SIGNATURE, 4);
    assert At(h, 4, 4) == BE(12 + 24 * n, 4);
    assert At(h, 9, 3) == BE(n, 3);
    FieldLE32(BLTE_SIGNATURE);
    FieldBE32(12 + 24 * n);
    WrapFits(12 + 24 * n);
    ReadBEOfBE(n, 3);
    Pow256Values();
  }

  lemma EntryFields(c: Codecs, i: nat, chunk: seq<byte>, body: seq<byte>, data: seq<byte>)
    requires 12 + 24 * i + 24 <= |data|
    requires At(data, 12 + 24 * i, 24) == TableEntry(c, chunk, body)
    ensures FrameAt(data, i) == FrameOf(c, i, chunk, body)
  {
    hide BE, BE32;
    var off := 12 + 24 * i;
    var e := At(data, off, 24);
    SubSlice(data, off, off + 24, 0, 4);
    SubSlice(data, off, off + 24, 4, 8);
    SubSlice(data, off, off + 24, 8, 24);
    assert e[0..4] == BE(|body|, 4) && e[4..8] == BE(|chunk|, 4) && e[8..24] == c.md5(body);
    FieldBE32(|body|);
    FieldBE32(|chunk|);
  }

  lemma PrefixFields(h: seq<byte>, rest: seq<byte>, off: nat, n: nat)
    requires off + n <= |h|
    ensures At(h + rest, off, n) == At(h, off, n)
  {
  }

  function HeaderRead(c: Codecs, chunks: seq<seq<byte>>, bodies: seq<seq<byte>>): Header
    requires |chunks| == |bodies| && 12 + 24 * |bodies| < TWO32
  {
    var n, m := |bodies|, |bodies| % 0x100_0000;
    Header(12 + 24 * n, m, FramesOf(c, chunks, bodies, m), 12 + 24 * n)
  }

  /** The header of a stream says what was written, the count cut down to 24 bits. */
  lemma HeaderOfStream(c: Codecs, chunks: seq<seq<byte>>, bodies: seq<seq<byte>>)
    requires |chunks| == |bodies| && SizesFit(chunks, bodies)
    ensures HeaderOf(Stream(c, chunks, bodies)) == Ok(HeaderRead(c, chunks, bodies))
  {
    hide BE32, LE32, FrameCount, FixedHeader, Concat, TableEntry, FrameAt, FrameOf;
    var n := |bodies|;
    var h, t := FixedHeader(n), TableEntries(c, chunks, bodies);
    var s := Stream(c, chunks, bodies);
    Assoc(h, Concat(t), Concat(bodies));
    PrefixFields(h, Concat(t) + Concat(bodies), 0, 4);
    PrefixFields(h, Concat(t) + Concat(bodies), 4, 4);
    PrefixFields(h, Concat(t) + Concat(bodies), 9, 3);
    FixedFields(n);
    ConcatLength(t, 24);
    var m := n % 0x100_0000;
    forall i | 0 <= i < m
      ensures FrameAt(s, i) == FrameOf(c, i, chunks[i], bodies[i])
    {
      TableRecord(c, chunks, bodies, i);
      EntryFields(c, i, chunks[i], bodies[i], s);
    }
    assert s[8] == h[8];
    assert seq(m, i requires 0 <= i < m => FrameAt(s, i)) == FramesOf(c, chunks, bodies, m);
  }

  lemma TableRecord(c: Codecs, chunks: seq<seq<byte>>, bodies: seq<seq<byte>>, i: nat)
    requires |chunks| == |bodies| && i < |bodies|
    ensures 12 + 24 * i + 24 <= |Stream(c, chunks, bodies)|
    ensures At(Stream(c, chunks, bodies), 12 + 24 * i, 24) == TableEntry(c, chunks[i], bodies[i])
  {
    hide FixedHeader, Concat, TableEntry;
    var t := TableEntries(c, chunks, bodies);
    ConcatRecord(t, 24, i);
    Inside(FixedHeader(|bodies|), Concat(t), Concat(bodies), 24 * i, 24);
  }

  lemma Inside(a: seq<byte>, b: seq<byte>, d: seq<byte>, off: nat, n: nat)
    requires off + n <= |b|
    ensures |a| + off + n <= |a + b + d|
    ensures At(a + b + d, |a| + off, n) == b[off..off + n]
  {
  }

  /** Frames i to m decode to their chunks. */
  lemma {:induction false} FramesDecode(c: Codecs, d: FrameDecoder, mode: byte,
      chunks: seq<seq<byte>>, bodies: seq<seq<byte>>, head: seq<byte>, m: nat, i: nat)
    requires |chunks| == |bodies| && SizesFit(chunks, bodies) && i <= m <= |bodies|
    requires forall k :: 0 <= k < |chunks| ==> EncodeFrame(c, mode, chunks[k]) == Ok(bodies[k])
    requires mode == ZLIB ==> forall k :: 0 <= k < |chunks| ==> Faithful(c, chunks[k], |chunks[k]|)
    ensures DecodeFrames(c, d, FramesOf(c, chunks, bodies, m)[i..], head + Concat(bodies),
                         |head| + |Concat(bodies[..i])|)
         == Ok(Concat(chunks[i..m]))
    decreases m - i
  {
    hide EncodeFrame, DecodeFrame, Concat, Faithful;
    var frames := FramesOf(c, chunks, bodies, m);
    if i < m {
      var cursor := |head| + |Concat(bodies[..i])|;
      ConcatPiece(bodies, i);
      FramesDecode(c, d, mode, chunks, bodies, head, m, i + 1);
      WrapFits(|bodies[i]|);
      WrapFits(|chunks[i]|);
      FrameRoundTrip(c, d, mode, chunks[i], frames[i]);
      assert frames[i..][0] == frames[i] && frames[i..][1..] == frames[i + 1..];
      Behind(head, Concat(bodies), |Concat(bodies[..i])|, |bodies[i]|);
      ConcatHead(chunks[i..m]);
      assert chunks[i..m][1..] == chunks[i + 1..m];
    } else {
      NoChunks(chunks[i..m]);
    }
  }

  lemma NoChunks(ss: seq<seq<byte>>)
    requires |ss| == 0
    ensures Concat(ss) == []
  {
  }

  lemma Behind(a: seq<byte>, b: seq<byte>, off: nat, n: nat)
    requires off + n <= |b|
    ensures (a + b)[|a| + off..|a| + off + n] == b[off..off + n]
  {
  }

  lemma {:induction false} EncodedEach(c: Codecs, mode: byte, chunks: seq<seq<byte>>)
    requires EncodeFrames(c, mode, chunks).Ok?
    ensures forall k :: 0 <= k < |chunks| ==> EncodeFrame(c, mode, chunks[k]) == Ok(EncodeFrames(c, mode, chunks).value[k])
  {
    if |chunks| > 0 {
      EncodedEach(c, mode, chunks[..|chunks| - 1]);
    }
  }

  /** The chunks are the content, each but the last is full, and none after the first is empty. */
  lemma {:induction false} ChunksPartition(content: seq<byte>, size: nat)
    requires size > 0
    ensures Concat(Chunks(content, size)) == content
    ensures forall k :: 0 <= k < |Chunks(content, size)| ==> |Chunks(content, size)[k]| <= size
    ensures forall k :: 0 <= k < |Chunks(content, size)| - 1 ==> |Chunks(content, size)[k]| == size
    ensures forall k :: 1 <= k < |Chunks(content, size)| ==> |Chunks(content, size)[k]| > 0
    decreases |content|
  {
    hide Concat;
    if |content| <= size {
      ConcatOne(content);
    } else {
      ChunksPartition(content[size..], size);
      ConcatHead(Chunks(content, size));
      var rest := Chunks(content[size..], size);
      assert Chunks(content, size)[1..] == rest;
      assert content == content[..size] + content[size..];
      FirstNotEmpty(content[size..], size);
    }
  }

  lemma FirstNotEmpty(content: seq<byte>, size: nat)
    requires size > 0 && |content| > 0
    ensures |Chunks(content, size)[0]| > 0
  {
  }

  ghost predicate Undoable(c: Codecs, opts: EncodeOptions, content: seq<byte>) {
    ModeOf(opts) == ZLIB ==>
      if opts.SingleFrameNoHeader then Faithful(c, content, 0)
      else
        var chunks := Chunks(content, FrameSizeOf(opts));
        forall k :: 0 <= k < |chunks| ==> Faithful(c, chunks[k], |chunks[k]|)
  }

  /** Frames the header form needs for a content. */
  function FrameTotal(content: seq<byte>, opts: EncodeOptions): nat { |Chunks(content, FrameSizeOf(opts))| }

  /**
   * The header form decodes to the content exactly when the frame count fits its 24 bits:
   * beyond that, decoding succeeds with the leading chunks only.
   */
  lemma HeaderFormRoundTrip(c: Codecs, d: FrameDecoder, content: seq<byte>, opts: EncodeOptions)
    requires !opts.SingleFrameNoHeader && EncodedBytes(c, content, opts).Ok?
    requires Undoable(c, opts, content)
    requires FrameSizeOf(opts) < TWO32 - 1 || |content| < TWO32 - 1
    requires 12 + 24 * FrameTotal(content, opts) < TWO32
    ensures DecodeBody(c, d, EncodedBytes(c, content, opts).value).Ok?
    ensures DecodeBody(c, d, EncodedBytes(c, content, opts).value).value <= content
    ensures DecodeBody(c, d, EncodedBytes(c, content, opts).value) == Ok(content)
         <==> FrameTotal(content, opts) < 0x100_0000
  {
    hide EncodeFrame, EncodeFrames, Chunks, Concat, TableEntries, DecodeFrames, HeaderOf, FixedHeader, Faithful;
    var mode, size := ModeOf(opts), FrameSizeOf(opts);
    var chunks := Chunks(content, size);
    var bodies := EncodeFrames(c, mode, chunks).value;
    EncodedEach(c, mode, chunks);
    ChunksPartition(content, size);
    forall k | 0 <= k < |chunks|
      ensures |chunks[k]| < TWO32 && |bodies[k]| < TWO32
    {
      ConcatPiece(chunks, k);
      BodySize(c, mode, chunks[k]);
    }
    HeaderOfStream(c, chunks, bodies);
    var n, m := |bodies|, |bodies| % 0x100_0000;
    var head := FixedHeader(n) + Concat(TableEntries(c, chunks, bodies));
    ConcatLength(TableEntries(c, chunks, bodies), 24);
    NoPieces(bodies);
    FramesDecode(c, d, mode, chunks, bodies, head, m, 0);
    assert FramesOf(c, chunks, bodies, m)[0..] == FramesOf(c, chunks, bodies, m);
    assert chunks[0..m] == chunks[..m];
    ConcatSplit(chunks, m);
    if m < n {
      SomethingLeft(chunks, m);
    } else {
      assert chunks[..m] == chunks;
    }
  }

  /** Enough chunks to hold the content, and no more than needed. */
  lemma {:induction false} ChunkCount(content: seq<byte>, size: nat)
    requires size > 0
    ensures var n := |Chunks(content, size)|;
            |content| <= size * n && (n > 1 ==> size * (n - 1) < |content|)
    decreases |content|
  {
    if |content| > size {
      var n := |Chunks(content[size..], size)|;
      ChunkCount(content[size..], size);
      Times(size, n + 1);
      Times(size, n);
    }
  }

  /** An input that does not come back: one byte more than 2^24, one byte per frame. */
  lemma TooManyFrames(c: Codecs, d: FrameDecoder, content: seq<byte>)
    requires |content| == 0x100_0001
    ensures var opts := EncodeOptions(RAW, 1, false);
            && EncodedBytes(c, content, opts).Ok?
            && DecodeBody(c, d, EncodedBytes(c, content, opts).value) != Ok(content)
  {
    hide Chunks, DecodeBody, Stream;
    var opts := EncodeOptions(RAW, 1, false);
    ChunkCount(content, 1);
    RawEncodes(c, Chunks(content, 1));
    HeaderFormRoundTrip(c, d, content, opts);
  }

  lemma {:induction false} RawEncodes(c: Codecs, chunks: seq<seq<byte>>)
    ensures EncodeFrames(c, RAW, chunks).Ok?
  {
    if |chunks| > 0 {
      RawEncodes(c, chunks[..|chunks| - 1]);
    }
  }

  lemma BodySize(c: Codecs, mode: byte, chunk: seq<byte>)
    requires EncodeFrame(c, mode, chunk).Ok?
    ensures |EncodeFrame(c, mode, chunk).value| <= 1 + |chunk|
  {
  }

  lemma SomethingLeft(chunks: seq<seq<byte>>, m: nat)
    requires m < |chunks|
    requires |chunks[|chunks| - 1]| > 0
    ensures |Concat(chunks[m..])| > 0
  {
    var last := |chunks| - 1 - m;
    ConcatPiece(chunks[m..], last);
  }

  /** The header-less form decodes to the content; its only frame may be of any size. */
  lemma BareFormRoundTrip(c: Codecs, d: FrameDecoder, content: seq<byte>, opts: EncodeOptions)
    requires opts.SingleFrameNoHeader && EncodedBytes(c, content, opts).Ok?
    requires Undoable(c, opts, content)
    ensures DecodeBody(c, d, EncodedBytes(c, content, opts).value) == Ok(content)
  {
    hide EncodeFrame, DecodeFrame, BE32, LE32, BE, LE, Faithful;
    var body := EncodeFrame(c, ModeOf(opts), content).value;
    var s := BareStream(body);
    assert At(s, 0, 4) == LE(BLTE_SIGNATURE, 4);
    assert At(s, 4, 4) == [0, 0, 0, 0];
    FieldLE32(BLTE_SIGNATURE);
    ZeroField();
    assert s[8..] == body;
    FrameRoundTrip(c, d, ModeOf(opts), content, Frame(0, Wrap(|s| - 8), 0, ZERO_KEY));
  }

  lemma ZeroField()
    ensures BE32([0, 0, 0, 0]) == 0
  {
    FieldBE32(0);
    assert BE(0, 4) == [0, 0, 0, 0];
  }
}
