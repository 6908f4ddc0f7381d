// internal/datafile: BLTE streams. A content is cut into frames, each stored
// raw or deflated behind a mode byte; a header lists the frame sizes and
// digests. Format, writer and reader.

module Blte {
  import opened Words
  import opened Wrappers
  import opened Seqs
  import opened Bytes
  import opened Environment

  const BLTE_SIGNATURE: nat := 0x45544C42

  // Mode bytes 'N', 'Z', 'E' and 'F'.
  const RAW: byte := 0x4E
  const ZLIB: byte := 0x5A
  const ENCRYPTED: byte := 0x45
  const RECURSIVE: byte := 0x46

  const DEFAULT_FRAME_SIZE: nat := 256 * 1024

  datatype EncodeOptions = EncodeOptions(Mode: byte, FrameSize: int, SingleFrameNoHeader: bool)

  datatype Encoded = Encoded(blte: seq<byte>, ckey: Key, ekey: Key)

  datatype Frame = Frame(Index: nat, EncodedSize: u32, ContentSize: u32, FrameHash: Key)

  datatype Header = Header(HeaderSize: u32, FrameCount: u32, Frames: seq<Frame>, DataOffset: nat)

  // ---- the format ----

  /** The content cut every size bytes; always at least one piece. */
  function Chunks(content: seq<byte>, size: nat): (cs: seq<seq<byte>>)
    requires size > 0
    ensures |cs| > 0
  {
    if |content| <= size then [content] else [content[..size]] + Chunks(content[size..], size)
  }

  /** encodeFrame: mode byte and payload; deflate is dropped when it does not shrink. */
  function EncodeFrame(c: Codecs, mode: byte, chunk: seq<byte>): Result<seq<byte>> {
    if mode == RAW then Ok([RAW] + chunk)
    else if mode == ZLIB then
      match c.deflate(chunk)
      case Err(e) => Err(e)
      case Ok(zb) => if |zb| >= |chunk| then Ok([RAW] + chunk) else Ok([ZLIB] + zb)
    else Err(NotSupported)
  }

  /** The frames of all chunks, or the error of the first chunk that has one. */
  function EncodeFrames(c: Codecs, mode: byte, chunks: seq<seq<byte>>): (r: Result<seq<seq<byte>>>)
    ensures r.Ok? ==> |r.value| == |chunks|
  {
    if |chunks| == 0 then Ok([]) else
      var n := |chunks| - 1;
      match EncodeFrames(c, mode, chunks[..n])
      case Err(e) => Err(e)
      case Ok(bodies) =>
        match EncodeFrame(c, mode, chunks[n])
        case Err(e) => Err(e)
        case Ok(body) => Ok(bodies + [body])
  }

  function TableEntry(c: Codecs, chunk: seq<byte>, body: seq<byte>): (e: seq<byte>)
    ensures |e| == 24
  {
    BE(|body|, 4) + BE(|chunk|, 4) + c.md5(body)
  }

  function TableEntries(c: Codecs, chunks: seq<seq<byte>>, bodies: seq<seq<byte>>): (t: seq<seq<byte>>)
    requires |chunks| == |bodies|
    ensures |t| == |chunks| && AllOfLength(t, 24)
  {
    seq(|chunks|, i requires 0 <= i < |chunks| => TableEntry(c, chunks[i], bodies[i]))
  }

  function FixedHeader(n: nat): (h: seq<byte>)
    ensures |h| == 12
  {
    LE(BLTE_SIGNATURE, 4) + BE(12 + 24 * n, 4) + [0x0F] + BE(n, 3)
  }

  function Stream(c: Codecs, chunks: seq<seq<byte>>, bodies: seq<seq<byte>>): seq<byte>
    requires |chunks| == |bodies|
  {
    FixedHeader(|bodies|) + Concat(TableEntries(c, chunks, bodies)) + Concat(bodies)
  }

  /** The form without a frame table: header size 0, then the only frame. */
  function BareStream(body: seq<byte>): seq<byte> {
    LE(BLTE_SIGNATURE, 4) + [0, 0, 0, 0] + body
  }

  function FrameSizeOf(opts: EncodeOptions): (n: nat)
    ensures n > 0
  {
    if opts.FrameSize <= 0 then DEFAULT_FRAME_SIZE else opts.FrameSize
  }

  function ModeOf(opts: EncodeOptions): byte { if opts.Mode == 0 then ZLIB else opts.Mode }

  function EncodedBytes(c: Codecs, content: seq<byte>, opts: EncodeOptions): Result<seq<byte>> {
    var mode := ModeOf(opts);
    if mode != RAW && mode != ZLIB then Err(NotSupported)
    else if opts.SingleFrameNoHeader then
      match EncodeFrame(c, mode, content)
      case Err(e) => Err(e)
      case Ok(body) => Ok(BareStream(body))
    else
      var chunks := Chunks(content, FrameSizeOf(opts));
      match EncodeFrames(c, mode, chunks)
      case Err(e) => Err(e)
      case Ok(bodies) => Ok(Stream(c, chunks, bodies))
  }

  // ---- the writer ----

  /** The chunk loop over a moving offset. */
  method CutChunks(content: seq<byte>, size: nat) returns (chunks: seq<seq<byte>>)
    requires size > 0
    ensures chunks == Chunks(content, size)
  {
    if |content| == 0 {
      return [[]];
    }
    chunks := [];
    var off := 0;
    while off < |content|
      invariant 0 <= off
      invariant off < |content| ==> chunks + Chunks(content[off..], size) == Chunks(content, size)
      invariant off >= |content| ==> chunks == Chunks(content, size)
    {
      var end := off + size;
      if end > |content| {
        end := |content|;
      }
      assert content[off..][..end - off] == content[off..end];
      if off + size < |content| {
        assert content[off..][size..] == content[off + size..];
      } else {
        assert content[off..end] == content[off..];
      }
      chunks := chunks + [content[off..end]];
      off := off + size;
    }
  }

  method Encode(c: Codecs, content: seq<byte>, opts: EncodeOptions) returns (r: Result<Encoded>)
    ensures EncodedBytes(c, content, opts).Err? ==> r == Err(EncodedBytes(c, content, opts).error)
    ensures EncodedBytes(c, content, opts).Ok? ==>
      var out := EncodedBytes(c, content, opts).value;
      r == Ok(Encoded(out, c.md5(content), c.md5(out)))
  {
    hide EncodeFrame, EncodeFrames, Chunks, Stream, BareStream, Concat;
    var frameSize, mode := FrameSizeOf(opts), ModeOf(opts);
    if mode != RAW && mode != ZLIB {
      return Err(NotSupported);
    }
    var ckey := c.md5(content);
    if opts.SingleFrameNoHeader {
      var body := EncodeFrame(c, mode, content);
      if body.Err? {
        return Err(body.error);
      }
      var out := WriteBareStream(body.value);
      return Ok(Encoded(out, ckey, c.md5(out)));
    }
    var chunks := CutChunks(content, frameSize);
    var bodies, total := EncodeAll(c, mode, chunks);
    if bodies.Err? {
      return Err(bodies.error);
    }
    var out := WriteStream(c, chunks, bodies.value, total);
    return Ok(Encoded(out, ckey, c.md5(out)));
  }

  /** The frame loop: encode every chunk and add up the sizes. */
  method EncodeAll(c: Codecs, mode: byte, chunks: seq<seq<byte>>)
      returns (r: Result<seq<seq<byte>>>, total: nat)
    ensures r == EncodeFrames(c, mode, chunks)
    ensures r.Ok? ==> total == 12 + 24 * |chunks| + |Concat(r.value)|
  {
    hide EncodeFrame;
    var bodies: seq<seq<byte>> := [];
    total := 12 + 24 * |chunks|;
    for i := 0 to |chunks|
      invariant EncodeFrames(c, mode, chunks[..i]) == Ok(bodies)
      invariant total == 12 + 24 * |chunks| + |Concat(bodies)|
    {
      assert chunks[..i + 1][..i] == chunks[..i];
      var body := EncodeFrame(c, mode, chunks[i]);
      if body.Err? {
        FirstError(c, mode, chunks, i);
        return Err(body.error), total;
      }
      assert (bodies + [body.value])[..|bodies|] == bodies;
      bodies := bodies + [body.value];
      total := total + |body.value|;
    }
    assert chunks[..|chunks|] == chunks;
    r := Ok(bodies);
  }

  method WriteBareStream(body: seq<byte>) returns (s: seq<byte>)
    ensures s == BareStream(body)
  {
    var out := new byte[8 + |body|](_ => 0);
    var off := Append(out, 0, LE(BLTE_SIGNATURE, 4));
    off := Append(out, off, [0, 0, 0, 0]);
    off := Append(out, off, body);
    s := out[..];
    assert s == out[..off];
  }

  /** The buffer: fixed header, frame table, then the frames through a cursor. */
  method WriteStream(c: Codecs, chunks: seq<seq<byte>>, bodies: seq<seq<byte>>, total: nat)
      returns (s: seq<byte>)
    requires |chunks| == |bodies|
    requires total == 12 + 24 * |chunks| + |Concat(bodies)|
    ensures s == Stream(c, chunks, bodies)
  {
    hide TableEntry, FixedHeader, Concat;
    ConcatLength(TableEntries(c, chunks, bodies), 24);
    var out := new byte[total](_ => 0);
    WriteFixedHeader(out, |bodies|);
    WriteTable(c, chunks, bodies, out);
    WriteFrames(bodies, out, 12 + 24 * |bodies|);
    s := out[..];
    assert s == out[..total];
  }

  method WriteFixedHeader(out: array<byte>, n: nat)
    requires out.Length >= 12
    modifies out
    ensures out[..12] == FixedHeader(n)
  {
    var headerSize := 12 + 24 * n;
    var off := Append(out, 0, LE(BLTE_SIGNATURE, 4));
    off := Append(out, off, BE(headerSize, 4));
    off := Append(out, off, [0x0F]);
    off := Append(out, off, BE(n, 3));
  }

  method WriteTable(c: Codecs, chunks: seq<seq<byte>>, bodies: seq<seq<byte>>, out: array<byte>)
    requires |chunks| == |bodies| && 12 + 24 * |bodies| <= out.Length
    modifies out
    ensures out[..12 + 24 * |bodies|] == old(out[..12]) + Concat(TableEntries(c, chunks, bodies))
  {
    hide TableEntry, Concat;
    ghost var entries := TableEntries(c, chunks, bodies);
    ghost var head := out[..12];
    NoPieces(entries);
    for i := 0 to |bodies|
      invariant out[..12 + 24 * i] == head + Concat(entries[..i])
    {
      ConcatSnoc(entries, i);
      var _ := Append(out, 12 + 24 * i, TableEntry(c, chunks[i], bodies[i]));
      Assoc(head, Concat(entries[..i]), entries[i]);
    }
    assert entries[..|bodies|] == entries;
  }

  method WriteFrames(bodies: seq<seq<byte>>, out: array<byte>, start: nat)
    requires start + |Concat(bodies)| == out.Length
    modifies out
    ensures out[..start + |Concat(bodies)|] == old(out[..start]) + Concat(bodies)
  {
    hide Concat;
    ghost var head := out[..start];
    var cursor := start;
    NoPieces(bodies);
    for i := 0 to |bodies|
      invariant cursor == start + |Concat(bodies[..i])| <= out.Length
      invariant out[..cursor] == head + Concat(bodies[..i])
    {
      ConcatPiece(bodies, i);
      ConcatSnoc(bodies, i);
      cursor := Append(out, cursor, bodies[i]);
      Assoc(head, Concat(bodies[..i]), bodies[i]);
    }
    assert bodies[..|bodies|] == bodies;
  }

  lemma {:induction false} FirstError(c: Codecs, mode: byte, chunks: seq<seq<byte>>, i: nat)
    requires i < |chunks|
    requires EncodeFrames(c, mode, chunks[..i]).Ok?
    requires EncodeFrame(c, mode, chunks[i]).Err?
    ensures EncodeFrames(c, mode, chunks) == Err(EncodeFrame(c, mode, chunks[i]).error)
    decreases |chunks|
  {
    if i == |chunks| - 1 {
    } else {
      var front := chunks[..|chunks| - 1];
      assert front[..i] == chunks[..i];
      FirstError(c, mode, front, i);
    }
  }
}
