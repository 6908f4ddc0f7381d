// internal/datafile/blte.go and the span decoder of internal/archive/archive.go:
// header parsing, frame decoding, and the 30-byte wrapper in front of a stream.

module BlteReader {
  import opened Words
  import opened Wrappers
  import opened Seqs
  import opened Bytes
  import opened Environment
  import opened Blte

  const ENCODED_HEADER_SIZE: nat := 30

  datatype FrameDecoder = FrameDecoder(Decrypt: Option<Decoder>, VerifyHashes: bool, OvercomeEncrypted: bool)

  // ---- headers ----

  function FrameAt(data: seq<byte>, i: nat): Frame
    requires 12 + 24 * i + 24 <= |data|
  {
    var off := 12 + 24 * i;
    Frame(i, BE32(At(data, off, 4)), BE32(At(data, off + 4, 4)), At(data, off + 8, 16))
  }

  function HeaderOf(data: seq<byte>): Result<Header> {
    if |data| < 8 || LE32(At(data, 0, 4)) != BLTE_SIGNATURE then Err(BadFormat) else
      var headerSize := BE32(At(data, 4, 4));
      if headerSize == 0 then Ok(Header(0, 1, [Frame(0, 0, 0, ZERO_KEY)], 8))
      else if headerSize < 12 || |data| < headerSize then Err(BadFormat)
      else if data[8] != 0x0F then Err(BadFormat)
      else
        var n := FrameCount(At(data, 9, 3));
        if 12 + 24 * n > headerSize then Err(BadFormat)
        else Ok(Header(headerSize, n, seq(n, i requires 0 <= i < n => FrameAt(data, i)), headerSize))
  }

  function FrameCount(s: seq<byte>): (n: u32)
    requires |s| == 3
    ensures n < 0x100_0000
  {
    Pow256Values();
    ReadBE(s)
  }

  method ParseHeader(data: seq<byte>) returns (r: Result<Header>)
    ensures r == HeaderOf(data)
  {
    hide BE32, LE32, FrameCount;
    if |data| < 8 {
      return Err(BadFormat);
    }
    if LE32(At(data, 0, 4)) != BLTE_SIGNATURE {
      return Err(BadFormat);
    }
    var headerSize := BE32(At(data, 4, 4));
    if headerSize == 0 {
      return Ok(Header(0, 1, [Frame(0, 0, 0, ZERO_KEY)], 8));
    }
    if headerSize < 12 || |data| < headerSize {
      return Err(BadFormat);
    }
    if data[8] != 0x0F {
      return Err(BadFormat);
    }
    var frameCount := FrameCount(At(data, 9, 3));
    if 12 + 24 * frameCount > headerSize {
      return Err(BadFormat);
    }
    var frames: seq<Frame> := [];
    for i := 0 to frameCount
      invariant frames == seq(i, k requires 0 <= k < i => FrameAt(data, k))
    {
      var off := 12 + 24 * i;
      frames := frames
        + [Frame(i, BE32(At(data, off, 4)), BE32(At(data, off + 4, 4)), At(data, off + 8, 16))];
    }
    r := Ok(Header(headerSize, frameCount, frames, headerSize));
  }

  // ---- frames ----

  predicate LooksLikeLZMA(b: seq<byte>) {
    || (|b| >= 6 && b[..6] == [0xFD, 0x37, 0x7A, 0x58, 0x5A, 0x00])
    || (|b| >= 13 && (b[0] as int) < 5 * 9 * 9 && 4096 <= LE32(At(b, 1, 4)) <= 0x4000_0000)
  }

  predicate LooksLikeBzip2(b: seq<byte>) { |b| >= 2 && b[0] == 0x42 && b[1] == 0x5A }

  function DecompressZ(c: Codecs, body: seq<byte>, expected: nat): Result<seq<byte>> {
    if LooksLikeBzip2(body) then c.unbzip2(body, expected)
    else if c.lzma.Some? && LooksLikeLZMA(body) then c.lzma.value(body, expected)
    else c.inflate(body, expected)
  }

  function DecodeStep(c: Codecs, d: FrameDecoder, fr: Frame, encoded: seq<byte>, depth: nat): Result<seq<byte>>
    decreases if depth > 4 then 0 else 5 - depth
  {
    if depth > 4 then Err(FileCorrupt)
    else if |encoded| == 0 then Err(BadFormat)
    else
      var mode, body := encoded[0], encoded[1..];
      if mode == RAW then Ok(body)
      else if mode == ZLIB then
        match DecompressZ(c, body, fr.ContentSize)
        case Err(e) => Err(e)
        case Ok(out) => Ok(if |out| < fr.ContentSize then out + Zeros(fr.ContentSize - |out|) else out)
      else if mode == ENCRYPTED then
        if d.Decrypt.None? then
          if d.OvercomeEncrypted then Ok(Zeros(fr.ContentSize)) else Err(Encrypted)
        else
          match d.Decrypt.value(body, fr.Index)
          case Err(e) =>
            if d.OvercomeEncrypted && e == Encrypted then Ok(Zeros(fr.ContentSize)) else Err(e)
          case Ok(decrypted) => DecodeStep(c, d, fr, decrypted, depth + 1)
      else Err(NotSupported)
  }

  /** One frame: digest check unless the header carries no digest, then the transforms. */
  function DecodeFrame(c: Codecs, d: FrameDecoder, fr: Frame, encoded: seq<byte>): Result<seq<byte>> {
    if d.VerifyHashes && fr.FrameHash != ZERO_KEY && c.md5(encoded) != fr.FrameHash then Err(FileCorrupt)
    else DecodeStep(c, d, fr, encoded, 0)
  }

  /** The frames from cursor on, in order; the first failure ends it. */
  function DecodeFrames(c: Codecs, d: FrameDecoder, frames: seq<Frame>, body: seq<byte>, cursor: nat):
      Result<seq<byte>>
  {
    if |frames| == 0 then Ok([]) else
      var end := cursor + frames[0].EncodedSize;
      if end > |body| then Err(FileCorrupt) else
        match DecodeFrame(c, d, frames[0], body[cursor..end])
        case Err(e) => Err(e)
        case Ok(first) =>
          match DecodeFrames(c, d, frames[1..], body, end)
          case Err(e) => Err(e)
          case Ok(rest) => Ok(first + rest)
  }

  // ---- spans ----

  /** The stream inside a span, with or without the 30-byte wrapper. */
  function StripEncodedHeader(span: seq<byte>): Result<seq<byte>> {
    if |span| < 4 then Err(BadFormat)
    else if LE32(At(span, 0, 4)) == BLTE_SIGNATURE then Ok(span)
    else if |span| < ENCODED_HEADER_SIZE + 4 then Err(BadFormat)
    else if LE32(At(span, ENCODED_HEADER_SIZE, 4)) != BLTE_SIGNATURE then Err(BadFormat)
    else Ok(span[ENCODED_HEADER_SIZE..])
  }

  function SpanDecoder(decrypt: Option<Decoder>, overcome: bool): FrameDecoder {
    FrameDecoder(decrypt, true, overcome)
  }

  function DecodeBody(c: Codecs, d: FrameDecoder, body: seq<byte>): Result<seq<byte>> {
    match HeaderOf(body)
    case Err(e) => Err(e)
    case Ok(hdr) =>
      if hdr.HeaderSize == 0 then
        DecodeFrame(c, d, Frame(0, Wrap(|body| - 8), 0, ZERO_KEY), body[8..])
      else DecodeFrames(c, d, hdr.Frames, body, hdr.DataOffset)
  }

  function SpanContent(c: Codecs, d: FrameDecoder, span: seq<byte>): Result<seq<byte>> {
    match StripEncodedHeader(span)
    case Err(e) => Err(e)
    case Ok(body) => DecodeBody(c, d, body)
  }

  method DecodeSpanWithOptions(c: Codecs, span: seq<byte>, keys: Option<Decoder>, overcome: bool)
      returns (r: Result<seq<byte>>)
    ensures r == SpanContent(c, SpanDecoder(keys, overcome), span)
  {
    hide StripEncodedHeader, DecodeFrame;
    var stripped := StripEncodedHeader(span);
    if stripped.Err? {
      return Err(stripped.error);
    }
    var body := stripped.value;
    var parsed := ParseHeader(body);
    if parsed.Err? {
      return Err(parsed.error);
    }
    var hdr := parsed.value;
    var dec := SpanDecoder(keys, overcome);
    if hdr.HeaderSize == 0 {
      var fr := hdr.Frames[0].(EncodedSize := Wrap(|body| - hdr.DataOffset));
      return DecodeFrame(c, dec, fr, body[hdr.DataOffset..]);
    }
    r := DecodeAll(c, dec, hdr.Frames, body, hdr.DataOffset);
  }

  /** The frame loop: a cursor over the body, one append per frame. */
  method DecodeAll(c: Codecs, dec: FrameDecoder, frames: seq<Frame>, body: seq<byte>, start: nat)
      returns (r: Result<seq<byte>>)
    requires start <= |body|
    ensures r == DecodeFrames(c, dec, frames, body, start)
  {
    hide DecodeFrame;
    var out: seq<byte> := [];
    var cursor: nat := start;
    ghost var whole := DecodeFrames(c, dec, frames, body, start);
    assert frames[0..] == frames;
    ResumesFromStart(whole);
    for i := 0 to |frames|
      invariant cursor <= |body|
      invariant Resumes(whole, out, DecodeFrames(c, dec, frames[i..], body, cursor))
    {
      var fr := frames[i];
      assert frames[i..][1..] == frames[i + 1..];
      var end := cursor + fr.EncodedSize;
      if end > |body| {
        return Err(FileCorrupt);
      }
      var decoded := DecodeFrame(c, dec, fr, body[cursor..end]);
      if decoded.Err? {
        return Err(decoded.error);
      }
      ghost var rest := DecodeFrames(c, dec, frames[i + 1..], body, end);
      if rest.Ok? {
        Assoc(out, decoded.value, rest.value);
      }
      out := out + decoded.value;
      cursor := end;
    }
    assert out + [] == out;
    r := Ok(out);
  }
}
