// Functions of other libraries that the formats only call: digests and codecs.

module Environment {
  import opened Words
  import opened Wrappers
  import opened Bytes

  type Decoder = (seq<byte>, nat) -> Result<seq<byte>>

  datatype Codecs = Codecs(
    md5: seq<byte> -> Key,
    hashLittle: (seq<byte>, u32) -> u32,
    hashLittle2: (seq<byte>, u32, u32) -> (u32, u32),
    deflate: seq<byte> -> Result<seq<byte>>,
    inflate: Decoder,
    unbzip2: Decoder,
    lzma: Option<Decoder>)
}
