// The Salsa20 specification of D. J. Bernstein, sections 3 to 10: words,
// quarter, row, column and double rounds, the hash function, key expansion
// and encryption.

module Salsa20Spec {
  import opened Words
  import opened Bitwise
  import opened Bytes

  type Block = s: seq<u32> | |s| == 16
    witness [0, 0, 0, 0, 0, 0, 0, 0, 0, 0, 0, 0, 0, 0, 0, 0]

  /** Section 2: left rotation of a 32-bit word; the low bits move up, the high n bits come down. */
  function RotateLeft(x: u32, n: nat): u32
    requires n == 7 || n == 9 || n == 13 || n == 18
  {
    if n == 7 then x % 0x200_0000 * 0x80 + x / 0x200_0000
    else if n == 9 then x % 0x80_0000 * 0x200 + x / 0x80_0000
    else if n == 13 then x % 0x8_0000 * 0x2000 + x / 0x8_0000
    else x % 0x4000 * 0x4_0000 + x / 0x4000
  }

  /** y ^ ((a + b) <<< n) */
  function Mix(y: u32, a: u32, b: u32, n: nat): u32
    requires n == 7 || n == 9 || n == 13 || n == 18
  {
    XorWord(y, RotateLeft(Wrap(a + b), n))
  }

  datatype Quad = Quad(z0: u32, z1: u32, z2: u32, z3: u32)

  /** Section 3. */
  function QuarterRound(y0: u32, y1: u32, y2: u32, y3: u32): Quad {
    var z1 := Mix(y1, y0, y3, 7);
    var z2 := Mix(y2, z1, y0, 9);
    var z3 := Mix(y3, z2, z1, 13);
    var z0 := Mix(y0, z3, z2, 18);
    Quad(z0, z1, z2, z3)
  }

  /** Section 4. */
  function RowRound(y: Block): Block {
    hide QuarterRound;
    var a := QuarterRound(y[0], y[1], y[2], y[3]);
    var b := QuarterRound(y[5], y[6], y[7], y[4]);
    var c := QuarterRound(y[10], y[11], y[8], y[9]);
    var d := QuarterRound(y[15], y[12], y[13], y[14]);
    [a.z0, a.z1, a.z2, a.z3, b.z3, b.z0, b.z1, b.z2, c.z2, c.z3, c.z0, c.z1, d.z1, d.z2, d.z3, d.z0]
  }

  /** Section 5. */
  function ColumnRound(x: Block): Block {
    hide QuarterRound;
    var a := QuarterRound(x[0], x[4], x[8], x[12]);
    var b := QuarterRound(x[5], x[9], x[13], x[1]);
    var c := QuarterRound(x[10], x[14], x[2], x[6]);
    var d := QuarterRound(x[15], x[3], x[7], x[11]);
    [a.z0, b.z3, c.z2, d.z1, a.z1, b.z0, c.z3, d.z2, a.z2, b.z1, c.z0, d.z3, a.z3, b.z2, c.z1, d.z0]
  }

  /** Section 6. */
  function DoubleRound(x: Block): Block { RowRound(ColumnRound(x)) }

  function Rounds(x: Block, n: nat): Block {
    if n == 0 then x else DoubleRound(Rounds(x, n - 1))
  }

  /** Sections 7 and 8: 64 bytes in, 64 bytes out. */
  function WordsOf(b: seq<byte>): Block
    requires |b| == 64
  {
    seq(16, i requires 0 <= i < 16 => LE32(At(b, 4 * i, 4)))
  }

  function Sums(x: Block, y: Block): Block {
    seq(16, i requires 0 <= i < 16 => Wrap((x[i] as nat) + y[i]))
  }

  function BytesOf(x: Block): (s: seq<byte>)
    ensures |s| == 64
  {
    seq(64, i requires 0 <= i < 64 => LE(x[i / 4], 4)[i % 4])
  }

  /** The output bytes of a block of input words after n double rounds. */
  function Scrambled(x: Block, n: nat): (s: seq<byte>)
    ensures |s| == 64
  {
    BytesOf(Sums(Rounds(x, n), x))
  }

  const DOUBLE_ROUNDS: nat := 10

  function Hash(b: seq<byte>): (s: seq<byte>)
    requires |b| == 64
    ensures |s| == 64
  {
    Scrambled(WordsOf(b), DOUBLE_ROUNDS)
  }

  // "expand 16-byte k" and "expand 32-byte k"
  const TAU: seq<byte> := [101, 120, 112, 97, 110, 100, 32, 49, 54, 45, 98, 121, 116, 101, 32, 107]
  const SIGMA: seq<byte> := [101, 120, 112, 97, 110, 100, 32, 51, 50, 45, 98, 121, 116, 101, 32, 107]

  predicate IsKey(k: seq<byte>) { |k| == 16 || |k| == 32 }

  /** Four constant words around two key halves and the nonce block. */
  function Spread(c: seq<byte>, k0: seq<byte>, n: seq<byte>, k1: seq<byte>): (s: seq<byte>)
    requires |c| == 16 && |k0| == 16 && |n| == 16 && |k1| == 16
    ensures |s| == 64
  {
    c[..4] + k0 + c[4..8] + n + c[8..12] + k1 + c[12..]
  }

  /** Section 9: a 32-byte key in halves, a 16-byte key twice. */
  function Expanded(k: seq<byte>, n: seq<byte>): (s: seq<byte>)
    requires IsKey(k) && |n| == 16
    ensures |s| == 64
  {
    if |k| == 16 then Spread(TAU, k, n, k) else Spread(SIGMA, k[..16], n, k[16..])
  }

  /** Section 10: byte i of the key stream; the block number is the low half of the nonce block. */
  function StreamByte(k: seq<byte>, v: seq<byte>, i: nat): byte
    requires IsKey(k) && |v| == 8
  {
    Hash(Expanded(k, v + LE(i / 64, 8)))[i % 64]
  }

  function Encrypted(k: seq<byte>, v: seq<byte>, m: seq<byte>): (s: seq<byte>)
    requires IsKey(k) && |v| == 8
    ensures |s| == |m|
  {
    seq(|m|, i requires 0 <= i < |m| => XorByte(m[i], StreamByte(k, v, i)))
  }

  /** Encryption undoes itself, whatever the length. */
  lemma EncryptTwice(k: seq<byte>, v: seq<byte>, m: seq<byte>)
    requires IsKey(k) && |v| == 8
    ensures Encrypted(k, v, Encrypted(k, v, m)) == m
  {
    hide StreamByte, XorByte;
    forall i | 0 <= i < |m|
      ensures Encrypted(k, v, Encrypted(k, v, m))[i] == m[i]
    {
      XorBack(m[i], StreamByte(k, v, i));
    }
  }

  lemma XorBack(a: byte, b: byte)
    ensures XorByte(XorByte(a, b), b) == a
  {
    XorCommutes(a, b);
    XorCommutes(Xor(b, a), b);
    XorTwice(b, a);
  }

  lemma {:induction false} XorCommutes(a: nat, b: nat)
    ensures Xor(a, b) == Xor(b, a)
  {
    if a > 0 && b > 0 {
      XorCommutes(a / 2, b / 2);
    }
  }

  /** Under one key and nonce the stream cancels: two ciphertexts differ by what their messages differ, byte by byte. */
  lemma SameStream(k: seq<byte>, v: seq<byte>, m: seq<byte>, other: seq<byte>)
    requires IsKey(k) && |v| == 8
    ensures forall i :: 0 <= i < |m| && i < |other| ==>
              XorByte(Encrypted(k, v, m)[i], Encrypted(k, v, other)[i]) == XorByte(m[i], other[i])
  {
    hide StreamByte, XorByte;
    forall i | 0 <= i < |m| && i < |other|
      ensures XorByte(Encrypted(k, v, m)[i], Encrypted(k, v, other)[i]) == XorByte(m[i], other[i])
    {
      StreamCancels(m[i], other[i], StreamByte(k, v, i));
    }
  }

  lemma StreamCancels(a: byte, b: byte, s: byte)
    ensures XorByte(XorByte(a, s), XorByte(b, s)) == XorByte(a, b)
  {
    MaskCancels(a, b, s);
  }

  lemma {:induction false} MaskCancels(a: nat, b: nat, s: nat)
    ensures Xor(Xor(a, s), Xor(b, s)) == Xor(a, b)
    decreases a + b + s
  {
    if a + b + s > 0 {
      MaskCancels(a / 2, b / 2, s / 2);
      XorHalf(a, s);
      XorHalf(b, s);
      XorHalf(Xor(a, s), Xor(b, s));
      XorHalf(a, b);
      SameBit(a, b, s, Xor(a, s), Xor(b, s));
      SameDigits(Xor(Xor(a, s), Xor(b, s)), Xor(a, b));
    }
  }

  lemma SameBit(a: nat, b: nat, s: nat, x: nat, y: nat)
    requires x % 2 == (a + s) % 2 && y % 2 == (b + s) % 2
    ensures (x + y) % 2 == (a + b) % 2
  {
  }

  /** The definitions above give the first example of section 3. */
  lemma QuarterExample()
    ensures QuarterRound(1, 0, 0, 0) == Quad(0x08008145, 0x00000080, 0x00010200, 0x20500000)
  {
    assert Mix(0, 1, 0, 7) == 0x80;
    assert Mix(0, 0x80, 1, 9) == 0x10200;
    assert Mix(0, 0x10200, 0x80, 13) == 0x20500000;
    assert Mix(1, 0x20500000, 0x10200, 18) == 0x08008145;
  }
}
