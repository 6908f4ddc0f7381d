// internal/decrypt/salsa20.go: the stream cipher as written, in place on word
// and byte buffers, against its specification.

module Salsa20 {
  import opened Words
  import opened Bitwise
  import opened Bytes
  import opened Salsa20Spec

  /** rol32: (x << n) | (x >> (32 - n)) */
  function Rol32(x: u32, n: nat): (r: u32)
    requires n == 7 || n == 9 || n == 13 || n == 18
    ensures r == RotateLeft(x, n)
  {
    RolIsRotation(x, n);
    Or(Wrap(ShiftLeft(x, n)), High(x, 32 - n))
  }

  /** Shifting both ways and or-ing is a rotation. */
  lemma RolIsRotation(x: u32, n: nat)
    requires n == 7 || n == 9 || n == 13 || n == 18
    ensures Or(Wrap(ShiftLeft(x, n)), High(x, 32 - n)) == RotateLeft(x, n)
  {
    hide Or, ShiftLeft, High;
    Powers();
    ShiftValue(x, n);
    var up, down := Power2(n), Power2(32 - n);
    var low := x % down;
    SplitShift(x, n);
    ShiftValue(low, n);
    HighBelow(x, n);
    OrAdds(low, High(x, 32 - n), n);
  }

  lemma Powers()
    ensures Power2(7) == 0x80 && Power2(9) == 0x200 && Power2(13) == 0x2000 && Power2(18) == 0x4_0000
    ensures Power2(25) == 0x200_0000 && Power2(23) == 0x80_0000 && Power2(19) == 0x8_0000 && Power2(14) == 0x4000
  {
    assert Power2(5) == 0x20;
    assert Power2(10) == 0x400;
    assert Power2(14) == 0x4000;
    assert Power2(18) == 0x4_0000;
    assert Power2(22) == 0x40_0000;
  }

  /** The bits shifted out do not matter. */
  lemma SplitShift(x: u32, n: nat)
    requires n == 7 || n == 9 || n == 13 || n == 18
    ensures Wrap(x * Power2(n)) == x % Power2(32 - n) * Power2(n)
  {
    hide Power2;
    Powers();
    ShiftedOut(x, Power2(n), Power2(32 - n));
  }

  lemma ShiftedOut(x: nat, up: nat, down: nat)
    requires up > 0 && down > 0 && down * up == TWO32
    ensures x * up % TWO32 == x % down * up
  {
    var q, r := x / down, x % down;
    assert x == down * q + r;
    assert x * up == TWO32 * q + r * up by {
      TimesSum(down, q, r, up);
    }
    Below(r, down, up);
    Quotient(x * up, TWO32, q, r * up);
  }

  lemma TimesSum(a: nat, b: nat, c: nat, d: nat)
    ensures (a * b + c) * d == a * d * b + c * d
  {
  }

  lemma Below(r: nat, m: nat, k: nat)
    requires r < m && k > 0
    ensures r * k < m * k
  {
  }

  lemma HighBelow(x: u32, n: nat)
    requires n == 7 || n == 9 || n == 13 || n == 18
    ensures High(x, 32 - n) == x / Power2(32 - n) < Power2(n)
  {
    Powers();
  }

  // ---- one block ----

  /** y ^= rol32(a + b, n) */
  function Updated(y: u32, a: u32, b: u32, n: nat): (r: u32)
    requires n == 7 || n == 9 || n == 13 || n == 18
    ensures r == Mix(y, a, b, n)
  {
    hide XorWord, RotateLeft, Rol32;
    XorWord(y, Rol32(Wrap(a + b), n))
  }

  /** Four updates in place, one quarter of a row or column round. */
  method QuarterInPlace(x: array<u32>, a: nat, b: nat, c: nat, d: nat)
    requires x.Length == 16 && a < 16 && b < 16 && c < 16 && d < 16
    requires a != b && a != c && a != d && b != c && b != d && c != d
    modifies x
    ensures QuarterRound(old(x[a]), old(x[b]), old(x[c]), old(x[d])) == Quad(x[a], x[b], x[c], x[d])
    ensures forall k :: 0 <= k < 16 && k != a && k != b && k != c && k != d ==> x[k] == old(x[k])
  {
    hide Mix, Updated;
    x[b] := Updated(x[b], x[a], x[d], 7);
    x[c] := Updated(x[c], x[b], x[a], 9);
    x[d] := Updated(x[d], x[c], x[b], 13);
    x[a] := Updated(x[a], x[d], x[c], 18);
  }

  method ColumnRoundInPlace(x: array<u32>)
    requires x.Length == 16
    modifies x
    ensures x[..] == ColumnRound(old(x[..]))
  {
    hide QuarterRound;
    ghost var y: Block := x[..];
    QuarterInPlace(x, 0, 4, 8, 12);
    QuarterInPlace(x, 5, 9, 13, 1);
    QuarterInPlace(x, 10, 14, 2, 6);
    QuarterInPlace(x, 15, 3, 7, 11);
    assert x[..] == [x[0], x[1], x[2], x[3], x[4], x[5], x[6], x[7], x[8], x[9], x[10], x[11], x[12], x[13], x[14], x[15]];
  }

  method RowRoundInPlace(x: array<u32>)
    requires x.Length == 16
    modifies x
    ensures x[..] == RowRound(old(x[..]))
  {
    hide QuarterRound;
    ghost var y: Block := x[..];
    QuarterInPlace(x, 0, 1, 2, 3);
    QuarterInPlace(x, 5, 6, 7, 4);
    QuarterInPlace(x, 10, 11, 8, 9);
    QuarterInPlace(x, 15, 12, 13, 14);
    assert x[..] == [x[0], x[1], x[2], x[3], x[4], x[5], x[6], x[7], x[8], x[9], x[10], x[11], x[12], x[13], x[14], x[15]];
  }

  /** salsa20Block: ten double rounds on a copy of the state, then the sums as bytes. */
  method Salsa20Block(out: array<byte>, state: array<u32>)
    requires out.Length == 64 && state.Length == 16
    modifies out
    ensures out[..] == Scrambled(state[..], DOUBLE_ROUNDS)
  {
    hide RowRound, ColumnRound, LE;
    var x := new u32[16](i requires 0 <= i < 16 reads state => state[i]);
    ghost var s: Block := state[..];
    assert x[..] == s;
    for i := 0 to DOUBLE_ROUNDS
      invariant x[..] == Rounds(s, i)
      invariant state[..] == s
    {
      ColumnRoundInPlace(x);
      RowRoundInPlace(x);
    }
    ghost var sums := Sums(Rounds(s, DOUBLE_ROUNDS), s);
    for i := 0 to 16
      invariant state[..] == s && x[..] == Rounds(s, DOUBLE_ROUNDS)
      invariant out[..4 * i] == BytesOf(sums)[..4 * i]
    {
      NextFour(sums, i);
      var _ := Append(out, 4 * i, LE(Wrap((x[i] as nat) + state[i]), 4));
    }
    assert out[..] == out[..64];
  }

  lemma NextFour(x: Block, i: nat)
    requires i < 16
    ensures BytesOf(x)[..4 * i] + LE(x[i], 4) == BytesOf(x)[..4 * i + 4]
  {
    hide LE;
  }

  // ---- the cipher ----

  function KeyHalf(key: seq<byte>, second: bool): (h: seq<byte>)
    requires IsKey(key)
    ensures |h| == 16
  {
    if |key| == 16 then key else if second then key[16..] else key[..16]
  }

  function Constants(key: seq<byte>): (c: seq<byte>)
    ensures |c| == 16
  {
    if |key| == 16 then TAU else SIGMA
  }

  function WordAt(s: seq<byte>, off: nat): u32
    requires off + 4 <= |s|
  {
    LE32(At(s, off, 4))
  }

  /** State word i for a block number. */
  function StateWord(key: seq<byte>, nonce: seq<byte>, block: nat, i: nat): u32
    requires IsKey(key) && |nonce| == 8 && i < 16
  {
    if i % 5 == 0 then WordAt(Constants(key), 4 * (i / 5))
    else if i < 5 then WordAt(KeyHalf(key, false), 4 * (i - 1))
    else if i < 8 then WordAt(nonce, 4 * (i - 6))
    else if i == 8 then Wrap(block)
    else if i == 9 then Wrap(block / 0x1_0000_0000)
    else WordAt(KeyHalf(key, true), 4 * (i - 11))
  }

  function StateFor(key: seq<byte>, nonce: seq<byte>, block: nat): Block
    requires IsKey(key) && |nonce| == 8
  {
    seq(16, i requires 0 <= i < 16 => StateWord(key, nonce, block, i))
  }

  /** The words of the specification's expansion are the state the cipher keeps. */
  lemma StateIsExpansion(key: seq<byte>, nonce: seq<byte>, block: nat)
    requires IsKey(key) && |nonce| == 8
    ensures WordsOf(Expanded(key, nonce + LE(block, 8))) == StateFor(key, nonce, block)
  {
    hide LE32, LE;
    var n := nonce + LE(block, 8);
    var c, k0, k1 := Constants(key), KeyHalf(key, false), KeyHalf(key, true);
    var e := Expanded(key, n);
    assert e == Spread(c, k0, n, k1);
    CounterWords(block);
    forall i | 0 <= i < 16
      ensures LE32(At(e, 4 * i, 4)) == StateWord(key, nonce, block, i)
    {
      SpreadWord(c, k0, n, k1, i);
      if 6 <= i < 8 {
        assert At(n, 4 * (i - 6), 4) == At(nonce, 4 * (i - 6), 4);
      } else if 8 <= i < 10 {
        assert At(n, 4 * (i - 6), 4) == At(LE(block, 8), 4 * (i - 8), 4);
      }
    }
  }

  lemma SpreadWord(c: seq<byte>, k0: seq<byte>, n: seq<byte>, k1: seq<byte>, i: nat)
    requires |c| == 16 && |k0| == 16 && |n| == 16 && |k1| == 16 && i < 16
    ensures At(Spread(c, k0, n, k1), 4 * i, 4)
         == if i % 5 == 0 then At(c, 4 * (i / 5), 4)
            else if i < 5 then At(k0, 4 * (i - 1), 4)
            else if i < 10 then At(n, 4 * (i - 6), 4)
            else At(k1, 4 * (i - 11), 4)
  {
    var e := Spread(c, k0, n, k1);
    var p3 := c[..4] + k0 + c[4..8];
    var p5 := p3 + n + c[8..12];
    assert Has(e, 0, e);
    HasTwo(e, 0, p5 + k1, c[12..]);
    HasTwo(e, 0, p5, k1);
    HasTwo(e, 0, p3 + n, c[8..12]);
    HasTwo(e, 0, p3, n);
    HasTwo(e, 0, c[..4] + k0, c[4..8]);
    HasTwo(e, 0, c[..4], k0);
    hide Spread, Has, At;
    if i % 5 == 0 {
      ConstantPiece(e, c, i);
    } else if i < 5 {
      PieceWord(e, 4, k0, i - 1);
    } else if i < 10 {
      PieceWord(e, 24, n, i - 6);
    } else {
      PieceWord(e, 44, k1, i - 11);
    }
  }

  lemma PieceWord(e: seq<byte>, off: nat, piece: seq<byte>, j: nat)
    requires Has(e, off, piece) && |piece| == 16 && j < 4
    ensures off + 4 * j + 4 <= |e| && At(e, off + 4 * j, 4) == At(piece, 4 * j, 4)
  {
    PartOfPiece(e, off, piece, 4 * j, 4);
  }

  lemma ConstantPiece(e: seq<byte>, c: seq<byte>, i: nat)
    requires |c| == 16 && i < 16 && i % 5 == 0
    requires Has(e, 0, c[..4]) && Has(e, 20, c[4..8]) && Has(e, 40, c[8..12]) && Has(e, 60, c[12..])
    ensures |e| >= 64 && At(e, 4 * i, 4) == At(c, 4 * (i / 5), 4)
  {
    assert i == 0 || i == 5 || i == 10 || i == 15;
    assert c[12..] == c[12..16];
  }

  lemma CounterWords(block: nat)
    ensures LE32(At(LE(block, 8), 0, 4)) == Wrap(block)
    ensures LE32(At(LE(block, 8), 4, 4)) == Wrap(block / 0x1_0000_0000)
  {
    LEPrefix(block, 8, 4);
    FieldLE32(block);
    FieldLE32(block / 0x1_0000_0000);
    assert At(LE(block, 8), 0, 4) == LE(block, 8)[..4];
    LESuffix(block, 8, 4);
    Pow256Values();
    assert At(LE(block, 8), 4, 4) == LE(block, 8)[4..];
  }

  lemma {:induction false} LESuffix(v: nat, n: nat, m: nat)
    requires m <= n
    ensures LE(v, n)[m..] == LE(v / Pow256(m), n - m)
  {
    if m > 0 {
      LESuffix(v / 256, n - 1, m - 1);
      DivideTwice(v, Pow256(m - 1));
      assert LE(v, n)[m..] == LE(v / 256, n - 1)[m - 1..];
    }
  }

  lemma DivideTwice(v: nat, p: nat)
    requires p > 0
    ensures v / 256 / p == v / (256 * p)
  {
    var q := v / 256;
    var k, r := q / p, q % p;
    ScaleOut(p, k);
    assert v == 256 * p * k + (256 * r + v % 256);
    Quotient(v, 256 * p, k, 256 * r + v % 256);
  }

  /** Key, nonce and block number laid out as the state's words. */
  method SetUp(key: seq<byte>, nonce: seq<byte>) returns (state: array<u32>)
    requires IsKey(key) && |nonce| == 8
    ensures fresh(state) && state.Length == 16
    ensures state[..] == StateFor(key, nonce, 0)
  {
    hide WordAt, StateWord;
    var consts, keyIndex := if |key| == 16 then TAU else SIGMA, if |key| == 16 then 0 else 16;
    state := new u32[16](_ => 0);
    SetUpFront(state, consts, key, nonce);
    SetUpBack(state, consts, key, nonce, keyIndex);
  }

  method SetUpFront(state: array<u32>, consts: seq<byte>, key: seq<byte>, nonce: seq<byte>)
    requires IsKey(key) && |nonce| == 8 && state.Length == 16
    requires consts == Constants(key)
    modifies state
    ensures forall i :: 0 <= i < 8 ==> state[i] == StateWord(key, nonce, 0, i)
  {
    hide WordAt, KeyHalf;
    KeyWords(key);
    state[0] := WordAt(consts, 0);
    state[1] := WordAt(key, 0);
    state[2] := WordAt(key, 4);
    state[3] := WordAt(key, 8);
    state[4] := WordAt(key, 12);
    state[5] := WordAt(consts, 4);
    state[6] := WordAt(nonce, 0);
    state[7] := WordAt(nonce, 4);
  }

  method SetUpBack(state: array<u32>, consts: seq<byte>, key: seq<byte>, nonce: seq<byte>, keyIndex: nat)
    requires IsKey(key) && |nonce| == 8 && state.Length == 16
    requires consts == Constants(key) && keyIndex == if |key| == 16 then 0 else 16
    modifies state
    ensures forall i :: 0 <= i < 8 ==> state[i] == old(state[i])
    ensures forall i :: 8 <= i < 16 ==> state[i] == StateWord(key, nonce, 0, i)
  {
    hide WordAt, KeyHalf;
    KeyWords(key);
    state[8] := 0;
    state[9] := 0;
    state[10] := WordAt(consts, 8);
    state[11] := WordAt(key, keyIndex + 0);
    state[12] := WordAt(key, keyIndex + 4);
    state[13] := WordAt(key, keyIndex + 8);
    state[14] := WordAt(key, keyIndex + 12);
    state[15] := WordAt(consts, 12);
  }

  lemma KeyWords(key: seq<byte>)
    requires IsKey(key)
    ensures var k := if |key| == 16 then 0 else 16;
            forall j :: 0 <= j <= 12 ==>
              WordAt(key, j) == WordAt(KeyHalf(key, false), j) && WordAt(key, k + j) == WordAt(KeyHalf(key, true), j)
  {
    hide LE32;
    var k := if |key| == 16 then 0 else 16;
    forall j | 0 <= j <= 12
      ensures WordAt(key, j) == WordAt(KeyHalf(key, false), j) && WordAt(key, k + j) == WordAt(KeyHalf(key, true), j)
    {
      assert At(key, j, 4) == At(KeyHalf(key, false), j, 4);
      assert At(key, k + j, 4) == At(KeyHalf(key, true), j, 4);
    }
  }

  /** The counter words after one more block. */
  lemma NextCounter(j: nat)
    ensures Wrap(j + 1) == Wrap(Wrap(j) + 1)
    ensures Wrap((j + 1) / 0x1_0000_0000)
         == if Wrap(j + 1) == 0 then Wrap(Wrap(j / 0x1_0000_0000) + 1) else Wrap(j / 0x1_0000_0000)
  {
    if Wrap(j + 1) == 0 {
      assert (j + 1) / 0x1_0000_0000 == j / 0x1_0000_0000 + 1;
    } else {
      assert (j + 1) / 0x1_0000_0000 == j / 0x1_0000_0000;
    }
  }

  method CountUp(state: array<u32>, key: seq<byte>, nonce: seq<byte>, ghost j: nat)
    requires IsKey(key) && |nonce| == 8 && state.Length == 16 && state[..] == StateFor(key, nonce, j)
    modifies state
    ensures state[..] == StateFor(key, nonce, j + 1)
  {
    hide WordAt, KeyHalf, Constants;
    assert state[8] == StateWord(key, nonce, j, 8) && state[9] == StateWord(key, nonce, j, 9);
    NextCounter(j);
    ghost var before := state[..];
    state[8] := Wrap((state[8] as nat) + 1);
    if state[8] == 0 {
      state[9] := Wrap((state[9] as nat) + 1);
    }
    forall i | 0 <= i < 16
      ensures state[i] == StateWord(key, nonce, j + 1, i)
    {
      if i != 8 && i != 9 {
        assert state[i] == before[i] == StateWord(key, nonce, j, i);
      }
    }
  }

  predicate Misused(dst: nat, src: nat, key: seq<byte>, nonce: seq<byte>) {
    dst < src || |nonce| != 8 || !IsKey(key)
  }

  /**
   * salsa20XOR: panics on a short destination or a wrong key or nonce size, and otherwise writes the
   * encryption of src to dst, also when both are the same buffer.
   */
  method Salsa20XOR(dst: array<byte>, src: array<byte>, key: seq<byte>, nonce: seq<byte>) returns (panicked: bool)
    modifies dst
    ensures panicked == Misused(dst.Length, src.Length, key, nonce)
    ensures panicked ==> dst[..] == old(dst[..])
    ensures !panicked ==> dst[..src.Length] == Encrypted(key, nonce, old(src[..]))
    ensures !panicked ==> dst[src.Length..] == old(dst[src.Length..])
  {
    hide Encrypted;
    if dst.Length < src.Length || |nonce| != 8 || !IsKey(key) {
      return true;
    }
    XorAll(dst, src, key, nonce);
    panicked := false;
  }

  /** The block loop. */
  method XorAll(dst: array<byte>, src: array<byte>, key: seq<byte>, nonce: seq<byte>)
    requires !Misused(dst.Length, src.Length, key, nonce)
    modifies dst
    ensures dst[..src.Length] == Encrypted(key, nonce, old(src[..]))
    ensures dst[src.Length..] == old(dst[src.Length..])
  {
    hide Encrypted, Scrambled, StateFor;
    EncryptedLength(key, nonce, src[..]);
    ghost var m, rest := src[..], dst[src.Length..];
    var state := SetUp(key, nonce);
    var block := new byte[64](_ => 0);
    var off, j := 0, 0;
    while off < src.Length
      invariant 0 <= off <= src.Length
      invariant off < src.Length ==> off == 64 * j
      invariant state[..] == StateFor(key, nonce, j)
      invariant dst[..off] == Encrypted(key, nonce, m)[..off]
      invariant src[off..] == m[off..]
      invariant dst[src.Length..] == rest
    {
      Salsa20Block(block, state);
      var n := if 64 > src.Length - off then src.Length - off else 64;
      XorBlock(dst, src, block, off, n, key, nonce, j, m);
      off := off + n;
      CountUp(state, key, nonce, j);
      j := j + 1;
    }
    assert dst[..src.Length] == dst[..off];
  }

  lemma EncryptedLength(key: seq<byte>, nonce: seq<byte>, m: seq<byte>)
    requires IsKey(key) && |nonce| == 8
    ensures |Encrypted(key, nonce, m)| == |m|
  {
  }

  /** One block of the message, byte by byte. */
  method XorBlock(dst: array<byte>, src: array<byte>, block: array<byte>, off: nat, n: nat,
      ghost key: seq<byte>, ghost nonce: seq<byte>, ghost j: nat, ghost m: seq<byte>)
    requires block != dst && block != src && block.Length == 64
    requires n <= 64 && off + n <= src.Length <= dst.Length
    requires IsKey(key) && |nonce| == 8 && off == 64 * j
    requires block[..] == Scrambled(StateFor(key, nonce, j), DOUBLE_ROUNDS)
    requires |m| == src.Length && src[off..] == m[off..]
    requires dst[..off] == Encrypted(key, nonce, m)[..off]
    modifies dst
    ensures dst[..off + n] == Encrypted(key, nonce, m)[..off + n]
    ensures src[off + n..] == m[off + n..]
    ensures dst[src.Length..] == old(dst[src.Length..])
  {
    hide Encrypted, Scrambled, StateFor, XorByte;
    EncryptedLength(key, nonce, m);
    ghost var rest, stream := dst[src.Length..], block[..];
    for i := 0 to n
      invariant block[..] == stream
      invariant dst[..off + i] == Encrypted(key, nonce, m)[..off + i]
      invariant forall k :: off + i <= k < src.Length ==> src[k] == m[k]
      invariant dst[src.Length..] == rest
    {
      NextByte(key, nonce, m, j, i);
      dst[off + i] := XorByte(src[off + i], block[i]);
      assert dst[..off + i + 1] == dst[..off + i] + [dst[off + i]];
    }
  }

  lemma NextByte(key: seq<byte>, nonce: seq<byte>, m: seq<byte>, j: nat, i: nat)
    requires IsKey(key) && |nonce| == 8 && i < 64 && 64 * j + i < |m|
    ensures |Encrypted(key, nonce, m)| == |m|
    ensures Encrypted(key, nonce, m)[64 * j + i]
         == XorByte(m[64 * j + i], Scrambled(StateFor(key, nonce, j), DOUBLE_ROUNDS)[i])
  {
    hide Scrambled, StateFor, XorByte;
    StateIsExpansion(key, nonce, j);
    assert (64 * j + i) / 64 == j && (64 * j + i) % 64 == i;
  }
}
