// Fixed-width integers in byte strings, and buffers filled through a cursor.

module Bytes {
  import opened Words
  import opened Bitwise
  import opened Seqs

  type Key = k: seq<byte> | |k| == 16
    witness [0, 0, 0, 0, 0, 0, 0, 0, 0, 0, 0, 0, 0, 0, 0, 0]

  const ZERO_KEY: Key := [0, 0, 0, 0, 0, 0, 0, 0, 0, 0, 0, 0, 0, 0, 0, 0]

  function Pow256(n: nat): (p: nat)
    ensures p > 0
  {
    if n == 0 then 1 else 256 * Pow256(n - 1)
  }

  function Zeros(n: nat): (s: seq<byte>)
    ensures |s| == n
  {
    seq(n, _ => 0)
  }

  /** The n low bytes of v, most significant first. */
  function BE(v: nat, n: nat): (s: seq<byte>)
    ensures |s| == n
  {
    if n == 0 then [] else BE(v / 256, n - 1) + [v % 256]
  }

  /** The n low bytes of v, least significant first. */
  function LE(v: nat, n: nat): (s: seq<byte>)
    ensures |s| == n
  {
    if n == 0 then [] else [v % 256] + LE(v / 256, n - 1)
  }

  function ReadBE(s: seq<byte>): (v: nat)
    ensures v < Pow256(|s|)
  {
    if |s| == 0 then 0 else 256 * ReadBE(s[..|s| - 1]) + s[|s| - 1]
  }

  function ReadLE(s: seq<byte>): (v: nat)
    ensures v < Pow256(|s|)
  {
    if |s| == 0 then 0 else s[0] + 256 * ReadLE(s[1..])
  }

  function Low(v: nat, n: nat): nat { v % Pow256(n) }

  lemma {:induction false} LowStep(v: nat, n: nat)
    requires n > 0
    ensures Low(v, n) == 256 * Low(v / 256, n - 1) + v % 256
  {
    var p := Pow256(n - 1);
    var q := v / 256;
    var b := v % 256;
    var k := q / p;
    assert v == 256 * q + b && q == p * k + q % p;
    ScaleOut(p, k);
    assert v == 256 * p * k + (256 * (q % p) + b);
    assert 256 * (q % p) + b < 256 * p;
    Quotient(v, 256 * p, k, 256 * (q % p) + b);
  }

  lemma ScaleOut(p: nat, k: nat)
    ensures 256 * (p * k) == 256 * p * k
  {
  }

  /** Reading back an integer gives it cut down to the field's width. */
  lemma {:induction false} ReadBEOfBE(v: nat, n: nat)
    ensures ReadBE(BE(v, n)) == Low(v, n)
  {
    if n > 0 {
      ReadBEOfBE(v / 256, n - 1);
      assert BE(v, n)[..n - 1] == BE(v / 256, n - 1);
      LowStep(v, n);
    }
  }

  lemma {:induction false} BEOfReadBE(s: seq<byte>)
    ensures BE(ReadBE(s), |s|) == s
  {
    if |s| > 0 {
      BEOfReadBE(s[..|s| - 1]);
      assert s == s[..|s| - 1] + [s[|s| - 1]];
    }
  }

  lemma {:induction false} ReadLEOfLE(v: nat, n: nat)
    ensures ReadLE(LE(v, n)) == Low(v, n)
  {
    if n > 0 {
      ReadLEOfLE(v / 256, n - 1);
      assert LE(v, n)[1..] == LE(v / 256, n - 1);
      LowStep(v, n);
    }
  }

  lemma Pow256Values()
    ensures Pow256(1) == 0x100 && Pow256(2) == 0x1_0000 && Pow256(3) == 0x100_0000
    ensures Pow256(4) == 0x1_0000_0000 && Pow256(5) == 0x100_0000_0000
    ensures Pow256(8) == 0x1_0000_0000_0000_0000
  {
    assert Pow256(2) == 0x1_0000;
    assert Pow256(4) == 0x1_0000_0000;
    assert Pow256(6) == 0x1_0000_0000_0000;
  }

  lemma LowFits(v: nat, n: nat)
    requires v < Pow256(n)
    ensures Low(v, n) == v
  {
    Quotient(v, Pow256(n), 0, v);
  }

  function BE32(s: seq<byte>): u32
    requires |s| == 4
  {
    Pow256Values();
    ReadBE(s)
  }

  function LE32(s: seq<byte>): u32
    requires |s| == 4
  {
    Pow256Values();
    ReadLE(s)
  }

  /** A 32-bit field gives back any number cut down to 32 bits. */
  lemma FieldBE32(v: nat)
    ensures BE32(BE(v, 4)) == Wrap(v)
  {
    ReadBEOfBE(v, 4);
    Pow256Values();
  }

  lemma FieldLE32(v: nat)
    ensures LE32(LE(v, 4)) == Wrap(v)
  {
    ReadLEOfLE(v, 4);
    Pow256Values();
  }

  /** The bytes of s at off, n of them; the caller has checked that they exist. */
  function At(s: seq<byte>, off: nat, n: nat): (r: seq<byte>)
    requires off + n <= |s|
    ensures |r| == n
  {
    s[off..off + n]
  }

  /** Put s into the buffer at off; everything else keeps its value. */
  method Put(buf: array<byte>, off: nat, s: seq<byte>)
    requires off + |s| <= buf.Length
    modifies buf
    ensures buf[..off] == old(buf[..off])
    ensures buf[off..off + |s|] == s
    ensures buf[off + |s|..] == old(buf[off + |s|..])
  {
    for i := 0 to |s|
      invariant forall k :: 0 <= k < off ==> buf[k] == old(buf[k])
      invariant forall k :: off + |s| <= k < buf.Length ==> buf[k] == old(buf[k])
      invariant forall k :: 0 <= k < i ==> buf[off + k] == s[k]
    {
      buf[off + i] := s[i];
    }
    assert buf[off..off + |s|] == s;
  }

  /** Put s behind the off bytes already written, and move the cursor. */
  method Append(buf: array<byte>, off: nat, s: seq<byte>) returns (end: nat)
    requires off + |s| <= buf.Length
    modifies buf
    ensures end == off + |s|
    ensures buf[..end] == old(buf[..off]) + s
    ensures buf[end..] == old(buf[end..])
  {
    end := off + |s|;
    Put(buf, off, s);
    assert buf[..end] == buf[..off] + buf[off..end];
  }

  /** piece stands in s at off. */
  predicate Has(s: seq<byte>, off: nat, piece: seq<byte>) {
    off + |piece| <= |s| && s[off..off + |piece|] == piece
  }

  lemma HasAt(s: seq<byte>, off: nat, piece: seq<byte>)
    requires Has(s, off, piece)
    ensures off + |piece| <= |s| && At(s, off, |piece|) == piece
  {
  }

  /** Writing n bytes at off leaves what stands elsewhere. */
  lemma PutKeeps(before: seq<byte>, after: seq<byte>, off: nat, n: nat, at: nat, piece: seq<byte>)
    requires |before| == |after| && off + n <= |before|
    requires before[..off] == after[..off] && before[off + n..] == after[off + n..]
    requires at + |piece| <= off || off + n <= at
    requires Has(before, at, piece)
    ensures Has(after, at, piece)
  {
    if at + |piece| <= off {
      assert after[at..at + |piece|] == after[..off][at..at + |piece|];
      assert before[at..at + |piece|] == before[..off][at..at + |piece|];
    } else {
      var d := at - off - n;
      assert after[at..at + |piece|] == after[off + n..][d..d + |piece|];
      assert before[at..at + |piece|] == before[off + n..][d..d + |piece|];
    }
  }

  lemma SubSlice(s: seq<byte>, a: nat, b: nat, i: nat, j: nat)
    requires a <= b <= |s| && i <= j <= b - a
    ensures s[a..b][i..j] == s[a + i..a + j]
  {
    var x, y := s[a..b][i..j], s[a + i..a + j];
    forall k | 0 <= k < j - i
      ensures x[k] == y[k]
    {
      assert x[k] == s[a..b][i + k] == s[a + i + k];
    }
  }

  lemma PartOfPiece(s: seq<byte>, off: nat, piece: seq<byte>, at: nat, n: nat)
    requires Has(s, off, piece) && at + n <= |piece|
    ensures off + at + n <= |s| && At(s, off + at, n) == piece[at..at + n]
  {
    SubSlice(s, off, off + |piece|, at, at + n);
  }

  lemma HasTwo(s: seq<byte>, off: nat, p: seq<byte>, q: seq<byte>)
    ensures Has(s, off, p + q) <==> Has(s, off, p) && Has(s, off + |p|, q)
  {
    if off + |p| + |q| <= |s| {
      assert s[off..off + |p| + |q|] == s[off..off + |p|] + s[off + |p|..off + |p| + |q|];
      if s[off..off + |p| + |q|] == p + q {
        assert s[off..off + |p|] == (p + q)[..|p|];
        assert s[off + |p|..off + |p| + |q|] == (p + q)[|p|..];
      }
    }
  }

  /** Add s behind what is known of the buffer's start, keeping what stands further on. */
  method PutNext(buf: array<byte>, s: seq<byte>, ghost head: seq<byte>, ghost at: nat, ghost rest: seq<byte>, off: nat)
    requires off == |head| && off + |s| <= at && at + |rest| <= buf.Length
    requires Has(buf[..], 0, head) && Has(buf[..], at, rest)
    modifies buf
    ensures Has(buf[..], 0, head + s) && Has(buf[..], at, rest)
  {
    ghost var before := buf[..];
    Put(buf, off, s);
    PutKeeps(before, buf[..], off, |s|, 0, head);
    PutKeeps(before, buf[..], off, |s|, at, rest);
    HasTwo(buf[..], 0, head, s);
  }

  lemma {:induction false} LEPrefix(v: nat, n: nat, m: nat)
    requires m <= n
    ensures LE(v, n)[..m] == LE(v, m)
  {
    if m > 0 {
      LEPrefix(v / 256, n - 1, m - 1);
      assert LE(v, n)[..m] == [v % 256] + LE(v / 256, n - 1)[..m - 1];
    }
  }

  lemma HasAll(s: seq<byte>, p: seq<byte>)
    requires Has(s, 0, p) && |s| == |p|
    ensures s == p
  {
  }

  /** writeBE: from the last byte to the first, shifting right by eight. */
  method WriteBE(buf: array<byte>, off: nat, n: nat, value: nat)
    requires off + n <= buf.Length
    modifies buf
    ensures buf[..off] == old(buf[..off])
    ensures buf[off..off + n] == BE(value, n)
    ensures buf[off + n..] == old(buf[off + n..])
  {
    var v := value;
    var i := n;
    while i > 0
      invariant 0 <= i <= n
      invariant BE(value, n) == BE(v, i) + buf[off + i..off + n]
      invariant buf[..off] == old(buf[..off])
      invariant buf[off + n..] == old(buf[off + n..])
    {
      i := i - 1;
      ghost var tail := buf[off + i + 1..off + n];
      buf[off + i] := v % 256;
      assert buf[off + i..off + n] == [v % 256] + tail;
      Assoc(BE(v / 256, i), [v % 256], tail);
      v := v / 256;
    }
  }

  /** readBE: shift left by eight and or in the next byte. */
  method ReadBigEndian(b: seq<byte>) returns (v: nat)
    ensures v == ReadBE(b)
  {
    v := 0;
    for i := 0 to |b|
      invariant v == ReadBE(b[..i])
    {
      assert b[..i + 1][..i] == b[..i];
      OrByte(v, b[i]);
      v := Or(ShiftLeft(v, 8), b[i]);
    }
    assert b[..|b|] == b;
  }

  lemma OrByte(v: nat, x: byte)
    ensures Or(ShiftLeft(v, 8), x) == 256 * v + x
  {
    hide Or;
    assert Power2(4) == 16;
    assert Power2(8) == 256;
    OrAdds(v, x, 8);
    ShiftValue(v, 8);
  }
}
