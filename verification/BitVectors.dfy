// The sequence of bits behind a sparseArray: membership, rank and select,
// without any of the lookup tables.

module BitVectors {
  import opened Words

  type Bits = seq<bv32>

  /** IsItemPresent: bits past the last word are absent. */
  predicate Present(bits: Bits, index: nat) {
    index / 32 < |bits| && Bit(bits[index / 32], index % 32)
  }

  /** Number of positions below i whose bit equals b. */
  ghost function Rank(bits: Bits, b: bool, i: nat): (n: nat)
    ensures n <= i
  {
    if i == 0 then 0 else Rank(bits, b, i - 1) + if Present(bits, i - 1) == b then 1 else 0
  }

  /** p is the position of the (n+1)-th bit equal to b. */
  ghost predicate IsSelect(bits: Bits, b: bool, n: nat, p: nat) {
    Present(bits, p) == b && Rank(bits, b, p) == n
  }

  /** The position of the (n+1)-th bit equal to b, known to lie below limit. */
  ghost function Select(bits: Bits, b: bool, n: nat, limit: nat): (p: nat)
    requires n < Rank(bits, b, limit)
    ensures p < limit && IsSelect(bits, b, n, p)
  {
    if n < Rank(bits, b, limit - 1) then Select(bits, b, n, limit - 1) else limit - 1
  }

  lemma {:induction false} RankMono(bits: Bits, b: bool, i: nat, j: nat)
    requires i <= j
    ensures Rank(bits, b, i) <= Rank(bits, b, j) <= Rank(bits, b, i) + (j - i)
    decreases j
  {
    if i < j {
      RankMono(bits, b, i, j - 1);
    }
  }

  lemma {:induction false} RankComplement(bits: Bits, i: nat)
    ensures Rank(bits, false, i) + Rank(bits, true, i) == i
  {
    if i > 0 {
      RankComplement(bits, i - 1);
    }
  }

  /** Select is inverse to rank: the position of the n-th bit is unique, and later bits stand later. */
  lemma SelectUnique(bits: Bits, b: bool, n: nat, p: nat, m: nat, q: nat)
    requires IsSelect(bits, b, n, p) && IsSelect(bits, b, m, q)
    ensures n == m <==> p == q
    ensures n < m <==> p < q
  {
    if p < q {
      RankMono(bits, b, p + 1, q);
    } else if q < p {
      RankMono(bits, b, q + 1, p);
    }
  }

  /** The (n+1)-th b-bit lies below i exactly when more than n b-bits do. */
  lemma SelectBelow(bits: Bits, b: bool, n: nat, p: nat, i: nat)
    requires IsSelect(bits, b, n, p)
    ensures p < i <==> n < Rank(bits, b, i)
  {
    if p < i {
      RankMono(bits, b, p + 1, i);
    } else {
      RankMono(bits, b, i, p);
    }
  }

  /** b-bits among the k lowest bits of a word. */
  function WordCount(w: bv32, b: bool, k: nat): nat {
    if b then Ones(w, k) else k - Ones(w, k)
  }

  lemma {:induction false} RankWord(bits: Bits, b: bool, w: nat, k: nat)
    requires w < |bits| && k <= 32
    ensures Rank(bits, b, 32 * w + k) == Rank(bits, b, 32 * w) + WordCount(bits[w], b, k)
  {
    hide Bit;
    if k > 0 {
      RankWord(bits, b, w, k - 1);
      var i := 32 * w + k - 1;
      assert i / 32 == w && i % 32 == k - 1;
    }
  }

  lemma {:induction false} RankPastEnd(bits: Bits, i: nat, j: nat)
    requires 32 * |bits| <= i <= j
    ensures Rank(bits, true, j) == Rank(bits, true, i)
    decreases j
  {
    if i < j {
      RankPastEnd(bits, i, j - 1);
      assert (j - 1) / 32 >= |bits|;
    }
  }
}
