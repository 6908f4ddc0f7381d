// bitPos8Table of internal/root/mndx/trie.go: the position of the (n+1)-th one
// bit of a byte.

module SelectTable {
  import opened Words

  /** Position of the (n+1)-th one bit of the low byte of b, searching from bit i; 7 when there is none. */
  function BitPosFrom(n: nat, b: bv32, i: nat): (pos: nat)
    requires i <= 8
    ensures pos <= 7
    decreases 8 - i
  {
    if i == 8 then 7
    else if Bit(b, i) && Ones(b, i) == n then i
    else BitPosFrom(n, b, i + 1)
  }

  function BitPos8(n: nat, b: bv32): nat { BitPosFrom(n, b, 0) }

  /** What the table holds at an index: (n << 8) | b. */
  function TableEntry(index: nat): nat
    requires index < 0x800
  {
    BitPos8(index / 256, (index % 256) as bv32)
  }

  method InitBitPos8Table() returns (table: array<nat>)
    ensures fresh(table) && table.Length == 0x800
    ensures forall k :: 0 <= k < 0x800 ==> table[k] == TableEntry(k)
  {
    hide Bit, Ones, OneShl;
    table := new nat[0x800];
    for n := 0 to 8
      invariant forall k :: 0 <= k < 256 * n ==> table[k] == TableEntry(k)
    {
      for b := 0 to 256
        invariant forall k :: 0 <= k < 256 * n + b ==> table[k] == TableEntry(k)
      {
        var pos := ScanByte(n, b as bv32);
        assert (256 * n + b) / 256 == n && (256 * n + b) % 256 == b;
        table[256 * n + b] := pos;
      }
    }
  }

  /** The innermost loop of the table's initialisation. */
  method ScanByte(n: nat, b: bv32) returns (pos: nat)
    ensures pos == BitPos8(n, b)
  {
    hide Bit, OneShl;
    pos := 7;
    var seen := -1;
    var i := 0;
    while i < 8
      invariant 0 <= i <= 8
      invariant pos == 7
      invariant seen == Ones(b, i) - 1
      invariant BitPosFrom(n, b, 0) == BitPosFrom(n, b, i)
    {
      if Bit(b, i) {
        seen := seen + 1;
        if seen == n {
          pos := i;
          break;
        }
      }
      i := i + 1;
    }
  }

  /** The entry is the select position whenever the byte has more than n one bits. */
  lemma {:induction false} BitPosIsSelect(n: nat, b: bv32, i: nat)
    requires i <= 8 && Ones(b, i) <= n < Ones(b, 8)
    ensures var p := BitPosFrom(n, b, i);
            p < 8 && Bit(b, p) && Ones(b, p) == n
    decreases 8 - i
  {
    hide Bit;
    if !(Bit(b, i) && Ones(b, i) == n) {
      assert Ones(b, i + 1) == Ones(b, i) + if Bit(b, i) then 1 else 0;
      BitPosIsSelect(n, b, i + 1);
    }
  }
}
