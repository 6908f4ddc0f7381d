// internal/cdn/archive_set.go: the merged map from trimmed keys to places in
// CDN archives; the first index that names a key keeps it.

module ArchiveSets {
  import opened Words
  import opened Wrappers
  import opened Seqs
  import opened Bytes
  import opened FirstWins

  type ArchiveKey = seq<byte>

  datatype ArchiveIndexEntry = ArchiveIndexEntry(EKey: Key, Offset: nat, EncodedSize: nat)

  datatype ArchiveLocation = ArchiveLocation(ArchiveHashHex: string, Offset: nat, EncodedSize: nat)

  function HexDigit(d: nat): char
    requires d < 16
  {
    "0123456789abcdef"[d]
  }

  function Hex(s: seq<byte>): string {
    if |s| == 0 then "" else [HexDigit(s[0] / 16), HexDigit(s[0] % 16)] + Hex(s[1..])
  }

  function KeyOf(e: Key): ArchiveKey { e[..9] }

  function Place(archiveHash: Key, e: ArchiveIndexEntry): (ArchiveKey, ArchiveLocation) {
    (KeyOf(e.EKey), ArchiveLocation(Hex(archiveHash), e.Offset, e.EncodedSize))
  }

  /** What one archive index has to add. */
  function Places(archiveHash: Key, entries: seq<ArchiveIndexEntry>): (ps: seq<(ArchiveKey, ArchiveLocation)>)
    ensures |ps| == |entries|
  {
    seq(|entries|, i requires 0 <= i < |entries| => Place(archiveHash, entries[i]))
  }

  /** An archive index that was added: the archive's hash and the entries. */
  datatype ArchiveIndex = ArchiveIndex(archiveHash: Key, Entries: seq<ArchiveIndexEntry>)

  function PlacesAll(indexes: seq<ArchiveIndex>): (ps: seq<seq<(ArchiveKey, ArchiveLocation)>>)
    ensures |ps| == |indexes|
  {
    seq(|indexes|, i requires 0 <= i < |indexes| => Places(indexes[i].archiveHash, indexes[i].Entries))
  }

  /** The j-th entry of the i-th index has these nine bytes. */
  ghost predicate Matches(indexes: seq<ArchiveIndex>, k: ArchiveKey, i: nat, j: nat) {
    i < |indexes| && j < |indexes[i].Entries| && KeyOf(indexes[i].Entries[j].EKey) == k
  }

  /** It is the first to have them, indexes in the order added and entries in order. */
  ghost predicate FirstMatch(indexes: seq<ArchiveIndex>, k: ArchiveKey, i: nat, j: nat) {
    && Matches(indexes, k, i, j)
    && forall a: nat, b: nat :: Matches(indexes, k, a, b) ==> i < a || (i == a && j <= b)
  }

  class ArchiveSet {
    var byEKey: map<ArchiveKey, ArchiveLocation>
    ghost var indexes: seq<ArchiveIndex>

    /** The map is that of all indexes added so far. */
    ghost predicate Valid()
      reads this
    {
      byEKey == Added(map[], Concat(PlacesAll(indexes)))
    }

    constructor ()
      ensures Valid() && byEKey == map[] && indexes == []
    {
      byEKey, indexes := map[], [];
    }

    method Add(archiveHash: Key, entries: seq<ArchiveIndexEntry>)
      requires Valid()
      modifies this
      ensures Valid() && indexes == old(indexes) + [ArchiveIndex(archiveHash, entries)]
      ensures byEKey == Added(old(byEKey), Places(archiveHash, entries))
    {
      hide Added, Concat, PlacesAll;
      var hexHash := Hex(archiveHash);
      ghost var ps := Places(archiveHash, entries);
      Nothing(byEKey);
      assert ps[..0] == [];
      for i := 0 to |entries|
        invariant byEKey == Added(old(byEKey), ps[..i]) && indexes == old(indexes)
      {
        var k := KeyOf(entries[i].EKey);
        AddedOne(byEKey, ps[i]);
        AddedTwice(old(byEKey), ps[..i], [ps[i]]);
        assert ps[..i] + [ps[i]] == ps[..i + 1];
        if k in byEKey {
          continue;
        }
        byEKey := byEKey[k := ArchiveLocation(hexHash, entries[i].Offset, entries[i].EncodedSize)];
      }
      assert ps[..|entries|] == ps;
      AddedIndex(indexes, ArchiveIndex(archiveHash, entries));
      indexes := indexes + [ArchiveIndex(archiveHash, entries)];
    }

    /** Found exactly if some index added has the key's nine bytes, and then the place its first entry gives. */
    method Lookup(e: Key) returns (loc: Option<ArchiveLocation>)
      requires Valid()
      ensures loc.Some? <==> exists i: nat, j: nat :: Matches(indexes, KeyOf(e), i, j)
      ensures loc.Some? ==>
                exists i: nat, j: nat :: FirstMatch(indexes, KeyOf(e), i, j)
                  && loc.value == Place(indexes[i].archiveHash, indexes[i].Entries[j]).1
    {
      hide Added, Concat, PlacesAll, Place;
      FoundExactly(indexes, KeyOf(e));
      if |byEKey| == 0 {
        return None;
      }
      loc := if KeyOf(e) in byEKey then Some(byEKey[KeyOf(e)]) else None;
    }

    method Len() returns (n: nat)
      ensures n == |byEKey|
    {
      n := |byEKey|;
    }
  }

  lemma Nothing(m: map<ArchiveKey, ArchiveLocation>)
    ensures Added(m, []) == m
  {
  }

  lemma AddedIndex(indexes: seq<ArchiveIndex>, idx: ArchiveIndex)
    ensures Added(map[], Concat(PlacesAll(indexes + [idx])))
         == Added(Added(map[], Concat(PlacesAll(indexes))), Places(idx.archiveHash, idx.Entries))
  {
    hide Added, Places;
    var before, all := PlacesAll(indexes), PlacesAll(indexes + [idx]);
    assert all[..|indexes|] == before;
    AddedTwice(map[], Concat(before), all[|indexes|]);
  }

  lemma FoundExactly(indexes: seq<ArchiveIndex>, k: ArchiveKey)
    ensures k in Added(map[], Concat(PlacesAll(indexes))) <==> exists i: nat, j: nat :: Matches(indexes, k, i, j)
    ensures k in Added(map[], Concat(PlacesAll(indexes))) ==>
              exists i: nat, j: nat :: FirstMatch(indexes, k, i, j)
                && Added(map[], Concat(PlacesAll(indexes)))[k] == Place(indexes[i].archiveHash, indexes[i].Entries[j]).1
  {
    hide Added, Concat;
    var pieces: seq<seq<(ArchiveKey, ArchiveLocation)>> := PlacesAll(indexes);
    forall i: nat, j: nat | Matches(indexes, k, i, j)
      ensures k in Added(map[], Concat(pieces))
    {
      AllFound(pieces, i, j);
    }
    if k in Added(map[], Concat(pieces)) {
      var i, j := FoundFirst(pieces, k);
      forall a: nat, b: nat | Matches(indexes, k, a, b)
        ensures i < a || (i == a && j <= b)
      {
        assert pieces[a][b].0 == k;
      }
      assert FirstMatch(indexes, k, i, j);
    }
  }

}
