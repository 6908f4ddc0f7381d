// internal/storage/lookup.go: the map from trimmed keys to index entries, and
// reading content by encoded key.

module Lookup {
  import opened Words
  import opened Wrappers
  import opened Seqs
  import opened Bytes
  import opened Environment
  import opened Archive
  import opened IndexV1
  import opened FirstWins

  type EKeyKey = seq<byte>

  /** EKeyOf: the first nine bytes. */
  function EKeyOf(e: Key): EKeyKey { e[..9] }

  function Keyed(es: seq<EKeyEntry>): (ps: seq<(EKeyKey, EKeyEntry)>)
    ensures |ps| == |es|
  {
    seq(|es|, i requires 0 <= i < |es| => (EKeyOf(es[i].EKey), es[i]))
  }

  function KeyedAll(indexes: seq<IndexFile>): (ps: seq<seq<(EKeyKey, EKeyEntry)>>)
    ensures |ps| == |indexes|
  {
    seq(|indexes|, i requires 0 <= i < |indexes| => Keyed(indexes[i].Entries))
  }

  /** The j-th entry of the i-th index has these nine bytes. */
  ghost predicate Matches(indexes: seq<IndexFile>, k: EKeyKey, i: nat, j: nat) {
    i < |indexes| && j < |indexes[i].Entries| && EKeyOf(indexes[i].Entries[j].EKey) == k
  }

  /** It is the first to have them, indexes in order and entries in order. */
  ghost predicate FirstMatch(indexes: seq<IndexFile>, k: EKeyKey, i: nat, j: nat) {
    && Matches(indexes, k, i, j)
    && forall a: nat, b: nat :: Matches(indexes, k, a, b) ==> i < a || (i == a && j <= b)
  }

  class Storage {
    const Indexes: seq<IndexFile>
    var ekeys: map<EKeyKey, EKeyEntry>

    /** The map has been built. */
    ghost predicate Valid()
      reads this
    {
      ekeys == Added(map[], Concat(KeyedAll(Indexes)))
    }

    constructor (indexes: seq<IndexFile>)
      ensures Indexes == indexes && ekeys == map[]
    {
      Indexes := indexes;
      ekeys := map[];
    }

    /** The two nested loops: indexes in order, entries in order, first occurrence wins. */
    method BuildEKeyMap()
      modifies this
      ensures Valid()
    {
      hide Added, Concat;
      ghost var all := KeyedAll(Indexes);
      var m: map<EKeyKey, EKeyEntry> := map[];
      NoPieces(all);
      AddedNone(m);
      for i := 0 to |Indexes|
        invariant m == Added(map[], Concat(all[..i]))
      {
        m := MergeEntries(m, Indexes[i].Entries);
        ConcatSnoc(all, i);
        AddedTwice(map[], Concat(all[..i]), all[i]);
      }
      assert all[..|Indexes|] == all;
      ekeys := m;
    }

    /** Found exactly if some index has an entry with the key's nine bytes, and then the first such entry. */
    method FindByEKey(e: Key) returns (entry: Option<EKeyEntry>)
      requires Valid()
      ensures entry.Some? <==> exists i: nat, j: nat :: Matches(Indexes, EKeyOf(e), i, j)
      ensures entry.Some? ==>
                exists i: nat, j: nat :: FirstMatch(Indexes, EKeyOf(e), i, j) && entry.value == Indexes[i].Entries[j]
    {
      hide Added, Concat, KeyedAll;
      var k := EKeyOf(e);
      FoundExactly(Indexes, k);
      entry := if k in ekeys then Some(ekeys[k]) else None;
    }
  }

  lemma FoundExactly(indexes: seq<IndexFile>, k: EKeyKey)
    ensures k in Added(map[], Concat(KeyedAll(indexes))) <==> exists i: nat, j: nat :: Matches(indexes, k, i, j)
    ensures k in Added(map[], Concat(KeyedAll(indexes))) ==>
              exists i: nat, j: nat :: FirstMatch(indexes, k, i, j)
                && Added(map[], Concat(KeyedAll(indexes)))[k] == indexes[i].Entries[j]
  {
    hide Added, Concat;
    var pieces: seq<seq<(EKeyKey, EKeyEntry)>> := KeyedAll(indexes);
    forall i: nat, j: nat | Matches(indexes, k, i, j)
      ensures k in Added(map[], Concat(pieces))
    {
      AllFound(pieces, i, j);
    }
    if k in Added(map[], Concat(pieces)) {
      var i, j := FoundFirst(pieces, k);
      forall a: nat, b: nat | Matches(indexes, k, a, b)
        ensures i < a || (i == a && j <= b)
      {
        assert pieces[a][b].0 == k;
      }
      assert FirstMatch(indexes, k, i, j);
    }
  }

  lemma AddedNone<K, V>(m: map<K, V>)
    ensures Added(m, []) == m
  {
  }

  method MergeEntries(start: map<EKeyKey, EKeyEntry>, entries: seq<EKeyEntry>) returns (m: map<EKeyKey, EKeyEntry>)
    ensures m == Added(start, Keyed(entries))
  {
    hide Added;
    m := start;
    ghost var ps := Keyed(entries);
    AddedNone(start);
    assert ps[..0] == [];
    for i := 0 to |entries|
      invariant m == Added(start, ps[..i])
    {
      var k := EKeyOf(entries[i].EKey);
      AddedOne(m, ps[i]);
      AddedTwice(start, ps[..i], [ps[i]]);
      assert ps[..i] + [ps[i]] == ps[..i + 1];
      if k !in m {
        m := m[k := entries[i]];
      }
    }
    assert ps[..|entries|] == ps;
  }

  /** ReadByEKey without a CDN: look the key up, read and decode its span. */
  function ReadByEKey(c: Codecs, disk: Disk, ekeys: map<EKeyKey, EKeyEntry>, e: Key, keys: Option<Decoder>,
      overcome: bool): Result<seq<byte>>
  {
    if EKeyOf(e) in ekeys then ReadSpan(c, disk, ekeys[EKeyOf(e)], keys, overcome) else Err(FileNotFound)
  }
}
