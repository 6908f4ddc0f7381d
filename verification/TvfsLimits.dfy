// TVFS: exactly which written roots list their entries. Sizes and node values
// share their 32 bits with the folder bit.

module TvfsLimits {
  import opened Words
  import opened Wrappers
  import opened Bitwise
  import opened Seqs
  import opened Bytes
  import opened Tvfs
  import opened TvfsReader
  import opened TvfsRoundTrip

  // ---- places in the path table ----

  /** Before an entry, or before its value. */
  datatype Place = Place(entry: nat, atValue: bool)

  predicate Within(es: seq<WriteEntry>, p: Place) { p.entry < |es| || (p.entry == |es| && !p.atValue) }

  ghost function Offset(es: seq<WriteEntry>, p: Place): nat
    requires NamesOk(es) && Within(es, p)
  {
    |Concat(PathEntries(es)[..p.entry])| + if p.atValue then 1 + |es[p.entry].Name| else 0
  }

  function ValueOf(es: seq<WriteEntry>, i: nat): nat { ItemSize(|es|) * i }

  /** Entries j .. k - 1 whose value leaves the folder bit free. */
  ghost function Files(es: seq<WriteEntry>, j: nat, k: nat): nat
    decreases k
  {
    if k <= j then 0 else Files(es, j, k - 1) + if ValueOf(es, k - 1) < FOLDER_BIT then 1 else 0
  }

  lemma {:induction false} FilesJoin(es: seq<WriteEntry>, i: nat, j: nat, k: nat)
    requires i <= j <= k
    ensures Files(es, i, k) == Files(es, i, j) + Files(es, j, k) && Files(es, i, k) <= k - i
    decreases k
  {
    hide ValueOf;
    if j < k {
      FilesJoin(es, i, j, k - 1);
    } else if i < k {
      FilesJoin(es, i, k - 1, k - 1);
    }
  }

  lemma Places(es: seq<WriteEntry>, i: nat)
    requires NamesOk(es) && i < |es|
    ensures Offset(es, Place(i + 1, false)) == Offset(es, Place(i, false)) + |es[i].Name| + 6 <= |PathBody(es)|
    ensures PathBody(es)[Offset(es, Place(i, false))..Offset(es, Place(i + 1, false))] == PathEntry(es[i].Name, ValueOf(es, i))
    ensures Offset(es, Place(i, true)) == Offset(es, Place(i, false)) + 1 + |es[i].Name|
  {
    hide Concat, PathEntry, ItemSize;
    ConcatPiece(PathEntries(es), i);
  }

  lemma LastPlace(es: seq<WriteEntry>)
    requires NamesOk(es)
    ensures Offset(es, Place(|es|, false)) == |PathBody(es)|
  {
    hide Concat, PathEntry, ItemSize;
    assert PathEntries(es)[..|es|] == PathEntries(es);
  }

  lemma FirstPlace(es: seq<WriteEntry>)
    requires NamesOk(es)
    ensures Offset(es, Place(0, false)) == 0
  {
    NoPieces(PathEntries(es));
  }

  lemma {:induction false} PlacesInside(es: seq<WriteEntry>, p: Place)
    requires NamesOk(es) && Within(es, p)
    ensures Offset(es, p) <= |PathBody(es)|
    ensures Offset(es, p) == |PathBody(es)| ==> p == Place(|es|, false)
  {
    if p.entry < |es| {
      Places(es, p.entry);
    } else {
      LastPlace(es);
    }
  }

  // ---- one entry, whole or cut ----

  /** Before the value there may or may not be the name. */
  function MarkAt(name: Name, atValue: bool): Mark {
    if atValue then Mark(false, false, [], false) else Plain(name)
  }

  /** What of an entry stands behind a place in it. */
  function Tail(name: Name, value: nat, atValue: bool): seq<byte>
    requires NameOk(name)
  {
    PathEntry(name, value)[if atValue then 1 + |name| else 0..]
  }

  lemma TailIs(name: Name, value: nat, atValue: bool)
    requires NameOk(name)
    ensures MarkAt(name, atValue).Ok()
    ensures Tail(name, value, atValue) == MarkAt(name, atValue).Bytes() + [0xFF] + BE(value, 4)
  {
    hide BE;
  }

  lemma TailSplits(name: Name, value: u32, atValue: bool, rest: seq<byte>)
    requires NameOk(name)
    ensures ParsePathEntry(Tail(name, value, atValue) + rest) == Ok(Split(MarkAt(name, atValue).Node(Some(value)), rest))
  {
    hide ParsePathEntry, Tail, MarkAt, BE, Mark.Bytes, Mark.Ok, Mark.Node;
    TailIs(name, value, atValue);
    EntrySplits(MarkAt(name, atValue), value, rest);
  }

  lemma SliceTail(s: seq<byte>, start: nat, end: nat, a: nat, b: nat, e: seq<byte>)
    requires start <= a <= end <= |s| && a <= b <= |s| && s[start..end] == e
    ensures end <= b ==> s[a..b] == e[a - start..] + s[end..b]
    ensures b < end ==> s[a..b] == e[a - start..][..b - a]
  {
    if end <= b {
      assert s[a..b] == s[a..end] + s[end..b];
    }
  }

  /** The region from a place on: an entry's tail and the rest, or a part of that tail. */
  lemma RegionAt(es: seq<WriteEntry>, p: Place, b: nat)
    requires NamesOk(es) && p.entry < |es| && Offset(es, p) <= b <= |PathBody(es)|
    ensures var s, a, end := PathBody(es), Offset(es, p), Offset(es, Place(p.entry + 1, false));
            var tail := Tail(es[p.entry].Name, ValueOf(es, p.entry), p.atValue);
            && a + |tail| == end && a < end <= |s|
            && (end <= b ==> s[a..b] == tail + s[end..b])
            && (b < end ==> s[a..b] == tail[..b - a])
  {
    hide Concat, PathEntry, ItemSize, PathEntries, Offset, PathBody;
    Places(es, p.entry);
    SliceTail(PathBody(es), Offset(es, Place(p.entry, false)), Offset(es, Place(p.entry + 1, false)), Offset(es, p), b,
              PathEntry(es[p.entry].Name, ValueOf(es, p.entry)));
  }

  /** An entry that is cut short is refused, or it is cut before its value and gives nothing. */
  lemma CutEntry(name: Name, value: nat, atValue: bool, n: nat)
    requires NameOk(name) && 0 < n < |Tail(name, value, atValue)|
    ensures var r := ParsePathEntry(Tail(name, value, atValue)[..n]);
            r.Ok? ==> !atValue && n == 1 + |name| && r.value.node.value == None && r.value.rest == []
  {
    hide BE;
    var part := Tail(name, value, atValue)[..n];
    if atValue {
      assert part[0] == 0xFF;
    } else {
      assert part[0] == |name|;
      if n > 1 + |name| {
        assert part[1 + |name|] == 0xFF;
      }
    }
  }

  // ---- the walk over a part of the path table ----

  lemma WalkNothing(h: Header, lower: Lower, data: seq<byte>, region: seq<byte>, prefix: Name)
    requires h.FitsIn(|data|) && |region| == 0
    ensures Walked(h, lower, data, region, prefix) == Ok([])
  {
  }

  lemma NotAtEnd(es: seq<WriteEntry>, p: Place, b: nat)
    requires NamesOk(es) && Within(es, p) && Offset(es, p) < b <= |PathBody(es)|
    ensures p.entry < |es| && ValueOf(es, p.entry) == ItemSize(|es|) * p.entry
    ensures NameOk(es[p.entry].Name) && Within(es, Place(p.entry + 1, false))
  {
    hide Concat, ItemSize;
    LastPlace(es);
  }

  lemma ValueFits(es: seq<WriteEntry>, j: nat)
    requires ItemSize(|es|) * |es| < TWO32 && j < |es|
    ensures ValueOf(es, j) < TWO32
  {
    hide ItemSize;
    Products(ItemSize(|es|), j, |es|);
  }

  /** The first of some entries counts if its value leaves the folder bit free. */
  lemma OneEntry(es: seq<WriteEntry>, j: nat, k: nat)
    requires j < k
    ensures Files(es, j, k) == Files(es, j + 1, k) + if ValueOf(es, j) < FOLDER_BIT then 1 else 0
  {
    hide ValueOf;
    FilesJoin(es, j, j + 1, k);
    assert Files(es, j, j) == 0;
  }

  lemma FileStep(h: Header, lower: Lower, data: seq<byte>, region: seq<byte>, prefix: Name, node: PathNode, rest: seq<byte>)
    requires h.FitsIn(|data|) && ParsePathEntry(region) == Ok(Split(node, rest))
    requires node.value.Some? && node.value.value < FOLDER_BIT
    ensures Walked(h, lower, data, region, prefix).Ok? ==>
              && Walked(h, lower, data, rest, prefix).Ok?
              && |Walked(h, lower, data, region, prefix).value| <= 1 + |Walked(h, lower, data, rest, prefix).value|
  {
    hide ParsePathEntry, ResolveVfs, PathOf;
  }

  lemma FolderStep(h: Header, lower: Lower, data: seq<byte>, region: seq<byte>, prefix: Name, node: PathNode, rest: seq<byte>)
    requires h.FitsIn(|data|) && ParsePathEntry(region) == Ok(Split(node, rest))
    requires node.value.Some? && node.value.value >= FOLDER_BIT
    ensures Walked(h, lower, data, region, prefix).Ok? ==>
              && 0 <= node.value.value - FOLDER_BIT - 4 <= |rest|
              && var sub := Walked(h, lower, data, rest[..node.value.value - FOLDER_BIT - 4], PathOf(prefix, node));
                 var later := Walked(h, lower, data, rest[node.value.value - FOLDER_BIT - 4..], prefix);
                 && sub.Ok? && later.Ok?
                 && |Walked(h, lower, data, region, prefix).value| == |sub.value| + |later.value|
  {
    hide ParsePathEntry, PathOf, FileAt;
  }

  lemma CutWalk(h: Header, lower: Lower, data: seq<byte>, es: seq<WriteEntry>, p: Place, b: nat, prefix: Name)
    requires h.FitsIn(|data|) && NamesOk(es) && p.entry < |es|
    requires Offset(es, p) < b < Offset(es, Place(p.entry + 1, false)) && b <= |PathBody(es)|
    ensures Walked(h, lower, data, PathBody(es)[Offset(es, p)..b], prefix).Ok? ==>
              && Offset(es, Place(p.entry, true)) == b
              && Walked(h, lower, data, PathBody(es)[Offset(es, p)..b], prefix) == Ok([])
  {
    var region := PathBody(es)[Offset(es, p)..b];
    hide PathBody, Tail, ParsePathEntry, ValueOf, PathOf, FileAt;
    RegionAt(es, p, b);
    CutEntry(es[p.entry].Name, ValueOf(es, p.entry), p.atValue, b - Offset(es, p));
    if Walked(h, lower, data, region, prefix).Ok? {
      WalkNothing(h, lower, data, [], prefix);
    }
  }

  lemma Slices(s: seq<byte>, end: nat, m: nat, b: nat)
    requires end <= m <= b <= |s|
    ensures s[end..b][..m - end] == s[end..m] && s[end..b][m - end..] == s[m..b]
  {
  }

  /** A walk from one place that gets through ends at a place, and each file is an entry between them. */
  lemma {:induction false} WalkCounts(h: Header, lower: Lower, data: seq<byte>, es: seq<WriteEntry>, p: Place, b: nat,
                                      prefix: Name) returns (q: Place)
    requires h.FitsIn(|data|) && NamesOk(es) && ItemSize(|es|) * |es| < TWO32
    requires Within(es, p) && Offset(es, p) <= b <= |PathBody(es)|
    ensures Walked(h, lower, data, PathBody(es)[Offset(es, p)..b], prefix).Ok? ==>
              && Within(es, q) && p.entry <= q.entry && Offset(es, q) == b
              && |Walked(h, lower, data, PathBody(es)[Offset(es, p)..b], prefix).value| <= Files(es, p.entry, q.entry)
    decreases b - Offset(es, p)
  {
    hide Walked, PathBody, Offset, ItemSize, ParsePathEntry, Tail, Files, PathOf, Mark.Ok, ValueOf;
    q := p;
    var s, a := PathBody(es), Offset(es, p);
    if a == b {
      WalkNothing(h, lower, data, s[a..b], prefix);
      return;
    }
    NotAtEnd(es, p, b);
    var j := p.entry;
    var next := Place(j + 1, false);
    var end := Offset(es, next);
    RegionAt(es, p, b);
    if b < end {
      q := Place(j, true);
      CutWalk(h, lower, data, es, p, b, prefix);
      return;
    }
    ValueFits(es, j);
    var value: u32 := ValueOf(es, j);
    TailSplits(es[j].Name, value, p.atValue, s[end..b]);
    var node := MarkAt(es[j].Name, p.atValue).Node(Some(value));
    if value < FOLDER_BIT {
      FileStep(h, lower, data, s[a..b], prefix, node, s[end..b]);
      q := WalkCounts(h, lower, data, es, next, b, prefix);
    } else {
      FolderStep(h, lower, data, s[a..b], prefix, node, s[end..b]);
      if Walked(h, lower, data, s[a..b], prefix).Ok? {
        var m := end + (value - FOLDER_BIT - 4);
        Slices(s, end, m, b);
        var inside := WalkCounts(h, lower, data, es, next, m, PathOf(prefix, node));
        q := WalkCounts(h, lower, data, es, inside, b, prefix);
        FilesJoin(es, j + 1, inside.entry, q.entry);
      }
    }
    if Walked(h, lower, data, s[a..b], prefix).Ok? {
      OneEntry(es, j, q.entry);
    }
  }

  // ---- the root folder ----

  lemma {:induction false} OrTop(k: nat, y: nat)
    requires y < Power2(k)
    ensures Or(Power2(k), Power2(k) + y) == Power2(k) + y
  {
    if k > 0 {
      OrTop(k - 1, y / 2);
    }
  }

  /** From 2 GiB on the folder size runs into the folder bit, and the reader takes 2^31 less. */
  lemma RegionCut(es: seq<WriteEntry>)
    requires Addressable(es) && 4 + |PathBody(es)| >= FOLDER_BIT
    ensures RootRegion(PathTable(es)).Ok? ==>
              |PathBody(es)| >= FOLDER_BIT && RootRegion(PathTable(es)) == Ok(PathBody(es)[..|PathBody(es)| - FOLDER_BIT])
  {
    hide Concat, BE, BE32, PathEntries, VfsTable, Or, Power2;
    var pt, body := PathTable(es), PathBody(es);
    var size := 4 + |body|;
    Power31();
    OrTop(31, size - FOLDER_BIT);
    assert At(pt, 1, 4) == BE(FolderValue(size), 4);
    FieldBE32(FolderValue(size));
    WrapFits(size);
    if |body| >= FOLDER_BIT {
      assert pt[5..1 + (size - FOLDER_BIT)] == body[..size - FOLDER_BIT - 4];
    }
  }

  /** What is walked does not give a file for every entry. */
  lemma FewFiles(h: Header, lower: Lower, data: seq<byte>, es: seq<WriteEntry>, b: nat)
    requires h.FitsIn(|data|) && NamesOk(es) && ItemSize(|es|) * |es| < TWO32
    requires b <= |PathBody(es)|
    requires b < |PathBody(es)| || ItemSize(|es|) * |es| >= FOLDER_BIT + ItemSize(|es|)
    ensures Walked(h, lower, data, PathBody(es)[..b], []).Ok? ==> |Walked(h, lower, data, PathBody(es)[..b], []).value| < |es|
  {
    hide Walked, PathBody, Offset, ItemSize;
    FirstPlace(es);
    LastPlace(es);
    var q := WalkCounts(h, lower, data, es, Place(0, false), b, []);
    if Walked(h, lower, data, PathBody(es)[..b], []).Ok? {
      FilesJoin(es, 0, q.entry, q.entry);
      if q.entry == |es| {
        LastValue(es);
        FilesJoin(es, 0, |es| - 1, |es| - 1);
      }
    }
  }

  lemma LastValue(es: seq<WriteEntry>)
    requires ItemSize(|es|) * |es| >= FOLDER_BIT + ItemSize(|es|)
    ensures |es| > 0 && ValueOf(es, |es| - 1) >= FOLDER_BIT
  {
    hide ItemSize;
    Times(ItemSize(|es|), |es|);
  }

  /**
   * A written root whose offsets fit 32 bits lists its entries exactly when the folder size and all
   * node values leave the folder bit free.
   */
  lemma RootListsExactly(es: seq<WriteEntry>, lowercase: bool, lower: Lower)
    requires Addressable(es)
    ensures AllFiles(lower, RootBytes(es, lowercase)) == Ok(Listed(HeaderRead(es, lowercase), lower, es)) <==> Fits(es)
  {
    if Fits(es) {
      RootListsEntries(es, lowercase, lower);
    } else {
      TableSizes(es);
      TablesPlaced(es, lowercase);
      HeaderBack(es, lowercase);
      var h, data := HeaderRead(es, lowercase), RootBytes(es, lowercase);
      hide RootBytes, HeaderOf, RootRegion, Walked, ItemSize, PathTable, VfsTable, PathBody, HeaderRead, Listed;
      var b := if 4 + |PathBody(es)| < FOLDER_BIT then |PathBody(es)| else |PathBody(es)| - FOLDER_BIT;
      if 4 + |PathBody(es)| < FOLDER_BIT {
        RegionBack(es);
        assert PathBody(es)[..b] == PathBody(es);
      } else {
        RegionCut(es);
      }
      if RootRegion(PathTable(es)).Ok? {
        FewFiles(h, lower, data, es, b);
      }
    }
  }

  // ---- roots below 4 GiB ----

  lemma {:induction false} BodyAtLeast(es: seq<WriteEntry>, i: nat)
    requires NamesOk(es) && i <= |es|
    ensures Offset(es, Place(i, false)) >= 7 * i
  {
    if i > 0 {
      BodyAtLeast(es, i - 1);
      Places(es, i - 1);
    }
  }

  lemma SmallItems(w: nat, n: nat, body: nat)
    requires 10 <= w <= 13 && body >= 7 * n && body + w * n + 9 * n < TWO32
    ensures w * n < FOLDER_BIT
  {
    assert w == 10 || w == 11 || w == 12 || w == 13;
  }

  /** Below 4 GiB the offsets fit and no node value reaches the folder bit: the folder size alone decides. */
  lemma SizeDecides(es: seq<WriteEntry>, lowercase: bool, lower: Lower)
    requires NamesOk(es) && |RootBytes(es, lowercase)| < TWO32
    ensures Addressable(es)
    ensures AllFiles(lower, RootBytes(es, lowercase)) == Ok(Listed(HeaderRead(es, lowercase), lower, es))
       <==> 4 + |PathBody(es)| < FOLDER_BIT
  {
    TableSizes(es);
    hide VfsTable, CftTable, PathBody, HeaderBytes, ItemSize, AllFiles, Listed, HeaderRead, Offset;
    BodyAtLeast(es, |es|);
    LastPlace(es);
    ItemSizes(|es|);
    SmallItems(ItemSize(|es|), |es|, |PathBody(es)|);
    RootListsExactly(es, lowercase, lower);
  }

  lemma ItemSizes(n: nat)
    ensures 10 <= ItemSize(n) <= 13
  {
  }
}
