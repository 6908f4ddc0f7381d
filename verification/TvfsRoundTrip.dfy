// TVFS: the walk flattens any nested folder serialisation, and a written root
// lists its entries in order.

module TvfsRoundTrip {
  import opened Words
  import opened Wrappers
  import opened Bitwise
  import opened Seqs
  import opened Bytes
  import opened Tvfs
  import opened TvfsReader

  // ---- nested folders ----

  /** A region of path entries, folders holding regions of their own. */
  datatype Forest =
    | End
    | Passed(mark: Mark, rest: Forest)
    | File(mark: Mark, value: u32, rest: Forest)
    | Folder(mark: Mark, inside: Forest, rest: Forest)

  /** An entry up to its node value: separators and a name, which may be left out with its length byte. */
  datatype Mark = Mark(pre: bool, sized: bool, name: Name, post: bool) {
    /** An empty name has a length byte only behind a separator, and no separator behind it without one. */
    predicate Ok() {
      if sized then |name| <= 0xFE && (|name| > 0 || pre) else name == [] && !post
    }

    function Bytes(): seq<byte>
      requires Ok()
    {
      (if pre then [0] else []) + (if sized then [|name|] + name else []) + (if post then [0] else [])
    }

    function Node(value: Option<u32>): PathNode { PathNode(pre, name, post, value) }
  }

  predicate Named(f: Forest) {
    match f
    case End => true
    case Passed(mark, rest) => mark.Ok() && Named(rest)
    case File(mark, _, rest) => mark.Ok() && Named(rest)
    case Folder(mark, inside, rest) => mark.Ok() && Named(inside) && Named(rest)
  }

  function Serialised(f: Forest): seq<byte>
    requires Named(f)
  {
    match f
    case End => []
    case Passed(mark, rest) => mark.Bytes() + Serialised(rest)
    case File(mark, value, rest) => mark.Bytes() + [0xFF] + BE(value, 4) + Serialised(rest)
    case Folder(mark, inside, rest) =>
      var sub := Serialised(inside);
      mark.Bytes() + [0xFF] + BE(FolderValue(4 + |sub|), 4) + (sub + Serialised(rest))
  }

  /** What follows an entry without a node value: no part of that entry. */
  predicate Follows(mark: Mark, tail: seq<byte>) {
    if |tail| == 0 then mark.pre || mark.sized else mark.sized && tail[0] != 0xFF && (mark.post || tail[0] != 0)
  }

  /** File values are no folder values, and folder sizes fit 31 bits. */
  predicate Storable(f: Forest)
    requires Named(f)
  {
    match f
    case End => true
    case Passed(mark, rest) => Follows(mark, Serialised(rest)) && Storable(rest)
    case File(_, value, rest) => value < FOLDER_BIT && Storable(rest)
    case Folder(_, inside, rest) => 4 + |Serialised(inside)| < FOLDER_BIT && Storable(inside) && Storable(rest)
  }

  /** The files in order, each with its whole path. */
  function Flat(f: Forest, prefix: Name): seq<(Name, u32)> {
    match f
    case End => []
    case Passed(_, rest) => Flat(rest, prefix)
    case File(mark, value, rest) => [(PathOf(prefix, mark.Node(None)), value)] + Flat(rest, prefix)
    case Folder(mark, inside, rest) => Flat(inside, PathOf(prefix, mark.Node(None))) + Flat(rest, prefix)
  }

  /** The files that those values lead to. */
  function Resolved(h: Header, lower: Lower, data: seq<byte>, files: seq<(Name, u32)>): seq<NamedEntry>
    requires h.FitsIn(|data|)
  {
    if |files| == 0 then []
    else FileAt(h, lower, data, files[0].0, files[0].1) + Resolved(h, lower, data, files[1..])
  }

  lemma {:induction false} ResolvedBoth(h: Header, lower: Lower, data: seq<byte>, a: seq<(Name, u32)>, b: seq<(Name, u32)>)
    requires h.FitsIn(|data|)
    ensures Resolved(h, lower, data, a + b) == Resolved(h, lower, data, a) + Resolved(h, lower, data, b)
  {
    if |a| == 0 {
      assert a + b == b;
    } else {
      ResolvedBoth(h, lower, data, a[1..], b);
      assert (a + b)[1..] == a[1..] + b;
      Assoc(FileAt(h, lower, data, a[0].0, a[0].1), Resolved(h, lower, data, a[1..]), Resolved(h, lower, data, b));
    }
  }

  lemma NameSplits(name: Name, tail: seq<byte>)
    requires |name| <= 0xFE
    ensures NamePart([|name|] + name + tail) == Some((name, tail))
  {
    var buf := [|name|] + name + tail;
    assert buf[1..1 + |name|] == name && buf[1 + |name|..] == tail;
  }

  lemma ValueSplits(pre: bool, name: Name, post: bool, value: u32, rest: seq<byte>)
    ensures ValuePart(pre, name, post, [0xFF] + BE(value, 4) + rest) == Ok(Split(PathNode(pre, name, post, Some(value)), rest))
  {
    hide BE, BE32;
    var buf := [0xFF] + BE(value, 4) + rest;
    assert At(buf, 1, 4) == BE(value, 4) && buf[5..] == rest;
    FieldBE32(value);
    WrapFits(value);
  }

  /** One entry with a value is split off exactly. */
  lemma EntrySplits(mark: Mark, value: u32, rest: seq<byte>)
    requires mark.Ok()
    ensures ParsePathEntry(mark.Bytes() + [0xFF] + BE(value, 4) + rest) == Ok(Split(mark.Node(Some(value)), rest))
  {
    hide BE, NamePart, ValuePart;
    var tail := [0xFF] + BE(value, 4) + rest;
    var behind := if mark.post then [0] + tail else tail;
    var body := if mark.sized then [|mark.name|] + mark.name + behind else behind;
    var buf := mark.Bytes() + [0xFF] + BE(value, 4) + rest;
    if mark.pre {
      assert buf[0] == 0 && buf[1..] == body;
    } else {
      assert buf == body;
    }
    if mark.sized {
      NameSplits(mark.name, behind);
    } else {
      NoName(tail);
    }
    if mark.post {
      assert behind[0] == 0 && behind[1..] == tail;
    } else {
      assert behind[0] == 0xFF;
    }
    ValueSplits(mark.pre, mark.name, mark.post, value, rest);
  }

  /** So is one without a value, and a separator is taken to stand before the next entry. */
  lemma PassedSplits(mark: Mark, tail: seq<byte>)
    requires mark.Ok() && Follows(mark, tail)
    ensures ParsePathEntry(mark.Bytes() + tail)
         == Ok(Split(PathNode(mark.pre, mark.name, mark.post || |tail| > 0, None), tail))
  {
    hide NamePart;
    var behind := if mark.post then [0] + tail else tail;
    var body := if mark.sized then [|mark.name|] + mark.name + behind else behind;
    var buf := mark.Bytes() + tail;
    if mark.pre {
      assert buf[0] == 0 && buf[1..] == body;
    } else {
      assert buf == body;
    }
    if mark.sized {
      NameSplits(mark.name, behind);
    } else {
      NoName(tail);
    }
    if mark.post {
      assert behind[0] == 0 && behind[1..] == tail;
    }
  }

  lemma NoName(tail: seq<byte>)
    requires |tail| == 0 || tail[0] == 0xFF
    ensures NamePart(tail) == Some(([], tail))
  {
  }

  lemma Power31()
    ensures Power2(31) == 0x8000_0000
  {
    assert Power2(8) == 0x100;
    assert Power2(16) == 0x1_0000;
    assert Power2(24) == 0x100_0000;
    assert Power2(31) == 0x8000_0000;
  }

  lemma FolderValueIs(size: nat)
    requires size < FOLDER_BIT
    ensures FolderValue(size) == FOLDER_BIT + size
  {
    hide Or, Power2;
    ShiftValue(1, 31);
    Power31();
    OrAdds(1, size, 31);
  }

  /** Walking a serialised forest gives its files in order, whatever the nesting. */
  lemma {:induction false} WalkFlattens(h: Header, lower: Lower, data: seq<byte>, f: Forest, prefix: Name)
    requires h.FitsIn(|data|) && Named(f) && Storable(f)
    ensures Walked(h, lower, data, Serialised(f), prefix) == Ok(Resolved(h, lower, data, Flat(f, prefix)))
    decreases f
  {
    hide ParsePathEntry, PathOf, FileAt, Mark.Bytes, Mark.Ok, Follows, BE, FolderValue;
    match f
    case End =>
    case Passed(mark, rest) =>
      PassedSplits(mark, Serialised(rest));
      WalkFlattens(h, lower, data, rest, prefix);
    case File(mark, value, rest) =>
      EntrySplits(mark, value, Serialised(rest));
      SamePath(prefix, mark, value);
      WalkFlattens(h, lower, data, rest, prefix);
      assert Flat(f, prefix)[1..] == Flat(rest, prefix);
    case Folder(mark, inside, rest) =>
      var sub := Serialised(inside);
      FolderValueIs(4 + |sub|);
      EntrySplits(mark, FolderValue(4 + |sub|), sub + Serialised(rest));
      SamePath(prefix, mark, FolderValue(4 + |sub|));
      var path := PathOf(prefix, mark.Node(None));
      WalkFlattens(h, lower, data, inside, path);
      WalkFlattens(h, lower, data, rest, prefix);
      ResolvedBoth(h, lower, data, Flat(inside, path), Flat(rest, prefix));
      assert (sub + Serialised(rest))[..|sub|] == sub && (sub + Serialised(rest))[|sub|..] == Serialised(rest);
  }

  lemma SamePath(prefix: Name, mark: Mark, value: u32)
    ensures PathOf(prefix, mark.Node(Some(value))) == PathOf(prefix, mark.Node(None))
  {
  }

  // ---- and nothing else is walked ----

  lemma ValueJoins(pre: bool, name: Name, post: bool, buf: seq<byte>)
    requires ValuePart(pre, name, post, buf).Ok? && ValuePart(pre, name, post, buf).value.node.value.Some?
    ensures var p := ValuePart(pre, name, post, buf).value;
            && p.node == PathNode(pre, name, post, p.node.value)
            && buf == [0xFF] + BE(p.node.value.value, 4) + p.rest
  {
    hide BE, BE32;
    var field := At(buf, 1, 4);
    BEOfReadBE(field);
    BE32IsReadBE(field);
    assert buf == [0xFF] + field + buf[5..];
  }

  lemma BE32IsReadBE(s: seq<byte>)
    requires |s| == 4
    ensures BE32(s) == ReadBE(s)
  {
  }

  /** What is read as one entry consists of a mark and, where there is one, the value. */
  lemma EntryJoins(region: seq<byte>) returns (mark: Mark)
    requires ParsePathEntry(region).Ok?
    ensures mark.Ok()
    ensures var p := ParsePathEntry(region).value;
            match p.node.value
            case None => region == mark.Bytes() + p.rest && Follows(mark, p.rest)
            case Some(value) => region == mark.Bytes() + ([0xFF] + BE(value, 4) + p.rest) && p.node == mark.Node(Some(value))
  {
    hide BE, ValuePart, Mark.Bytes, Mark.Ok, ParsePathEntry;
    var tail;
    mark, tail := MarkJoins(region);
    if ParsePathEntry(region).value.node.value.None? {
      NoValue(mark.pre, mark.name, mark.post, tail);
    } else {
      ValueJoins(mark.pre, mark.name, mark.post, tail);
    }
  }

  /** The mark, and what follows it. */
  lemma MarkJoins(region: seq<byte>) returns (mark: Mark, tail: seq<byte>)
    requires ParsePathEntry(region).Ok?
    ensures mark.Ok() && region == mark.Bytes() + tail
    ensures ParsePathEntry(region) == ValuePart(mark.pre, mark.name, mark.post, tail)
    ensures |tail| == 0 || tail[0] == 0xFF || Follows(mark, tail)
    ensures |tail| == 0 ==> Follows(mark, tail)
  {
    hide NamePart, ValuePart, Mark.Bytes, Mark.Ok, ParsePathEntry, Follows;
    ParsedInSteps(region);
    var pre := region[0] == 0;
    var afterPre := if pre then region[1..] else region;
    var n := NamePart(afterPre).value;
    var post := |n.1| > 0 && n.1[0] == 0;
    tail := if post then n.1[1..] else n.1;
    mark := Mark(pre, |afterPre| > 0 && afterPre[0] != 0xFF, n.0, post);
    HeadIs(pre, afterPre);
    FirstPart(pre, region, afterPre);
    FirstPart(post, n.1, tail);
    PartsJoin(mark, region, afterPre, n.1, tail);
    MarkFollowed(mark, n.1, tail);
  }

  lemma FirstPart(sep: bool, s: seq<byte>, rest: seq<byte>)
    requires sep ==> |s| > 0 && s[0] == 0
    requires rest == if sep then s[1..] else s
    ensures s == (if sep then [0] else []) + rest
  {
  }

  lemma MarkFollowed(mark: Mark, afterName: seq<byte>, tail: seq<byte>)
    requires mark.post == (|afterName| > 0 && afterName[0] == 0)
    requires tail == if mark.post then afterName[1..] else afterName
    requires !mark.sized ==> |afterName| == 0 || afterName[0] == 0xFF
    requires mark.pre || mark.sized || |afterName| > 0
    ensures |tail| == 0 || tail[0] == 0xFF || Follows(mark, tail)
    ensures |tail| == 0 ==> Follows(mark, tail)
  {
  }

  lemma ParsedInSteps(region: seq<byte>)
    requires ParsePathEntry(region).Ok?
    ensures |region| > 0
    ensures var pre := region[0] == 0;
            var afterPre := if pre then region[1..] else region;
            && NamePart(afterPre).Some?
            && var n := NamePart(afterPre).value;
               var post := |n.1| > 0 && n.1[0] == 0;
               ParsePathEntry(region) == ValuePart(pre, n.0, post, if post then n.1[1..] else n.1)
  {
    hide NamePart, ValuePart;
  }

  lemma NoValue(pre: bool, name: Name, post: bool, buf: seq<byte>)
    requires ValuePart(pre, name, post, buf).Ok? && ValuePart(pre, name, post, buf).value.node.value == None
    ensures ValuePart(pre, name, post, buf).value.rest == buf && (|buf| > 0 ==> buf[0] != 0xFF)
  {
  }

  lemma NamePartIs(buf: seq<byte>)
    requires NamePart(buf).Some?
    ensures var n := NamePart(buf).value;
            if |buf| > 0 && buf[0] != 0xFF
            then |n.0| == buf[0] <= 0xFE && buf == [|n.0|] + n.0 + n.1
            else n == ([], buf)
  {
  }

  /** The name found, and how it is written. */
  lemma HeadIs(pre: bool, buf: seq<byte>)
    requires NamePart(buf).Some? && (|buf| > 0 && buf[0] == 0 ==> pre)
    ensures var n := NamePart(buf).value;
            var mark := Mark(pre, |buf| > 0 && buf[0] != 0xFF, n.0, |n.1| > 0 && n.1[0] == 0);
            && mark.Ok()
            && (!mark.sized ==> |n.1| == 0 || n.1[0] == 0xFF)
            && buf == (if mark.sized then [|mark.name|] + mark.name else []) + n.1
  {
    hide NamePart;
    NamePartIs(buf);
  }

  lemma PartsJoin(mark: Mark, region: seq<byte>, afterPre: seq<byte>, afterName: seq<byte>, tail: seq<byte>)
    requires mark.Ok()
    requires region == (if mark.pre then [0] else []) + afterPre
    requires afterPre == (if mark.sized then [|mark.name|] + mark.name else []) + afterName
    requires afterName == (if mark.post then [0] else []) + tail
    ensures region == mark.Bytes() + tail
  {
  }

  /** A region that the walk gets through is the serialisation of some forest. */
  lemma {:induction false} RegionIsForest(h: Header, lower: Lower, data: seq<byte>, region: seq<byte>, prefix: Name)
    returns (f: Forest)
    requires h.FitsIn(|data|) && Walked(h, lower, data, region, prefix).Ok?
    ensures Named(f) && Storable(f) && Serialised(f) == region
    decreases |region|
  {
    hide *;
    if |region| == 0 {
      f := NothingIsEnd(region);
      return;
    }
    WalkSplits(h, lower, data, region, prefix);
    var mark := EntryJoins(region);
    var p := ParsePathEntry(region).value;
    if p.node.value.None? {
      var rest := RegionIsForest(h, lower, data, p.rest, prefix);
      f := PassedJoins(mark, rest);
      return;
    }
    var value := p.node.value.value;
    if value < FOLDER_BIT {
      var rest := RegionIsForest(h, lower, data, p.rest, prefix);
      f := FileJoins(mark, value, rest);
    } else {
      var sub, later := p.rest[..value - FOLDER_BIT - 4], p.rest[value - FOLDER_BIT - 4..];
      assert p.rest == sub + later;
      var inside := RegionIsForest(h, lower, data, sub, PathOf(prefix, p.node));
      var rest := RegionIsForest(h, lower, data, later, prefix);
      f := FolderJoins(mark, value, inside, rest);
    }
  }

  /** The walk gets through exactly the serialisations, and gives the files of the forest. */
  lemma WalkAccepts(h: Header, lower: Lower, data: seq<byte>, region: seq<byte>, prefix: Name)
    requires h.FitsIn(|data|)
    ensures Walked(h, lower, data, region, prefix).Ok?
       <==> exists f :: Named(f) && Storable(f) && Serialised(f) == region
    ensures forall f :: Named(f) && Storable(f) && Serialised(f) == region ==>
              Walked(h, lower, data, region, prefix) == Ok(Resolved(h, lower, data, Flat(f, prefix)))
  {
    hide *;
    forall f | Named(f) && Storable(f) && Serialised(f) == region
      ensures Walked(h, lower, data, region, prefix) == Ok(Resolved(h, lower, data, Flat(f, prefix)))
    {
      WalkFlattens(h, lower, data, f, prefix);
    }
    if Walked(h, lower, data, region, prefix).Ok? {
      var f := RegionIsForest(h, lower, data, region, prefix);
    }
  }

  lemma WalkSplits(h: Header, lower: Lower, data: seq<byte>, region: seq<byte>, prefix: Name)
    requires h.FitsIn(|data|) && |region| > 0 && Walked(h, lower, data, region, prefix).Ok?
    ensures ParsePathEntry(region).Ok?
    ensures var p := ParsePathEntry(region).value;
            if p.node.value.None? || p.node.value.value < FOLDER_BIT then Walked(h, lower, data, p.rest, prefix).Ok?
            else
              var subSize := p.node.value.value - FOLDER_BIT - 4;
              && 0 <= subSize <= |p.rest|
              && Walked(h, lower, data, p.rest[..subSize], PathOf(prefix, p.node)).Ok?
              && Walked(h, lower, data, p.rest[subSize..], prefix).Ok?
  {
    hide ParsePathEntry, FileAt, PathOf;
  }

  lemma NothingIsEnd(region: seq<byte>) returns (f: Forest)
    requires |region| == 0
    ensures Named(f) && Storable(f) && Serialised(f) == region
  {
    f := End;
  }

  lemma PassedJoins(mark: Mark, rest: Forest) returns (f: Forest)
    requires mark.Ok() && Named(rest) && Storable(rest) && Follows(mark, Serialised(rest))
    ensures Named(f) && Storable(f) && Serialised(f) == mark.Bytes() + Serialised(rest)
  {
    f := Passed(mark, rest);
  }

  lemma FileJoins(mark: Mark, value: u32, rest: Forest) returns (f: Forest)
    requires mark.Ok() && value < FOLDER_BIT && Named(rest) && Storable(rest)
    ensures Named(f) && Storable(f) && Serialised(f) == mark.Bytes() + ([0xFF] + BE(value, 4) + Serialised(rest))
  {
    hide Mark.Bytes, Mark.Ok, BE;
    f := File(mark, value, rest);
  }

  lemma FolderJoins(mark: Mark, value: u32, inside: Forest, rest: Forest) returns (f: Forest)
    requires mark.Ok() && Named(inside) && Named(rest) && Storable(inside) && Storable(rest)
    requires value == FOLDER_BIT + 4 + |Serialised(inside)|
    ensures Named(f) && Storable(f)
    ensures Serialised(f) == mark.Bytes() + ([0xFF] + BE(value, 4) + (Serialised(inside) + Serialised(rest)))
  {
    hide Mark.Bytes, Mark.Ok, BE, FolderValue;
    FolderValueIs(4 + |Serialised(inside)|);
    f := Folder(mark, inside, rest);
  }

  // ---- the written root ----

  /** The folder size and the last node value leave the folder bit free. */
  ghost predicate Fits(es: seq<WriteEntry>)
    requires NamesOk(es)
  {
    4 + |PathBody(es)| < FOLDER_BIT && ItemSize(|es|) * |es| < FOLDER_BIT + ItemSize(|es|)
  }

  /** What the header of a written root says. */
  ghost function HeaderRead(es: seq<WriteEntry>, lowercase: bool): Header
    requires Addressable(es)
  {
    CftSmall(es);
    var p, v, c := |PathTable(es)|, |VfsTable(es)|, |CftTable(es)|;
    Header(Flags(lowercase), HEADER_SIZE, p, HEADER_SIZE + p, v, HEADER_SIZE + p + v, c)
  }

  lemma CftSmall(es: seq<WriteEntry>)
    requires Addressable(es)
    ensures |CftTable(es)| == 9 * |es| < TWO32 && ItemSize(|es|) == 9 + OffsetFieldSize(9 * |es|)
  {
    hide PathTable, VfsTable, CftTable, ItemSize;
    TableSizes(es);
    ItemsWide(|es|);
  }

  lemma ItemsWide(n: nat)
    requires ItemSize(n) * n < TWO32
    ensures 9 * n < TWO32 && ItemSize(n) == 9 + OffsetFieldSize(9 * n)
  {
    var w := ItemSize(n);
    assert w * n == 9 * n + (w - 9) * n;
    WrapFits(9 * n);
  }

  lemma PlaceFields(data: seq<byte>, off: nat, offset: u32, size: u32)
    requires Has(data, off, TablePlace(offset, size))
    ensures BE32(At(data, off, 4)) == offset && BE32(At(data, off + 4, 4)) == size
  {
    hide BE, BE32;
    HasTwo(data, off, BE(offset, 4), BE(size, 4));
    FieldBE32(offset);
    FieldBE32(size);
    WrapFits(offset);
    WrapFits(size);
  }

  lemma HeaderBack(es: seq<WriteEntry>, lowercase: bool)
    requires Addressable(es)
    ensures HeaderOf(RootBytes(es, lowercase)) == Ok(HeaderRead(es, lowercase))
  {
    hide TablePlace, BE32, LE32, PathTable, VfsTable, CftTable, LE, HeaderBytes;
    var data := RootBytes(es, lowercase);
    var p, v, c := |PathTable(es)|, |VfsTable(es)|, |CftTable(es)|;
    var h := HeaderBytes(Flags(lowercase), p, v, c);
    assert data[..HEADER_SIZE] == h;
    HeaderPieces(Flags(lowercase), p, v, c, data);
    CftSmall(es);
    FieldsRead(Flags(lowercase), p, v, c, data);
  }

  lemma FieldsRead(flags: u32, p: u32, v: u32, c: u32, data: seq<byte>)
    requires HEADER_SIZE + p + v + c == |data| && HEADER_SIZE + p + v < TWO32
    requires Has(data, 0, LE(TVFS_MAGIC, 4)) && Has(data, 4, [1, 38, 9, 9]) && Has(data, 8, LE(flags, 4))
    requires Has(data, 12, TablePlace(HEADER_SIZE, p)) && Has(data, 20, TablePlace(HEADER_SIZE + p, v))
    requires Has(data, 28, TablePlace(HEADER_SIZE + p + v, c))
    ensures HeaderOf(data) == Ok(Header(flags, HEADER_SIZE, p, HEADER_SIZE + p, v, HEADER_SIZE + p + v, c))
  {
    hide TablePlace, BE32, LE32, LE;
    PlaceFields(data, 12, HEADER_SIZE, p);
    PlaceFields(data, 20, HEADER_SIZE + p, v);
    PlaceFields(data, 28, HEADER_SIZE + p + v, c);
    FieldLE32(TVFS_MAGIC);
    FieldLE32(flags);
    WrapFits(flags);
    FixedBytes(data);
  }

  lemma FixedBytes(data: seq<byte>)
    requires Has(data, 4, [1, 38, 9, 9])
    ensures data[4] == 1 && data[6] == 9 && data[7] == 9
  {
    var four := data[4..8];
    assert four[0] == 1 && four[2] == 9 && four[3] == 9;
  }

  lemma HeaderPieces(flags: u32, p: nat, v: nat, c: nat, data: seq<byte>)
    requires Has(data, 0, HeaderBytes(flags, p, v, c))
    ensures |data| >= HEADER_SIZE
    ensures Has(data, 0, LE(TVFS_MAGIC, 4)) && Has(data, 4, [1, 38, 9, 9]) && Has(data, 8, LE(flags, 4))
    ensures Has(data, 12, TablePlace(HEADER_SIZE, p)) && Has(data, 20, TablePlace(HEADER_SIZE + p, v))
    ensures Has(data, 28, TablePlace(HEADER_SIZE + p + v, c))
  {
    hide LE, BE, TablePlace;
    var front := LE(TVFS_MAGIC, 4) + [1, 38, 9, 9] + LE(flags, 4);
    var t1, t2, t3 := TablePlace(HEADER_SIZE, p), TablePlace(HEADER_SIZE + p, v), TablePlace(HEADER_SIZE + p + v, c);
    hide Has;
    HasTwo(data, 0, front + t1 + t2 + t3, BE(1, 2));
    HasTwo(data, 0, front + t1 + t2, t3);
    HasTwo(data, 0, front + t1, t2);
    HasTwo(data, 0, front, t1);
    HasTwo(data, 0, LE(TVFS_MAGIC, 4) + [1, 38, 9, 9], LE(flags, 4));
    HasTwo(data, 0, LE(TVFS_MAGIC, 4), [1, 38, 9, 9]);
    LongEnough(data, HeaderBytes(flags, p, v, c));
  }

  lemma LongEnough(data: seq<byte>, h: seq<byte>)
    requires Has(data, 0, h)
    ensures |data| >= |h|
  {
  }

  /** A name without separators. */
  function Plain(name: Name): Mark { Mark(false, true, name, false) }

  /** The path entries of a written root, from the i-th on, as a forest of files. */
  function FilesFrom(es: seq<WriteEntry>, i: nat): Forest
    requires i <= |es|
    requires ItemSize(|es|) * |es| < TWO32
    decreases |es| - i
  {
    if i == |es| then End
    else
      Products(ItemSize(|es|), i, |es|);
      File(Plain(es[i].Name), ItemSize(|es|) * i, FilesFrom(es, i + 1))
  }

  lemma Products(w: nat, i: nat, n: nat)
    requires i < n
    ensures 0 <= w * i && w * i + w <= w * n
  {
    var d := n - i - 1;
    assert w * n == w * i + w + w * d;
    assert w * d >= 0;
  }

  lemma {:induction false} BodyIsForest(es: seq<WriteEntry>, i: nat)
    requires NamesOk(es) && i <= |es| && ItemSize(|es|) * |es| < TWO32
    requires ItemSize(|es|) * |es| < FOLDER_BIT + ItemSize(|es|)
    ensures Named(FilesFrom(es, i)) && Storable(FilesFrom(es, i))
    ensures Serialised(FilesFrom(es, i)) == Concat(PathEntries(es)[i..])
    decreases |es| - i
  {
    hide Concat, BE, ItemSize;
    if i < |es| {
      BodyIsForest(es, i + 1);
      Products(ItemSize(|es|), i, |es|);
      ConcatHead(PathEntries(es)[i..]);
      assert PathEntries(es)[i..][1..] == PathEntries(es)[i + 1..];
      PlainHead(es[i].Name);
    } else {
      NoPieces(PathEntries(es)[i..]);
      assert PathEntries(es)[i..][..0] == PathEntries(es)[i..];
    }
  }

  lemma PlainHead(name: Name)
    requires NameOk(name)
    ensures Plain(name).Ok() && Plain(name).Bytes() == [|name|] + name
  {
  }

  function EntryRead(e: WriteEntry): RootEntry { RootEntry(TvfsReader.PaddedKey(e.EKey[..9]), e.ContentSize, 1) }

  function Listed(h: Header, lower: Lower, es: seq<WriteEntry>): (r: seq<NamedEntry>)
    ensures |r| == |es|
  {
    seq(|es|, i requires 0 <= i < |es| => NamedEntry(FinalName(h, lower, es[i].Name), EntryRead(es[i])))
  }

  /** The tables where the header says they are. */
  lemma TablesPlaced(es: seq<WriteEntry>, lowercase: bool)
    requires Addressable(es)
    ensures var h, data := HeaderRead(es, lowercase), RootBytes(es, lowercase);
            && h.FitsIn(|data|)
            && At(data, h.pathTableOffset, h.pathTableSize) == PathTable(es)
            && Has(data, h.vfsTableOffset, VfsTable(es))
            && Has(data, h.cftTableOffset, CftTable(es))
            && h.cftTableOffset + h.cftTableSize == |data|
  {
    hide HeaderBytes, PathTable, VfsTable, CftTable;
    var data := RootBytes(es, lowercase);
    var hb := HeaderBytes(Flags(lowercase), |PathTable(es)|, |VfsTable(es)|, |CftTable(es)|);
    assert Has(data, 0, hb + PathTable(es) + VfsTable(es) + CftTable(es));
    HasTwo(data, 0, hb + PathTable(es) + VfsTable(es), CftTable(es));
    HasTwo(data, 0, hb + PathTable(es), VfsTable(es));
    HasTwo(data, 0, hb, PathTable(es));
  }

  lemma WidthHolds(i: nat, n: nat)
    requires i < n && 9 * n < TWO32
    ensures 9 * i < Pow256(OffsetFieldSize(9 * n))
  {
    Pow256Values();
  }

  /** The record of entry i in the VFS table: one span, its size, its place in the file table. */
  lemma VfsRecord(data: seq<byte>, off: nat, contentSize: u32, cftOffset: nat, width: nat)
    requires Has(data, off, VfsEntry(contentSize, cftOffset, width)) && cftOffset < Pow256(width)
    ensures off + 9 + width <= |data|
    ensures var vfs := data[off..];
            && vfs[0] == 1 && BE32(At(vfs, 5, 4)) == contentSize && ReadBE(At(vfs, 9, width)) == cftOffset
  {
    hide BE, BE32, ReadBE;
    HasTwo(data, off, [1] + [0, 0, 0, 0] + BE(contentSize, 4), BE(cftOffset, width));
    HasTwo(data, off, [1] + [0, 0, 0, 0], BE(contentSize, 4));
    HasTwo(data, off, [1], [0, 0, 0, 0]);
    var vfs := data[off..];
    assert data[off..off + 1][0] == 1 && data[off..|data|] == vfs;
    SubSlice(data, off, |data|, 5, 9);
    SubSlice(data, off, |data|, 9, 9 + width);
    FieldBE32(contentSize);
    WrapFits(contentSize);
    ReadBEOfBE(cftOffset, width);
    LowFits(cftOffset, width);
  }

  /** The node value of entry i leads to its size and the first nine bytes of its key. */
  lemma EntryResolves(es: seq<WriteEntry>, lowercase: bool, i: nat)
    requires Addressable(es) && i < |es|
    ensures HeaderRead(es, lowercase).FitsIn(|RootBytes(es, lowercase)|)
    ensures 0 <= ItemSize(|es|) * i < TWO32
    ensures ResolveVfs(HeaderRead(es, lowercase), RootBytes(es, lowercase), ItemSize(|es|) * i) == Ok(EntryRead(es[i]))
  {
    hide RootBytes, VfsTable, CftTable, VfsEntry, PathTable, ItemSize, EntryRead, OffsetFieldSize, ResolveVfs, At, Has, Pow256;
    TableSizes(es);
    TablesPlaced(es, lowercase);
    CftSmall(es);
    var n, h, data := |es|, HeaderRead(es, lowercase), RootBytes(es, lowercase);
    Products(ItemSize(n), i, n);
    WidthHolds(i, n);
    var off := ItemSize(n) * i;
    EntryPieces(es, i);
    PartOfPiece(data, h.vfsTableOffset, VfsTable(es), off, ItemSize(n));
    PartOfPiece(data, h.cftTableOffset, CftTable(es), 9 * i, 9);
    ItemHolds(data, h.vfsTableOffset + off, es[i].ContentSize, 9 * i, n);
    EntryThere(data, h, es[i], off, 9 * i, OffsetFieldSize(9 * n));
  }

  lemma EntryPieces(es: seq<WriteEntry>, i: nat)
    requires i < |es|
    ensures 0 <= ItemSize(|es|) * i && ItemSize(|es|) * i + ItemSize(|es|) <= |VfsTable(es)| && 9 * i + 9 <= |CftTable(es)|
    ensures VfsTable(es)[ItemSize(|es|) * i..ItemSize(|es|) * i + ItemSize(|es|)]
         == VfsEntry(es[i].ContentSize, 9 * i, CftWidth(|es|))
    ensures CftTable(es)[9 * i..9 * i + 9] == es[i].EKey[..9]
  {
    hide Concat, VfsEntry, ItemSize;
    Products(ItemSize(|es|), i, |es|);
    ConcatRecord(VfsEntries(es), ItemSize(|es|), i);
    ConcatRecord(CftEntries(es), 9, i);
  }

  lemma ItemHolds(data: seq<byte>, at: nat, contentSize: u32, cftOffset: nat, n: nat)
    requires at + ItemSize(n) <= |data|
    requires At(data, at, ItemSize(n)) == VfsEntry(contentSize, cftOffset, CftWidth(n))
    ensures Has(data, at, VfsEntry(contentSize, cftOffset, CftWidth(n)))
  {
    hide VfsEntry, CftWidth;
  }

  lemma EntryThere(data: seq<byte>, h: Header, e: WriteEntry, off: u32, cftOff: nat, width: nat)
    requires h.FitsIn(|data|) && h.CftOffsSize() == width && off < h.vfsTableSize && cftOff + 9 <= h.cftTableSize
    requires cftOff < Pow256(width)
    requires Has(data, h.vfsTableOffset + off, VfsEntry(e.ContentSize, cftOff, width))
    requires At(data, h.cftTableOffset + cftOff, 9) == e.EKey[..9]
    ensures ResolveVfs(h, data, off) == Ok(EntryRead(e))
  {
    hide VfsEntry, ReadBE, BE32, OffsetFieldSize, Pow256;
    VfsRecord(data, h.vfsTableOffset + off, e.ContentSize, cftOff, width);
    var cft := data[h.cftTableOffset + cftOff..];
    assert cft[..9] == e.EKey[..9];
  }

  lemma {:induction false} FilesResolve(es: seq<WriteEntry>, lowercase: bool, lower: Lower, i: nat)
    requires Addressable(es) && i <= |es| && ItemSize(|es|) * |es| < TWO32
    ensures HeaderRead(es, lowercase).FitsIn(|RootBytes(es, lowercase)|)
    ensures var h := HeaderRead(es, lowercase);
            Resolved(h, lower, RootBytes(es, lowercase), Flat(FilesFrom(es, i), [])) == Listed(h, lower, es)[i..]
    decreases |es| - i
  {
    hide RootBytes, FileAt, ItemSize, EntryRead, PathTable, VfsTable, CftTable, HeaderRead, Listed;
    TablesPlaced(es, lowercase);
    var h := HeaderRead(es, lowercase);
    if i < |es| {
      FilesResolve(es, lowercase, lower, i + 1);
      OneResolves(es, lowercase, lower, i);
      PlainPath(es[i].Name);
      Products(ItemSize(|es|), i, |es|);
      assert Flat(FilesFrom(es, i), [])[1..] == Flat(FilesFrom(es, i + 1), []);
      assert Listed(h, lower, es)[i..] == [Listed(h, lower, es)[i]] + Listed(h, lower, es)[i + 1..];
    }
  }

  lemma OneResolves(es: seq<WriteEntry>, lowercase: bool, lower: Lower, i: nat)
    requires Addressable(es) && i < |es|
    ensures HeaderRead(es, lowercase).FitsIn(|RootBytes(es, lowercase)|)
    ensures 0 <= ItemSize(|es|) * i < TWO32
    ensures FileAt(HeaderRead(es, lowercase), lower, RootBytes(es, lowercase), es[i].Name, ItemSize(|es|) * i)
         == [Listed(HeaderRead(es, lowercase), lower, es)[i]]
  {
    hide RootBytes, ItemSize, EntryRead, PathTable, VfsTable, CftTable, HeaderRead, ResolveVfs, FinalName;
    EntryResolves(es, lowercase, i);
  }

  lemma PlainPath(name: Name)
    ensures PathOf([], Plain(name).Node(None)) == name
  {
  }

  lemma RegionBack(es: seq<WriteEntry>)
    requires NamesOk(es) && 4 + |PathBody(es)| < FOLDER_BIT
    ensures RootRegion(PathTable(es)) == Ok(PathBody(es))
  {
    hide Concat, BE, BE32, PathEntries;
    var pt, body := PathTable(es), PathBody(es);
    FolderValueIs(4 + |body|);
    assert At(pt, 1, 4) == BE(FolderValue(4 + |body|), 4);
    FieldBE32(FolderValue(4 + |body|));
    WrapFits(FolderValue(4 + |body|));
    assert pt[5..1 + (4 + |body|)] == body;
  }

  /** A written root lists its entries in order, with size and nine key bytes. */
  lemma RootListsEntries(es: seq<WriteEntry>, lowercase: bool, lower: Lower)
    requires Addressable(es) && Fits(es)
    ensures AllFiles(lower, RootBytes(es, lowercase)) == Ok(Listed(HeaderRead(es, lowercase), lower, es))
  {
    TableSizes(es);
    TablesPlaced(es, lowercase);
    HeaderBack(es, lowercase);
    RegionBack(es);
    BodyIsForest(es, 0);
    hide RootBytes, HeaderOf, RootRegion, Walked, Concat, ItemSize, PathTable, VfsTable, CftTable, Resolved, HeaderRead;
    var h := HeaderRead(es, lowercase);
    WalkFlattens(h, lower, RootBytes(es, lowercase), FilesFrom(es, 0), []);
    FilesResolve(es, lowercase, lower, 0);
    assert PathEntries(es)[0..] == PathEntries(es);
    assert Listed(h, lower, es)[0..] == Listed(h, lower, es);
  }

  // ---- lookup ----

  lemma {:induction false} FilesHold(es: seq<NamedEntry>, i: nat)
    requires i < |es| && forall a, b :: 0 <= a < b < |es| ==> es[a].name != es[b].name
    ensures es[i].name in FilesOf(es) && FilesOf(es)[es[i].name] == es[i].entry
  {
    if i < |es| - 1 {
      FilesHold(es[..|es| - 1], i);
    }
  }

  /** With distinct names and no lowercase flag, every name of a written root is found. */
  lemma NameFound(es: seq<WriteEntry>, lower: Lower, i: nat)
    requires Addressable(es) && Fits(es) && i < |es|
    requires forall a, b :: 0 <= a < b < |es| ==> es[a].Name != es[b].Name
    ensures AllFiles(lower, RootBytes(es, false)).Ok?
    ensures var files := FilesOf(AllFiles(lower, RootBytes(es, false)).value);
            es[i].Name in files && files[es[i].Name] == EntryRead(es[i])
  {
    RootListsEntries(es, false, lower);
    ListedAsNamed(es, lower);
    hide RootBytes, AllFiles, FilesOf, EntryRead, PathTable, VfsTable, CftTable, HeaderRead, Listed, Fits;
    FilesHold(Listed(HeaderRead(es, false), lower, es), i);
  }

  lemma ListedAsNamed(es: seq<WriteEntry>, lower: Lower)
    requires Addressable(es)
    ensures forall i :: 0 <= i < |es| ==> Listed(HeaderRead(es, false), lower, es)[i] == NamedEntry(es[i].Name, EntryRead(es[i]))
  {
    hide PathTable, VfsTable, CftTable, EntryRead, RootBytes;
  }
}
