// internal/root/install/install.go: Parse and LookupByName, and what reading
// back a written manifest gives.

module InstallReader {
  import opened Words
  import opened Wrappers
  import opened Seqs
  import opened Bytes
  import opened Install

  /** casc.CKeyEntry, as far as INSTALL fills it in. */
  datatype RootEntry = RootEntry(CKey: Key, FileNameHash: nat, ContentSize: u32)

  datatype NamedEntry = NamedEntry(name: Name, entry: RootEntry)

  datatype Handler = Handler(
    HashSize: byte,
    Tags: seq<Tag>,
    files: map<Name, RootEntry>,
    byHash: map<nat, RootEntry>,
    all: seq<NamedEntry>)

  // ---- the reader ----

  /** bytes.IndexByte from off on: the first zero, or the end of the data. */
  function ZeroAt(data: seq<byte>, off: nat): (k: nat)
    requires off <= |data|
    ensures off <= k <= |data|
    ensures k < |data| ==> data[k] == 0
    ensures forall i :: off <= i < k ==> data[i] != 0
    decreases |data| - off
  {
    if off == |data| || data[off] == 0 then off else ZeroAt(data, off + 1)
  }

  datatype TagList = TagList(tags: seq<Tag>, end: nat)

  function TagsFrom(data: seq<byte>, off: nat, n: nat, bitmapLen: nat): (r: Result<TagList>)
    requires off <= |data|
    ensures r.Ok? ==> off <= r.value.end <= |data| && |r.value.tags| == n
    decreases n
  {
    if n == 0 then Ok(TagList([], off)) else
      var k := ZeroAt(data, off);
      if k == |data| || k + 3 + bitmapLen > |data| then Err(BadFormat) else
        match TagsFrom(data, k + 3 + bitmapLen, n - 1, bitmapLen)
        case Err(e) => Err(e)
        case Ok(rest) => Ok(TagList([TagAt(data, off, k, bitmapLen)] + rest.tags, rest.end))
  }

  function TagAt(data: seq<byte>, off: nat, k: nat, bitmapLen: nat): Tag
    requires off <= k && k + 3 + bitmapLen <= |data|
  {
    Pow256Values();
    Tag(data[off..k], ReadBE(At(data, k + 1, 2)), At(data, k + 3, bitmapLen))
  }

  /** Entries, until n are read or the data ends. */
  function EntriesFrom(h: Name -> nat, data: seq<byte>, off: nat, n: nat, hashSize: nat): (r: Result<seq<NamedEntry>>)
    requires off <= |data| && hashSize <= 16
    ensures r.Ok? ==> |r.value| <= n
    decreases n
  {
    if n == 0 || off >= |data| then Ok([]) else
      var k := ZeroAt(data, off);
      if k == |data| || k + 5 + hashSize > |data| then Err(BadFormat) else
        match EntriesFrom(h, data, k + 5 + hashSize, n - 1, hashSize)
        case Err(e) => Err(e)
        case Ok(rest) => Ok([EntryAt(h, data, off, k, hashSize)] + rest)
  }

  function PaddedKey(s: seq<byte>): Key
    requires |s| <= 16
  {
    s + Zeros(16 - |s|)
  }

  function EntryAt(h: Name -> nat, data: seq<byte>, off: nat, k: nat, hashSize: nat): NamedEntry
    requires off <= k && k + 5 + hashSize <= |data| && hashSize <= 16
  {
    var name := data[off..k];
    NamedEntry(name, RootEntry(PaddedKey(At(data, k + 1, hashSize)), h(name), BE32(At(data, k + 1 + hashSize, 4))))
  }

  function FilesOf(es: seq<NamedEntry>): map<Name, RootEntry> {
    if |es| == 0 then map[] else FilesOf(es[..|es| - 1])[es[|es| - 1].name := es[|es| - 1].entry]
  }

  function HashesOf(es: seq<NamedEntry>): map<nat, RootEntry> {
    if |es| == 0 then map[] else HashesOf(es[..|es| - 1])[es[|es| - 1].entry.FileNameHash := es[|es| - 1].entry]
  }

  function HeaderError(data: seq<byte>): Option<Error> {
    if |data| < HEADER_SIZE || ReadLE(At(data, 0, 2)) != MAGIC_INSTALL then Some(BadFormat)
    else if data[2] != 1 then Some(NotSupported)
    else if data[3] == 0 || data[3] > 16 then Some(BadFormat)
    else None
  }

  /** int((entryCount + 7) / 8), the sum in 32 bits. */
  function BitmapLengthRead(entryCount: u32): nat { Wrap(entryCount + 7) / 8 }

  function Parsed(h: Name -> nat, data: seq<byte>): Result<Handler> {
    if HeaderError(data).Some? then Err(HeaderError(data).value) else
      var tagCount, entryCount := ReadBE(At(data, 4, 2)), BE32(At(data, 6, 4));
      match TagsFrom(data, HEADER_SIZE, tagCount, BitmapLengthRead(entryCount))
      case Err(e) => Err(e)
      case Ok(t) =>
        match EntriesFrom(h, data, t.end, entryCount, data[3])
        case Err(e) => Err(e)
        case Ok(es) => Ok(Handler(data[3], t.tags, FilesOf(es), HashesOf(es), es))
  }

  method Parse(h: Name -> nat, data: seq<byte>) returns (r: Result<Handler>)
    ensures r == Parsed(h, data)
  {
    hide ReadBE, ReadLE, BE32;
    if HeaderError(data).Some? {
      return Err(HeaderError(data).value);
    }
    var hashSize, tagCount, entryCount := data[3], ReadBE(At(data, 4, 2)), BE32(At(data, 6, 4));
    var tags := ParseTags(data, tagCount, BitmapLengthRead(entryCount));
    if tags.Err? {
      return Err(tags.error);
    }
    r := ParseEntries(h, data, tags.value, entryCount, hashSize);
  }

  function Behind(done: seq<Tag>, r: Result<TagList>): Result<TagList> {
    match r
    case Err(e) => Err(e)
    case Ok(t) => Ok(TagList(done + t.tags, t.end))
  }

  method ParseTags(data: seq<byte>, n: nat, bitmapLen: nat) returns (r: Result<TagList>)
    requires HEADER_SIZE <= |data|
    ensures r == TagsFrom(data, HEADER_SIZE, n, bitmapLen)
  {
    hide TagAt;
    var off: nat := HEADER_SIZE;
    var tags: seq<Tag> := [];
    ghost var whole := TagsFrom(data, off, n, bitmapLen);
    assert whole.Ok? ==> [] + whole.value.tags == whole.value.tags;
    for i := 0 to n
      invariant off <= |data|
      invariant whole == Behind(tags, TagsFrom(data, off, n - i, bitmapLen))
    {
      var nameEnd := ZeroAt(data, off);
      if nameEnd == |data| {
        return Err(BadFormat);
      }
      if nameEnd + 3 + bitmapLen > |data| {
        return Err(BadFormat);
      }
      ghost var rest := TagsFrom(data, nameEnd + 3 + bitmapLen, n - i - 1, bitmapLen);
      var t := TagAt(data, off, nameEnd, bitmapLen);
      if rest.Ok? {
        Assoc(tags, [t], rest.value.tags);
      }
      tags := tags + [t];
      off := nameEnd + 3 + bitmapLen;
    }
    assert tags + [] == tags;
    r := Ok(TagList(tags, off));
  }

  method ParseEntries(h: Name -> nat, data: seq<byte>, t: TagList, n: nat, hashSize: byte) returns (r: Result<Handler>)
    requires t.end <= |data| && hashSize <= 16
    ensures r == match EntriesFrom(h, data, t.end, n, hashSize)
                 case Err(e) => Err(e)
                 case Ok(es) => Ok(Handler(hashSize, t.tags, FilesOf(es), HashesOf(es), es))
  {
    hide EntryAt, FilesOf, HashesOf, ZeroAt;
    FilesOfNone();
    var off: nat, i: nat := t.end, 0;
    var all: seq<NamedEntry> := [];
    var files: map<Name, RootEntry> := map[];
    var byHash: map<nat, RootEntry> := map[];
    ghost var whole := EntriesFrom(h, data, off, n, hashSize);
    ResumesFromStart(whole);
    while i < n && off < |data|
      invariant i <= n && off <= |data|
      invariant Resumes(whole, all, EntriesFrom(h, data, off, n - i, hashSize))
      invariant files == FilesOf(all) && byHash == HashesOf(all)
    {
      var nameEnd := ZeroAt(data, off);
      if nameEnd == |data| {
        return Err(BadFormat);
      }
      if nameEnd + 5 + hashSize > |data| {
        return Err(BadFormat);
      }
      ghost var before := EntriesFrom(h, data, off, n - i, hashSize);
      ghost var after := EntriesFrom(h, data, nameEnd + 5 + hashSize, n - i - 1, hashSize);
      var e := EntryAt(h, data, off, nameEnd, hashSize);
      ResumesLater(whole, all, [e], before, after);
      FilesSnoc(all, e);
      files := files[e.name := e.entry];
      byHash := byHash[e.entry.FileNameHash := e.entry];
      all := all + [e];
      off := nameEnd + 5 + hashSize;
      i := i + 1;
    }
    assert all + [] == all;
    r := Ok(Handler(hashSize, t.tags, files, byHash, all));
  }

  lemma FilesOfNone()
    ensures FilesOf([]) == map[] && HashesOf([]) == map[]
  {
  }

  lemma FilesSnoc(es: seq<NamedEntry>, e: NamedEntry)
    ensures FilesOf(es + [e]) == FilesOf(es)[e.name := e.entry]
    ensures HashesOf(es + [e]) == HashesOf(es)[e.entry.FileNameHash := e.entry]
  {
    assert (es + [e])[..|es|] == es;
  }

  /** By exact name, else by the hash of the name. */
  function LookupByName(h: Name -> nat, root: Handler, name: Name): Option<RootEntry> {
    if name in root.files then Some(root.files[name])
    else if h(name) in root.byHash then Some(root.byHash[h(name)])
    else None
  }

  // ---- the round trip ----

  predicate NulFree(s: Name) { 0 !in s }

  function TagRead(t: Tag, bitmapLen: nat): Tag { Tag(t.Name, t.Type, Fitted(t.Bitmap, bitmapLen)) }

  function EntryRead(h: Name -> nat, e: Entry, hashSize: nat): NamedEntry
    requires hashSize <= 16
  {
    NamedEntry(e.Name, RootEntry(PaddedKey(e.CKey[..hashSize]), h(e.Name), e.ContentSize))
  }

  function TagsRead(ts: seq<Tag>, bitmapLen: nat): (r: seq<Tag>)
    ensures |r| == |ts|
  {
    seq(|ts|, i requires 0 <= i < |ts| => TagRead(ts[i], bitmapLen))
  }

  function EntriesRead(h: Name -> nat, es: seq<Entry>, hashSize: nat): (r: seq<NamedEntry>)
    requires hashSize <= 16
    ensures |r| == |es|
  {
    seq(|es|, i requires 0 <= i < |es| => EntryRead(h, es[i], hashSize))
  }

  lemma NameEnds(data: seq<byte>, off: nat, name: Name, rest: seq<byte>)
    requires NulFree(name) && Has(data, off, name + [0] + rest)
    ensures ZeroAt(data, off) == off + |name| < |data|
    ensures data[off..off + |name|] == name
    ensures Has(data, off + |name| + 1, rest)
  {
    HasTwo(data, off, name + [0], rest);
    HasTwo(data, off, name, [0]);
    var k := ZeroAt(data, off);
    var zero := data[off + |name|..off + |name| + 1];
    assert zero == [0];
    assert zero[0] == data[off + |name|];
    forall i | off <= i < off + |name|
      ensures data[i] != 0
    {
      assert data[i] == data[off..off + |name|][i - off] == name[i - off];
    }
  }

  lemma OneTag(data: seq<byte>, off: nat, t: Tag, bitmapLen: nat)
    requires NulFree(t.Name) && Has(data, off, TagBytes(t, bitmapLen))
    ensures var k := ZeroAt(data, off);
            && k == off + |t.Name| && k + 3 + bitmapLen <= |data|
            && TagAt(data, off, k, bitmapLen) == TagRead(t, bitmapLen)
  {
    hide BE, ReadBE, Has, ZeroAt, NulFree, Fitted;
    NamedPieces(data, off, t.Name, BE(t.Type, 2), Fitted(t.Bitmap, bitmapLen));
    TypeField(t.Type);
  }

  lemma TypeField(v: nat)
    requires v < 0x1_0000
    ensures ReadBE(BE(v, 2)) == v
  {
    hide BE, ReadBE;
    Pow256Values();
    ReadBEOfBE(v, 2);
    LowFits(v, 2);
  }

  /** A name, its zero, and two more pieces. */
  lemma NamedPieces(data: seq<byte>, off: nat, name: Name, p: seq<byte>, q: seq<byte>)
    requires NulFree(name) && Has(data, off, name + [0] + p + q)
    ensures ZeroAt(data, off) == off + |name| && off + |name| + 1 + |p| + |q| <= |data|
    ensures data[off..off + |name|] == name
    ensures At(data, off + |name| + 1, |p|) == p && At(data, off + |name| + 1 + |p|, |q|) == q
  {
    hide Has, ZeroAt, NulFree, At;
    Assoc(name + [0], p, q);
    NameEnds(data, off, name, p + q);
    HasTwo(data, off + |name| + 1, p, q);
    HasAt(data, off + |name| + 1, p);
    HasAt(data, off + |name| + 1 + |p|, q);
  }

  lemma OneEntry(h: Name -> nat, data: seq<byte>, off: nat, e: Entry, hashSize: nat)
    requires hashSize <= 16 && NulFree(e.Name) && Has(data, off, EntryBytes(e, hashSize))
    ensures var k := ZeroAt(data, off);
            && k == off + |e.Name| && k + 5 + hashSize <= |data|
            && EntryAt(h, data, off, k, hashSize) == EntryRead(h, e, hashSize)
  {
    hide BE, BE32, Has, ZeroAt, NulFree;
    NamedPieces(data, off, e.Name, e.CKey[..hashSize], BE(e.ContentSize, 4));
    FieldBE32(e.ContentSize);
    WrapFits(e.ContentSize);
  }

  lemma TagsStep(data: seq<byte>, off: nat, n: nat, bitmapLen: nat)
    requires off <= |data| && n > 0 && ZeroAt(data, off) + 3 + bitmapLen <= |data|
    ensures var k := ZeroAt(data, off);
            && k < |data|
            && TagsFrom(data, off, n, bitmapLen)
               == Behind([TagAt(data, off, k, bitmapLen)], TagsFrom(data, k + 3 + bitmapLen, n - 1, bitmapLen))
  {
  }

  lemma TagsNone(data: seq<byte>, off: nat, bitmapLen: nat)
    ensures off <= |data| ==> TagsFrom(data, off, 0, bitmapLen) == Ok(TagList([], off))
  {
  }

  lemma {:induction false} TagsBack(data: seq<byte>, start: nat, ts: seq<Tag>, bitmapLen: nat, i: nat)
    requires i <= |ts| && (forall k :: 0 <= k < |ts| ==> NulFree(ts[k].Name))
    requires Has(data, start, Concat(AllTags(ts, bitmapLen)))
    ensures var all := AllTags(ts, bitmapLen);
            && start + |Concat(all[..i])| <= |data|
            && TagsFrom(data, start + |Concat(all[..i])|, |ts| - i, bitmapLen)
               == Ok(TagList(TagsRead(ts, bitmapLen)[i..], start + |Concat(all)|))
    decreases |ts| - i
  {
    hide Concat, TagBytes, TagAt, TagRead, ZeroAt, TagsFrom;
    TagsNone(data, start + |Concat(AllTags(ts, bitmapLen)[..i])|, bitmapLen);
    var all := AllTags(ts, bitmapLen);
    if i < |ts| {
      var off := start + |Concat(all[..i])|;
      ConcatPiece(all, i);
      PartOfPiece(data, start, Concat(all), |Concat(all[..i])|, |all[i]|);
      OneTag(data, off, ts[i], bitmapLen);
      TagsBack(data, start, ts, bitmapLen, i + 1);
      TagsStep(data, off, |ts| - i, bitmapLen);
      assert TagsRead(ts, bitmapLen)[i..] == [TagRead(ts[i], bitmapLen)] + TagsRead(ts, bitmapLen)[i + 1..];
    } else {
      assert all[..i] == all && TagsRead(ts, bitmapLen)[i..] == [];
    }
  }

  lemma {:induction false} EntriesBack(h: Name -> nat, data: seq<byte>, start: nat, es: seq<Entry>, hashSize: nat, i: nat)
    requires hashSize <= 16 && i <= |es| && (forall k :: 0 <= k < |es| ==> NulFree(es[k].Name))
    requires Has(data, start, Concat(AllEntries(es, hashSize)))
    ensures var all := AllEntries(es, hashSize);
            && start + |Concat(all[..i])| <= |data|
            && EntriesFrom(h, data, start + |Concat(all[..i])|, |es| - i, hashSize)
               == Ok(EntriesRead(h, es, hashSize)[i..])
    decreases |es| - i
  {
    hide Concat, EntryBytes, EntryAt, EntryRead, ZeroAt;
    var all := AllEntries(es, hashSize);
    if i < |es| {
      ConcatPiece(all, i);
      PartOfPiece(data, start, Concat(all), |Concat(all[..i])|, |all[i]|);
      OneEntry(h, data, start + |Concat(all[..i])|, es[i], hashSize);
      EntriesBack(h, data, start, es, hashSize, i + 1);
      assert EntriesRead(h, es, hashSize)[i..] == [EntryRead(h, es[i], hashSize)] + EntriesRead(h, es, hashSize)[i + 1..];
    } else {
      assert all[..i] == all && EntriesRead(h, es, hashSize)[i..] == [];
    }
  }

  lemma HeaderFields(hashSize: byte, tagCount: nat, entryCount: u32, data: seq<byte>)
    requires Has(data, 0, HeaderBytes(hashSize, tagCount, entryCount))
    ensures |data| >= HEADER_SIZE && ReadLE(At(data, 0, 2)) == MAGIC_INSTALL && data[2] == 1 && data[3] == hashSize
    ensures ReadBE(At(data, 4, 2)) == tagCount % 0x1_0000 && BE32(At(data, 6, 4)) == entryCount
  {
    hide LE, BE, ReadLE, ReadBE, BE32;
    var h := HeaderBytes(hashSize, tagCount, entryCount);
    assert At(h, 0, 2) == LE(MAGIC_INSTALL, 2) && At(h, 4, 2) == BE(tagCount, 2) && At(h, 6, 4) == BE(entryCount, 4);
    PartOfPiece(data, 0, h, 0, 2);
    PartOfPiece(data, 0, h, 4, 2);
    PartOfPiece(data, 0, h, 6, 4);
    assert data[..HEADER_SIZE] == h;
    Pow256Values();
    ReadLEOfLE(MAGIC_INSTALL, 2);
    ReadBEOfBE(tagCount, 2);
    FieldBE32(entryCount);
    WrapFits(entryCount);
  }

  ghost predicate Writable(es: seq<Entry>, tags: seq<Tag>) {
    && |tags| < 0x1_0000
    && (forall i :: 0 <= i < |es| ==> NulFree(es[i].Name))
    && (forall i :: 0 <= i < |tags| ==> NulFree(tags[i].Name))
  }

  function HandlerRead(h: Name -> nat, es: seq<Entry>, tags: seq<Tag>, hashSize: byte): Handler
    requires hashSize <= 16
  {
    var all := EntriesRead(h, es, hashSize);
    Handler(hashSize, TagsRead(tags, BitmapLength(|es|)), FilesOf(all), HashesOf(all), all)
  }

  lemma ManifestBack(h: Name -> nat, es: seq<Entry>, tags: seq<Tag>, hashSize: byte)
    requires HashSizeOf(hashSize) <= 16 && |es| < TWO32 - 7 && Writable(es, tags)
    ensures Parsed(h, InstallBytes(es, tags, hashSize)) == Ok(HandlerRead(h, es, tags, HashSizeOf(hashSize)))
  {
    hide Concat, HeaderBytes, TagBytes, EntryBytes, TagsFrom, EntriesFrom, FilesOf, HashesOf, ReadLE, ReadBE, BE32,
         TagRead, EntryRead, NulFree;
    var hs, bl := HashSizeOf(hashSize), BitmapLength(|es|);
    var data := InstallBytes(es, tags, hashSize);
    var head, ts, bs := HeaderBytes(hs, |tags|, |es|), AllTags(tags, bl), AllEntries(es, hs);
    assert Has(data, 0, head + Concat(ts) + Concat(bs));
    HasTwo(data, 0, head + Concat(ts), Concat(bs));
    HasTwo(data, 0, head, Concat(ts));
    HeaderFields(hs, |tags|, |es|, data);
    NoPieces(ts);
    NoPieces(bs);
    TagsBack(data, HEADER_SIZE, tags, bl, 0);
    EntriesBack(h, data, HEADER_SIZE + |Concat(ts)|, es, hs, 0);
    assert TagsRead(tags, bl)[0..] == TagsRead(tags, bl);
    assert EntriesRead(h, es, hs)[0..] == EntriesRead(h, es, hs);
  }

  /** Names that are read never hold a zero. */
  lemma {:induction false} TagNamesRead(data: seq<byte>, off: nat, n: nat, bitmapLen: nat)
    requires off <= |data| && TagsFrom(data, off, n, bitmapLen).Ok?
    ensures forall i :: 0 <= i < n ==> NulFree(TagsFrom(data, off, n, bitmapLen).value.tags[i].Name)
    decreases n
  {
    if n > 0 {
      TagNamesRead(data, ZeroAt(data, off) + 3 + bitmapLen, n - 1, bitmapLen);
    }
  }

  lemma {:induction false} EntryNamesRead(h: Name -> nat, data: seq<byte>, off: nat, n: nat, hashSize: nat)
    requires off <= |data| && hashSize <= 16 && EntriesFrom(h, data, off, n, hashSize).Ok?
    ensures var es := EntriesFrom(h, data, off, n, hashSize).value;
            forall i :: 0 <= i < |es| ==> NulFree(es[i].name)
    decreases n
  {
    if n > 0 && off < |data| {
      EntryNamesRead(h, data, ZeroAt(data, off) + 5 + hashSize, n - 1, hashSize);
    }
  }

  /** Whatever file is parsed, no name in it holds a zero, and it has at most 65535 tags. */
  lemma ReadNamesAreNulFree(h: Name -> nat, data: seq<byte>)
    requires Parsed(h, data).Ok?
    ensures var root := Parsed(h, data).value;
            && |root.Tags| < 0x1_0000
            && (forall i :: 0 <= i < |root.all| ==> NulFree(root.all[i].name))
            && (forall i :: 0 <= i < |root.Tags| ==> NulFree(root.Tags[i].Name))
  {
    hide TagsFrom, EntriesFrom, FilesOf, HashesOf, ReadLE, ReadBE, BE32, NulFree;
    Pow256Values();
    var n := ReadBE(At(data, 4, 2));
    var bl := BitmapLengthRead(BE32(At(data, 6, 4)));
    TagNamesRead(data, HEADER_SIZE, n, bl);
    EntryNamesRead(h, data, TagsFrom(data, HEADER_SIZE, n, bl).value.end, BE32(At(data, 6, 4)), data[3]);
  }

  /** A written manifest comes back exactly when no name holds a zero and the tag count has 16 bits. */
  lemma InstallComesBack(h: Name -> nat, es: seq<Entry>, tags: seq<Tag>, hashSize: byte)
    requires HashSizeOf(hashSize) <= 16 && |es| < TWO32 - 7
    ensures Parsed(h, InstallBytes(es, tags, hashSize)) == Ok(HandlerRead(h, es, tags, HashSizeOf(hashSize)))
         <==> Writable(es, tags)
  {
    hide InstallBytes, Parsed, FilesOf, HashesOf, NulFree;
    if Writable(es, tags) {
      ManifestBack(h, es, tags, hashSize);
    }
    var r := Parsed(h, InstallBytes(es, tags, hashSize));
    if r == Ok(HandlerRead(h, es, tags, HashSizeOf(hashSize))) {
      ReadNamesAreNulFree(h, InstallBytes(es, tags, hashSize));
      forall i | 0 <= i < |es|
        ensures NulFree(es[i].Name)
      {
        assert r.value.all[i].name == es[i].Name;
      }
      forall i | 0 <= i < |tags|
        ensures NulFree(tags[i].Name)
      {
        assert r.value.Tags[i].Name == tags[i].Name;
      }
    }
  }

  // ---- lookup ----

  lemma {:induction false} FilesHold(es: seq<NamedEntry>, i: nat)
    requires i < |es|
    requires forall a, b :: 0 <= a < b < |es| ==> es[a].name != es[b].name
    ensures es[i].name in FilesOf(es) && FilesOf(es)[es[i].name] == es[i].entry
  {
    if i < |es| - 1 {
      FilesHold(es[..|es| - 1], i);
    }
  }

  /** Every name of a written manifest is found, with its key cut to the hash size. */
  lemma WrittenNameFound(h: Name -> nat, es: seq<Entry>, tags: seq<Tag>, hashSize: byte, i: nat)
    requires HashSizeOf(hashSize) <= 16 && |es| < TWO32 - 7 && Writable(es, tags) && i < |es|
    requires forall a, b :: 0 <= a < b < |es| ==> es[a].Name != es[b].Name
    ensures var hs := HashSizeOf(hashSize);
            && Parsed(h, InstallBytes(es, tags, hashSize)).Ok?
            && LookupByName(h, Parsed(h, InstallBytes(es, tags, hashSize)).value, es[i].Name)
               == Some(RootEntry(PaddedKey(es[i].CKey[..hs]), h(es[i].Name), es[i].ContentSize))
  {
    hide InstallBytes, Parsed, FilesOf, HashesOf;
    var hs := HashSizeOf(hashSize);
    ManifestBack(h, es, tags, hashSize);
    FilesHold(EntriesRead(h, es, hs), i);
  }
}
