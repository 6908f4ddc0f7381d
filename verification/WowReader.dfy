// internal/root/wow/wow.go: format detection, groups, and the running file
// number; and exactly which written roots come back.

module WowReader {
  import opened Words
  import opened Wrappers
  import opened Bitwise
  import opened Seqs
  import opened Bytes
  import opened Wow

  datatype Format = V1 | V2 | V3

  datatype RootEntry = RootEntry(FileDataID: u32, CKey: Key, FileNameHash: u64, LocaleFlags: u32, ContentFlags: u32)

  datatype GroupHeader = GroupHeader(numFiles: u32, contentFlags: u32, localeFlags: u32, size: nat)

  datatype Group = Group(entries: seq<RootEntry>, consumed: nat)

  // ---- groups ----

  /** cf1 | cf2 | (cf3 << 17) */
  function PackedFlags(cf1: u32, cf2: u32, cf3: byte): u32 { Wrap(Or(Or(cf1, cf2), ShiftLeft(cf3, 17))) }

  function GroupHeaderOf(data: seq<byte>, packed: bool): Result<GroupHeader> {
    if packed then
      if |data| < 17 then Err(BadFormat)
      else Ok(GroupHeader(LE32(At(data, 0, 4)), PackedFlags(LE32(At(data, 8, 4)), LE32(At(data, 12, 4)), data[16]),
                          LE32(At(data, 4, 4)), 17))
    else if |data| < 12 then Err(BadFormat)
    else Ok(GroupHeader(LE32(At(data, 0, 4)), LE32(At(data, 4, 4)), LE32(At(data, 8, 4)), 12))
  }

  /** The running number before file i: fdid++ after each file. */
  function Before(fdids: seq<byte>, i: nat): u32
    requires 4 * i <= |fdids|
    decreases i, 0
  {
    if i == 0 then 0 else Wrap((IdAt(fdids, i - 1) as nat) + 1)
  }

  /** fdid += delta, in 32 bits. */
  function IdAt(fdids: seq<byte>, i: nat): u32
    requires 4 * i + 4 <= |fdids|
    decreases i, 1
  {
    Wrap((Before(fdids, i) as nat) + LE32(At(fdids, 4 * i, 4)))
  }

  function LE64(s: seq<byte>): u64
    requires |s| == 8
  {
    Pow256Values();
    ReadLE(s)
  }

  function EntryV1(fdids: seq<byte>, records: seq<byte>, i: nat, gh: GroupHeader): RootEntry
    requires 4 * i + 4 <= |fdids| && 24 * i + 24 <= |records|
  {
    RootEntry(IdAt(fdids, i), At(records, 24 * i, 16), LE64(At(records, 24 * i + 16, 8)), gh.localeFlags, gh.contentFlags)
  }

  function EntryV2(fdids: seq<byte>, ckeys: seq<byte>, hashes: Option<seq<byte>>, i: nat, gh: GroupHeader): RootEntry
    requires 4 * i + 4 <= |fdids| && 16 * i + 16 <= |ckeys| && (hashes.Some? ==> 8 * i + 8 <= |hashes.value|)
  {
    RootEntry(IdAt(fdids, i), At(ckeys, 16 * i, 16), if hashes.Some? then LE64(At(hashes.value, 8 * i, 8)) else 0,
              gh.localeFlags, gh.contentFlags)
  }

  function EntriesV1(fdids: seq<byte>, records: seq<byte>, n: nat, gh: GroupHeader): (es: seq<RootEntry>)
    requires 4 * n <= |fdids| && 24 * n <= |records|
    ensures |es| == n
  {
    seq(n, i requires 0 <= i < n => EntryV1(fdids, records, i, gh))
  }

  function EntriesV2(fdids: seq<byte>, ckeys: seq<byte>, hashes: Option<seq<byte>>, n: nat, gh: GroupHeader): (es: seq<RootEntry>)
    requires 4 * n <= |fdids| && 16 * n <= |ckeys| && (hashes.Some? ==> 8 * n <= |hashes.value|)
    ensures |es| == n
  {
    seq(n, i requires 0 <= i < n => EntryV2(fdids, ckeys, hashes, i, gh))
  }

  /** The bytes of n files behind the group header. */
  function FilesSize(fmt: Format, contentFlags: u32, n: nat): nat {
    if fmt == V1 then 28 * n else if NoNameHash(contentFlags) then 20 * n else 28 * n
  }

  function GroupEntries(fmt: Format, data: seq<byte>, gh: GroupHeader): (es: seq<RootEntry>)
    requires gh.size + FilesSize(fmt, gh.contentFlags, gh.numFiles) <= |data|
    ensures |es| == gh.numFiles
  {
    var n := gh.numFiles;
    var fdids := At(data, gh.size, 4 * n);
    var off := gh.size + 4 * n;
    if fmt == V1 then EntriesV1(fdids, At(data, off, 24 * n), n, gh)
    else if NoNameHash(gh.contentFlags) then EntriesV2(fdids, At(data, off, 16 * n), None, n, gh)
    else EntriesV2(fdids, At(data, off, 16 * n), Some(At(data, off + 16 * n, 8 * n)), n, gh)
  }

  function GroupOf(fmt: Format, data: seq<byte>, packed: bool): (r: Result<Group>)
    ensures r.Ok? ==> 12 <= r.value.consumed <= |data|
  {
    match GroupHeaderOf(data, packed)
    case Err(e) => Err(e)
    case Ok(gh) =>
      if gh.numFiles == 0 then Ok(Group([], gh.size))
      else if gh.numFiles > Wrap(|data|) then Err(BadFormat)
      else
        var size := gh.size + FilesSize(fmt, gh.contentFlags, gh.numFiles);
        if size > |data| then Err(BadFormat) else Ok(Group(GroupEntries(fmt, data, gh), size))
  }

  function GroupsFrom(fmt: Format, data: seq<byte>, off: nat, packed: bool): Result<seq<RootEntry>>
    decreases |data| - off
  {
    if off >= |data| then Ok([]) else
      match GroupOf(fmt, data[off..], packed)
      case Err(e) => Err(e)
      case Ok(g) =>
        match GroupsFrom(fmt, data, off + g.consumed, packed)
        case Err(e) => Err(e)
        case Ok(rest) => Ok(g.entries + rest)
  }

  // ---- format detection ----

  predicate HasMagic(data: seq<byte>) { |data| >= 4 && LE32(At(data, 0, 4)) == WOW_MAGIC }

  /** The header is taken for v3: a plausible header size, and not more hashes than files. */
  predicate LooksV3(data: seq<byte>) {
    && |data| >= 20
    && 20 <= LE32(At(data, 4, 4)) <= 0x100
    && LE32(At(data, 16, 4)) <= LE32(At(data, 12, 4))
  }

  datatype Layout = Layout(fmt: Format, off: nat, packed: bool)

  function LayoutOf(data: seq<byte>): Result<Layout> {
    if !HasMagic(data) then Ok(Layout(V1, 0, false))
    else if LooksV3(data) then Ok(Layout(V3, LE32(At(data, 4, 4)), LE32(At(data, 8, 4)) == 2))
    else if |data| < 12 then Err(BadFormat)
    else if LE32(At(data, 8, 4)) > LE32(At(data, 4, 4)) then Err(BadFormat)
    else Ok(Layout(V2, 12, false))
  }

  function AllEntries(data: seq<byte>): Result<seq<RootEntry>> {
    match LayoutOf(data)
    case Err(e) => Err(e)
    case Ok(l) => GroupsFrom(l.fmt, data, l.off, l.packed)
  }

  // ---- the handler ----

  function ById(es: seq<RootEntry>): map<u32, RootEntry> {
    if |es| == 0 then map[] else ById(es[..|es| - 1])[es[|es| - 1].FileDataID := es[|es| - 1]]
  }

  function ByHash(es: seq<RootEntry>): map<u64, RootEntry> {
    if |es| == 0 then map[]
    else
      var e := es[|es| - 1];
      if e.FileNameHash != 0 then ByHash(es[..|es| - 1])[e.FileNameHash := e] else ByHash(es[..|es| - 1])
  }

  lemma OneMore(es: seq<RootEntry>, e: RootEntry)
    ensures ById(es + [e]) == ById(es)[e.FileDataID := e]
    ensures ByHash(es + [e]) == if e.FileNameHash != 0 then ByHash(es)[e.FileNameHash := e] else ByHash(es)
  {
    assert (es + [e])[..|es|] == es;
  }

  class Handler {
    var byID: map<u32, RootEntry>
    var byHash: map<u64, RootEntry>
    var all: seq<RootEntry>
    var fmt: Format

    /** The two maps hold what the list says, later entries over earlier ones. */
    ghost predicate Valid()
      reads this
    {
      byID == ById(all) && byHash == ByHash(all)
    }

    constructor (format: Format)
      ensures Valid() && all == [] && fmt == format
    {
      byID, byHash, all, fmt := map[], map[], [], format;
    }

    method Add(e: RootEntry)
      requires Valid()
      modifies this
      ensures Valid() && all == old(all) + [e] && fmt == old(fmt)
    {
      OneMore(all, e);
      byID := byID[e.FileDataID := e];
      if e.FileNameHash != 0 {
        byHash := byHash[e.FileNameHash := e];
      }
      all := all + [e];
    }

    method AddV1(n: u32, fdids: seq<byte>, records: seq<byte>, gh: GroupHeader)
      requires Valid() && 4 * n <= |fdids| && 24 * n <= |records|
      modifies this
      ensures Valid() && fmt == old(fmt) && all == old(all) + EntriesV1(fdids, records, n, gh)
    {
      hide ById, ByHash, LE32, LE64, Wrap;
      var fdid: u32 := 0;
      for i := 0 to n
        invariant Valid() && fmt == old(fmt)
        invariant fdid == Before(fdids, i)
        invariant all == old(all) + EntriesV1(fdids, records, i, gh)
      {
        fdid := Wrap((fdid as nat) + LE32(At(fdids, 4 * i, 4)));
        var hash := LE64(At(records, 24 * i + 16, 8));
        Add(RootEntry(fdid, At(records, 24 * i, 16), hash, gh.localeFlags, gh.contentFlags));
        fdid := Wrap((fdid as nat) + 1);
      }
    }

    method AddV2(n: u32, fdids: seq<byte>, ckeys: seq<byte>, hashes: Option<seq<byte>>, gh: GroupHeader)
      requires Valid() && 4 * n <= |fdids| && 16 * n <= |ckeys| && (hashes.Some? ==> 8 * n <= |hashes.value|)
      modifies this
      ensures Valid() && fmt == old(fmt) && all == old(all) + EntriesV2(fdids, ckeys, hashes, n, gh)
    {
      hide ById, ByHash, LE32, LE64, Wrap;
      var fdid: u32 := 0;
      for i := 0 to n
        invariant Valid() && fmt == old(fmt)
        invariant fdid == Before(fdids, i)
        invariant all == old(all) + EntriesV2(fdids, ckeys, hashes, i, gh)
      {
        fdid := Wrap((fdid as nat) + LE32(At(fdids, 4 * i, 4)));
        var hash := if hashes.Some? then LE64(At(hashes.value, 8 * i, 8)) else 0;
        Add(RootEntry(fdid, At(ckeys, 16 * i, 16), hash, gh.localeFlags, gh.contentFlags));
        fdid := Wrap((fdid as nat) + 1);
      }
    }

    method ParseGroup(data: seq<byte>, packed: bool) returns (r: Result<nat>)
      requires Valid()
      modifies this
      ensures Valid() && fmt == old(fmt)
      ensures match GroupOf(old(fmt), data, packed)
              case Err(e) => r == Err(e)
              case Ok(g) => r == Ok(g.consumed) && all == old(all) + g.entries
    {
      hide ById, ByHash, EntriesV1, EntriesV2, GroupEntries, LE32, PackedFlags, FilesSize;
      var header := GroupHeaderOf(data, packed);
      if header.Err? {
        return Err(header.error);
      }
      var gh := header.value;
      if gh.numFiles == 0 {
        return Ok(gh.size);
      }
      if gh.numFiles > Wrap(|data|) {
        return Err(BadFormat);
      }
      r := ParseFiles(data, gh);
    }

    /** The arrays of a group: numbers, keys and, unless flagged away, name hashes. */
    method ParseFiles(data: seq<byte>, gh: GroupHeader) returns (r: Result<nat>)
      requires Valid() && gh.size <= |data|
      modifies this
      ensures Valid() && fmt == old(fmt)
      ensures var size := gh.size + FilesSize(fmt, gh.contentFlags, gh.numFiles);
              if size > |data| then r == Err(BadFormat)
              else r == Ok(size) && all == old(all) + GroupEntries(fmt, data, gh)
    {
      hide ById, ByHash, EntriesV1, EntriesV2, NoNameHash;
      var n := gh.numFiles;
      var off := gh.size;
      if off + 4 * n > |data| {
        return Err(BadFormat);
      }
      var fdids := At(data, off, 4 * n);
      off := off + 4 * n;
      if fmt == V1 {
        if off + 24 * n > |data| {
          return Err(BadFormat);
        }
        AddV1(n, fdids, At(data, off, 24 * n), gh);
        return Ok(off + 24 * n);
      }
      if off + 16 * n > |data| {
        return Err(BadFormat);
      }
      var ckeys := At(data, off, 16 * n);
      off := off + 16 * n;
      var hashes: Option<seq<byte>> := None;
      if !NoNameHash(gh.contentFlags) {
        if off + 8 * n > |data| {
          return Err(BadFormat);
        }
        hashes := Some(At(data, off, 8 * n));
        off := off + 8 * n;
      }
      AddV2(n, fdids, ckeys, hashes, gh);
      r := Ok(off);
    }
  }

  method Parse(data: seq<byte>) returns (r: Result<Handler>)
    ensures r.Ok? <==> AllEntries(data).Ok?
    ensures r.Ok? ==> fresh(r.value) && r.value.Valid()
    ensures r.Ok? ==> r.value.all == AllEntries(data).value && r.value.fmt == LayoutOf(data).value.fmt
    ensures r.Err? ==> r == Err(AllEntries(data).error)
  {
    hide GroupOf, ById, ByHash;
    var layout := LayoutOf(data);
    if layout.Err? {
      return Err(layout.error);
    }
    var h := new Handler(layout.value.fmt);
    var off: nat := layout.value.off;
    var packed := layout.value.packed;
    ghost var whole := AllEntries(data);
    ResumesFromStart(whole);
    while off < |data|
      invariant h.Valid() && h.fmt == layout.value.fmt
      invariant Resumes(whole, h.all, GroupsFrom(h.fmt, data, off, packed))
      decreases |data| - off
    {
      ghost var before, seen := GroupsFrom(h.fmt, data, off, packed), h.all;
      ghost var g := GroupOf(h.fmt, data[off..], packed);
      var consumed := h.ParseGroup(data[off..], packed);
      if consumed.Err? {
        return Err(consumed.error);
      }
      ResumesLater(whole, seen, g.value.entries, before, GroupsFrom(h.fmt, data, off + consumed.value, packed));
      off := off + consumed.value;
    }
    assert h.all + [] == h.all;
    r := Ok(h);
  }
}
