// internal/root/tvfs/tvfs.go: header, the recursive walk over the path table,
// and the way from a node value through the VFS table to a file.

module TvfsReader {
  import opened Words
  import opened Wrappers
  import opened Seqs
  import opened Bytes
  import opened Tvfs

  datatype RootEntry = RootEntry(EKey: Key, ContentSize: u32, SpanCount: nat)

  datatype NamedEntry = NamedEntry(name: Name, entry: RootEntry)

  datatype Header = Header(
    flags: u32,
    pathTableOffset: u32, pathTableSize: u32,
    vfsTableOffset: u32, vfsTableSize: u32,
    cftTableOffset: u32, cftTableSize: u32)
  {
    function CftOffsSize(): nat { OffsetFieldSize(cftTableSize) }

    predicate Lowercase() { flags / LOWERCASE_MANIFEST % 2 == 1 }

    /** The tables lie within the file. */
    predicate FitsIn(size: nat) {
      && pathTableOffset + pathTableSize <= size
      && vfsTableOffset + vfsTableSize <= size
      && cftTableOffset + cftTableSize <= size
    }
  }

  function HeaderOf(data: seq<byte>): (r: Result<Header>)
    ensures r.Ok? ==> r.value.FitsIn(|data|)
  {
    if |data| < HEADER_SIZE then Err(BadFormat)
    else if LE32(At(data, 0, 4)) != TVFS_MAGIC then Err(BadFormat)
    else if data[4] != 1 || data[6] != 9 || data[7] != 9 then Err(NotSupported)
    else
      var h := Header(LE32(At(data, 8, 4)),
                      BE32(At(data, 12, 4)), BE32(At(data, 16, 4)),
                      BE32(At(data, 20, 4)), BE32(At(data, 24, 4)),
                      BE32(At(data, 28, 4)), BE32(At(data, 32, 4)));
      if h.FitsIn(|data|) then Ok(h) else Err(BadFormat)
  }

  // ---- path entries ----

  datatype PathNode = PathNode(sepPre: bool, name: Name, sepPost: bool, value: Option<u32>)

  datatype Split = Split(node: PathNode, rest: seq<byte>)

  /** A length byte and that many name bytes, unless the node value comes at once. */
  function NamePart(buf: seq<byte>): (r: Option<(Name, seq<byte>)>)
    ensures r.Some? ==> |r.value.1| <= |buf|
    ensures r.Some? && |buf| > 0 && buf[0] != 0xFF ==> |r.value.1| < |buf|
  {
    if |buf| == 0 || buf[0] == 0xFF then Some(([], buf))
    else if buf[0] > |buf| - 1 then None
    else Some((buf[1..1 + buf[0]], buf[1 + buf[0]..]))
  }

  /** A separator byte, a node value, or, before another entry, a separator that is only implied. */
  function ValuePart(sepPre: bool, name: Name, sepPost: bool, buf: seq<byte>): (r: Result<Split>)
    ensures r.Ok? ==> |r.value.rest| <= |buf|
    ensures r.Ok? && |buf| > 0 && buf[0] == 0xFF ==> |r.value.rest| < |buf|
  {
    if |buf| == 0 then Ok(Split(PathNode(sepPre, name, sepPost, None), buf))
    else if buf[0] == 0xFF then
      if |buf| < 5 then Err(BadFormat)
      else Ok(Split(PathNode(sepPre, name, sepPost, Some(BE32(At(buf, 1, 4)))), buf[5..]))
    else Ok(Split(PathNode(sepPre, name, true, None), buf))
  }

  /** parsePathEntry: what it reads is never nothing. */
  function ParsePathEntry(buf: seq<byte>): (r: Result<Split>)
    ensures r.Ok? ==> |r.value.rest| < |buf|
  {
    if |buf| == 0 then Err(BadFormat) else
      var sepPre := buf[0] == 0;
      var afterPre := if sepPre then buf[1..] else buf;
      match NamePart(afterPre)
      case None => Err(BadFormat)
      case Some(n) =>
        var sepPost := |n.1| > 0 && n.1[0] == 0;
        ValuePart(sepPre, n.0, sepPost, if sepPost then n.1[1..] else n.1)
  }

  function SepIf(b: bool): Name { if b then [0x2F] else [] }

  function PathOf(prefix: Name, node: PathNode): Name { prefix + SepIf(node.sepPre) + node.name + SepIf(node.sepPost) }

  // ---- VFS and container-file tables ----

  function PaddedKey(s: seq<byte>): Key
    requires |s| == 9
  {
    s + [0, 0, 0, 0, 0, 0, 0]
  }

  /** The first span of the file at a VFS offset. */
  function ResolveVfs(h: Header, data: seq<byte>, vfsOffset: u32): Result<RootEntry>
    requires h.FitsIn(|data|)
  {
    if vfsOffset >= h.vfsTableSize then Err(BadFormat) else
      var vfs := data[h.vfsTableOffset + vfsOffset..];
      if !(1 <= vfs[0] <= 224) then Err(BadFormat)
      else if |vfs| < 9 + h.CftOffsSize() then Err(BadFormat)
      else
        var cftOff := ReadBE(At(vfs, 9, h.CftOffsSize()));
        if cftOff >= h.cftTableSize then Err(BadFormat) else
          var cft := data[h.cftTableOffset + cftOff..];
          if |cft| < 9 then Err(BadFormat)
          else Ok(RootEntry(PaddedKey(cft[..9]), BE32(At(vfs, 5, 4)), vfs[0]))
  }

  // ---- the walk ----

  type Lower = Name -> Name

  function FinalName(h: Header, lower: Lower, path: Name): Name { if h.Lowercase() then lower(path) else path }

  /** All files below a region of path entries; a file whose value leads nowhere is passed over. */
  function Walked(h: Header, lower: Lower, data: seq<byte>, region: seq<byte>, prefix: Name): Result<seq<NamedEntry>>
    requires h.FitsIn(|data|)
    decreases |region|
  {
    if |region| == 0 then Ok([]) else
      match ParsePathEntry(region)
      case Err(e) => Err(e)
      case Ok(p) =>
        if p.node.value.None? then Walked(h, lower, data, p.rest, prefix)
        else
          var value, path := p.node.value.value, PathOf(prefix, p.node);
          if value >= FOLDER_BIT then
            var subSize := value - FOLDER_BIT - 4;
            if subSize < 0 || subSize > |p.rest| then Err(BadFormat) else
              match Walked(h, lower, data, p.rest[..subSize], path)
              case Err(e) => Err(e)
              case Ok(inside) => Followed(inside, Walked(h, lower, data, p.rest[subSize..], prefix))
          else
            Followed(FileAt(h, lower, data, path, value), Walked(h, lower, data, p.rest, prefix))
  }

  function Followed(first: seq<NamedEntry>, r: Result<seq<NamedEntry>>): Result<seq<NamedEntry>> {
    if r.Ok? then Ok(first + r.value) else r
  }

  /** The file a node value leads to, if it leads anywhere. */
  function FileAt(h: Header, lower: Lower, data: seq<byte>, path: Name, value: u32): seq<NamedEntry>
    requires h.FitsIn(|data|)
  {
    match ResolveVfs(h, data, value)
    case Err(_) => []
    case Ok(e) => [NamedEntry(FinalName(h, lower, path), e)]
  }

  /** The path entries to walk: all of the table, or the inside of the folder that wraps it. */
  function RootRegion(pt: seq<byte>): Result<seq<byte>> {
    if |pt| >= 5 && pt[0] == 0xFF then
      var nv := BE32(At(pt, 1, 4));
      if nv < FOLDER_BIT then Err(BadFormat) else
        var size := nv - FOLDER_BIT;
        if size < 4 || 1 + size > |pt| then Err(BadFormat) else Ok(pt[5..1 + size])
    else Ok(pt)
  }

  function AllFiles(lower: Lower, data: seq<byte>): Result<seq<NamedEntry>> {
    match HeaderOf(data)
    case Err(e) => Err(e)
    case Ok(h) =>
      match RootRegion(At(data, h.pathTableOffset, h.pathTableSize))
      case Err(e) => Err(e)
      case Ok(body) => Walked(h, lower, data, body, [])
  }

  // ---- the handler ----

  function FilesOf(es: seq<NamedEntry>): map<Name, RootEntry> {
    if |es| == 0 then map[] else FilesOf(es[..|es| - 1])[es[|es| - 1].name := es[|es| - 1].entry]
  }

  lemma OneMoreFile(es: seq<NamedEntry>, e: NamedEntry)
    ensures FilesOf(es + [e]) == FilesOf(es)[e.name := e.entry]
  {
    assert (es + [e])[..|es|] == es;
  }

  class Handler {
    const hdr: Header
    const lower: Lower
    var files: map<Name, RootEntry>
    var all: seq<NamedEntry>

    ghost predicate Valid()
      reads this
    {
      files == FilesOf(all)
    }

    constructor (h: Header, toLower: Lower)
      ensures Valid() && all == [] && hdr == h && lower == toLower
    {
      hdr, lower, files, all := h, toLower, map[], [];
    }

    /** The loop over one region, calling itself for folders. */
    method Walk(data: seq<byte>, region: seq<byte>, prefix: Name) returns (error: Option<Error>)
      requires Valid() && hdr.FitsIn(|data|)
      modifies this
      ensures Valid()
      ensures match Walked(hdr, lower, data, region, prefix)
              case Err(e) => error == Some(e)
              case Ok(es) => error == None && all == old(all) + es
      decreases |region|
    {
      hide FilesOf, ParsePathEntry, ResolveVfs, PathOf, FinalName;
      var left := region;
      ghost var whole := Walked(hdr, lower, data, region, prefix);
      ghost var start, seen := all, [];
      ResumesFromStart(whole);
      while |left| > 0
        invariant Valid() && |left| <= |region| && all == start + seen
        invariant Resumes(whole, seen, Walked(hdr, lower, data, left, prefix))
        decreases |left|
      {
        ghost var before := Walked(hdr, lower, data, left, prefix);
        var p := ParsePathEntry(left);
        if p.Err? {
          return Some(p.error);
        }
        left := p.value.rest;
        if p.value.node.value.None? {
          continue;
        }
        var value, path := p.value.node.value.value, PathOf(prefix, p.value.node);
        ghost var more: seq<NamedEntry>;
        if value >= FOLDER_BIT {
          var subSize := value - FOLDER_BIT - 4;
          if subSize < 0 || subSize > |left| {
            return Some(BadFormat);
          }
          var inner := Walk(data, left[..subSize], path);
          if inner.Some? {
            return inner;
          }
          more := Walked(hdr, lower, data, left[..subSize], path).value;
          left := left[subSize..];
        } else {
          more := FileAt(hdr, lower, data, path, value);
          AddFile(data, path, value);
        }
        ResumesLater(whole, seen, more, before, Walked(hdr, lower, data, left, prefix));
        Assoc(start, seen, more);
        seen := seen + more;
      }
      assert seen + [] == seen;
      error := None;
    }

    method AddFile(data: seq<byte>, path: Name, value: u32)
      requires Valid() && hdr.FitsIn(|data|)
      modifies this
      ensures Valid() && all == old(all) + FileAt(hdr, lower, data, path, value)
    {
      hide FilesOf, ResolveVfs;
      var resolved := ResolveVfs(hdr, data, value);
      if resolved.Err? {
        return;
      }
      var e := NamedEntry(FinalName(hdr, lower, path), resolved.value);
      OneMoreFile(all, e);
      files := files[e.name := e.entry];
      all := all + [e];
    }

    method LookupByName(name: Name) returns (e: Option<RootEntry>)
      requires Valid()
      ensures var n := FinalName(hdr, lower, name);
              e == if n in FilesOf(all) then Some(FilesOf(all)[n]) else None
    {
      hide FilesOf;
      var n := FinalName(hdr, lower, name);
      e := if n in files then Some(files[n]) else None;
    }
  }

  method Parse(lower: Lower, data: seq<byte>) returns (r: Result<Handler>)
    ensures r.Ok? <==> AllFiles(lower, data).Ok?
    ensures r.Ok? ==> fresh(r.value) && r.value.Valid() && r.value.all == AllFiles(lower, data).value
    ensures r.Err? ==> r == Err(AllFiles(lower, data).error)
  {
    hide HeaderOf, RootRegion, Walked, FilesOf;
    var hdr := HeaderOf(data);
    if hdr.Err? {
      return Err(hdr.error);
    }
    var body := RootRegion(At(data, hdr.value.pathTableOffset, hdr.value.pathTableSize));
    if body.Err? {
      return Err(body.error);
    }
    var h := new Handler(hdr.value, lower);
    var error := h.Walk(data, body.value, []);
    if error.Some? {
      return Err(error.value);
    }
    r := Ok(h);
  }
}
