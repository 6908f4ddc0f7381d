// WoW roots: exactly which written files come back entry for entry. A v2 file
// is taken for v3 when its file count looks like a header size.

module WowRoundTrip {
  import opened Words
  import opened Wrappers
  import opened Seqs
  import opened Bytes
  import opened Wow
  import opened WowReader

  /** The count reads as a v3 header size, and the flags as a number of hashes that is not too large. */
  predicate Misread(n: nat, content: u32) { 20 <= n <= 0x100 && content <= n }

  /** The count fits its 32 bits. */
  ghost predicate Fits(es: seq<WriteEntry>) { 0 < |es| < TWO32 }

  /** The reader's check of the count, against the size of what is left as 32 bits give it. */
  predicate CountPasses(es: seq<WriteEntry>, opts: WriteOptions) { |es| <= Wrap(|RootBytes(es, opts)| - 12) }

  function Recovered(e: WriteEntry, content: u32, locale: u32): RootEntry {
    RootEntry(e.FileDataID, e.CKey, e.FileNameHash, locale, content)
  }

  function AllRecovered(es: seq<WriteEntry>, opts: WriteOptions): (r: seq<RootEntry>)
    ensures |r| == |es|
  {
    seq(|es|, i requires 0 <= i < |es| => Recovered(es[i], ContentOf(es, opts), LocaleOf(opts)))
  }

  // ---- headers ----

  lemma HeaderFields(n: u32, hasHash: bool, content: u32, locale: u32)
    ensures var h := Headers(n, hasHash, content, locale);
            && LE32(At(h, 0, 4)) == WOW_MAGIC && LE32(At(h, 4, 4)) == n
            && LE32(At(h, 8, 4)) == (if hasHash then n else 0)
            && LE32(At(h, 12, 4)) == n && LE32(At(h, 16, 4)) == content && LE32(At(h, 20, 4)) == locale
  {
    HeaderPieces(n, hasHash, content, locale);
    hide Headers, LE, LE32;
    var w: u32 := if hasHash then n else 0;
    FieldLE32(WOW_MAGIC);
    FieldLE32(n);
    FieldLE32(w);
    FieldLE32(content);
    FieldLE32(locale);
  }

  lemma HeaderPieces(n: u32, hasHash: bool, content: u32, locale: u32)
    ensures var h := Headers(n, hasHash, content, locale);
            && At(h, 0, 4) == LE(WOW_MAGIC, 4) && At(h, 4, 4) == LE(n, 4)
            && At(h, 8, 4) == LE(if hasHash then n else 0, 4)
            && At(h, 12, 4) == LE(n, 4) && At(h, 16, 4) == LE(content, 4) && At(h, 20, 4) == LE(locale, 4)
  {
    hide LE;
    var w := LE(if hasHash then n else 0, 4);
    var front := LE(WOW_MAGIC, 4) + LE(n, 4) + w;
    var h := Headers(n, hasHash, content, locale);
    assert h[12..] == LE(n, 4) + LE(content, 4) + LE(locale, 4);
    assert h[..12] == front;
  }

  lemma RootSize(es: seq<WriteEntry>, opts: WriteOptions)
    ensures |Concat(Deltas(es))| == 4 * |es| && |Concat(CKeys(es))| == 16 * |es| && |Concat(Hashes(es))| == 8 * |es|
    ensures |RootBytes(es, opts)| == 24 + (if HasHash(es) then 28 else 20) * |es|
  {
    hide Concat, Headers;
    ConcatLength(Deltas(es), 4);
    ConcatLength(CKeys(es), 16);
    ConcatLength(Hashes(es), 8);
  }

  lemma RootStarts(es: seq<WriteEntry>, opts: WriteOptions, off: nat)
    requires off + 4 <= 24
    ensures |RootBytes(es, opts)| >= 24
    ensures At(RootBytes(es, opts), off, 4) == At(Headers(|es|, HasHash(es), ContentOf(es, opts), LocaleOf(opts)), off, 4)
  {
    hide Concat, Headers;
    var h := Headers(|es|, HasHash(es), ContentOf(es, opts), LocaleOf(opts));
    assert RootBytes(es, opts)[..24] == h;
    PartOfPiece(RootBytes(es, opts), 0, h, off, 4);
  }

  /** What the reader makes of the 24 header bytes. */
  lemma Detected(es: seq<WriteEntry>, opts: WriteOptions)
    requires Fits(es)
    ensures var n, content := |es|, ContentOf(es, opts);
            LayoutOf(RootBytes(es, opts)) == Ok(if Misread(n, content) then Layout(V3, n, false) else Layout(V2, 12, false))
  {
    hide RootBytes, Headers, LE32;
    HeaderFields(|es|, HasHash(es), ContentOf(es, opts), LocaleOf(opts));
    RootStarts(es, opts, 0);
    RootStarts(es, opts, 4);
    RootStarts(es, opts, 8);
    RootStarts(es, opts, 12);
    RootStarts(es, opts, 16);
  }

  // ---- entries ----

  lemma DeltaField(es: seq<WriteEntry>, i: nat)
    requires i < |es|
    ensures |Concat(Deltas(es))| == 4 * |es|
    ensures LE32(At(Concat(Deltas(es)), 4 * i, 4)) == Delta(es, i)
  {
    hide Concat, LE, LE32, Delta;
    ConcatLength(Deltas(es), 4);
    ConcatRecord(Deltas(es), 4, i);
    FieldLE32(Delta(es, i));
    WrapFits(Delta(es, i));
  }

  /** Adding the wrapped difference to the running number gives the file number back. */
  lemma DeltaUndone(id: u32, before: u32)
    ensures Wrap((before as nat) + Wrap(id - before)) == id
  {
  }

  lemma {:induction false} IdsBack(es: seq<WriteEntry>, i: nat)
    requires i < |es|
    ensures |Concat(Deltas(es))| == 4 * |es|
    ensures IdAt(Concat(Deltas(es)), i) == es[i].FileDataID
  {
    hide Concat, LE32, Wrap;
    DeltaField(es, i);
    if i > 0 {
      IdsBack(es, i - 1);
    }
    DeltaUndone(es[i].FileDataID, Expected(es, i));
  }

  lemma KeyField(es: seq<WriteEntry>, i: nat)
    requires i < |es|
    ensures |Concat(CKeys(es))| == 16 * |es|
    ensures At(Concat(CKeys(es)), 16 * i, 16) == es[i].CKey
  {
    hide Concat;
    ConcatLength(CKeys(es), 16);
    ConcatRecord(CKeys(es), 16, i);
  }

  lemma HashField(es: seq<WriteEntry>, i: nat)
    requires i < |es|
    ensures |Concat(Hashes(es))| == 8 * |es|
    ensures LE64(At(Concat(Hashes(es)), 8 * i, 8)) == es[i].FileNameHash
  {
    hide Concat, LE, ReadLE;
    ConcatLength(Hashes(es), 8);
    ConcatRecord(Hashes(es), 8, i);
    ReadLEOfLE(es[i].FileNameHash, 8);
    Pow256Values();
    LowFits(es[i].FileNameHash, 8);
  }

  lemma EntryBack(es: seq<WriteEntry>, gh: GroupHeader, i: nat)
    requires i < |es|
    ensures |Concat(Deltas(es))| == 4 * |es| && |Concat(CKeys(es))| == 16 * |es| && |Concat(Hashes(es))| == 8 * |es|
    ensures EntryV2(Concat(Deltas(es)), Concat(CKeys(es)), if HasHash(es) then Some(Concat(Hashes(es))) else None, i, gh)
         == Recovered(es[i], gh.contentFlags, gh.localeFlags)
  {
    hide Concat, IdAt, LE64, Deltas, CKeys, Hashes;
    IdsBack(es, i);
    KeyField(es, i);
    HashField(es, i);
  }

  lemma EntriesBack(es: seq<WriteEntry>, gh: GroupHeader)
    ensures |Concat(Deltas(es))| == 4 * |es| && |Concat(CKeys(es))| == 16 * |es| && |Concat(Hashes(es))| == 8 * |es|
    ensures var hashes := if HasHash(es) then Some(Concat(Hashes(es))) else None;
            var r := EntriesV2(Concat(Deltas(es)), Concat(CKeys(es)), hashes, |es|, gh);
            forall i :: 0 <= i < |es| ==> r[i] == Recovered(es[i], gh.contentFlags, gh.localeFlags)
  {
    RootSize(es, WriteOptions(0, 0));
    hide Concat, EntryV2, Recovered, RootBytes, HasHash;
    forall i | 0 <= i < |es|
      ensures var hashes := if HasHash(es) then Some(Concat(Hashes(es))) else None;
              EntryV2(Concat(Deltas(es)), Concat(CKeys(es)), hashes, i, gh) == Recovered(es[i], gh.contentFlags, gh.localeFlags)
    {
      EntryBack(es, gh, i);
    }
  }

  /** The one group of a written root, read as it was meant, if its count passes. */
  lemma GroupBack(es: seq<WriteEntry>, opts: WriteOptions)
    requires Fits(es)
    ensures |RootBytes(es, opts)| >= 24
    ensures GroupOf(V2, RootBytes(es, opts)[12..], false)
         == if CountPasses(es, opts) then Ok(Group(AllRecovered(es, opts), |RootBytes(es, opts)| - 12)) else Err(BadFormat)
  {
    hide RootBytes, Headers, Concat, HasHash, FlagsWritten, Deltas, CKeys, Hashes, GroupOf, LocaleOf, GroupHeaderOf;
    GroupHeaderBack(es, opts);
    GroupPieces(es, opts);
    var data, gh := RootBytes(es, opts)[12..], GroupHeader(|es|, ContentOf(es, opts), LocaleOf(opts), 12);
    if CountPasses(es, opts) {
      GroupFromPieces(es, data, gh);
      AllSame(es, opts);
    } else {
      CountRefused(data, gh);
    }
  }

  function EachRecovered(es: seq<WriteEntry>, gh: GroupHeader): (r: seq<RootEntry>)
    ensures |r| == |es|
  {
    seq(|es|, i requires 0 <= i < |es| => Recovered(es[i], gh.contentFlags, gh.localeFlags))
  }

  lemma AllSame(es: seq<WriteEntry>, opts: WriteOptions)
    requires |es| < TWO32
    ensures EachRecovered(es, GroupHeader(|es|, ContentOf(es, opts), LocaleOf(opts), 12)) == AllRecovered(es, opts)
  {
    hide FlagsWritten, HasHash, LocaleOf;
  }

  lemma CountRefused(data: seq<byte>, gh: GroupHeader)
    requires GroupHeaderOf(data, false) == Ok(gh) && 0 < gh.numFiles && gh.numFiles > Wrap(|data|)
    ensures GroupOf(V2, data, false) == Err(BadFormat)
  {
    hide GroupHeaderOf;
  }

  lemma GroupFromPieces(es: seq<WriteEntry>, data: seq<byte>, gh: GroupHeader)
    requires Fits(es) && GroupHeaderOf(data, false) == Ok(gh)
    requires gh.numFiles == |es| && gh.size == 12 && NoNameHash(gh.contentFlags) == !HasHash(es)
    requires |data| == 12 + (if HasHash(es) then 28 else 20) * |es| && |es| <= Wrap(|data|)
    requires At(data, 12, 4 * |es|) == Concat(Deltas(es)) && At(data, 12 + 4 * |es|, 16 * |es|) == Concat(CKeys(es))
    requires HasHash(es) ==> At(data, 12 + 20 * |es|, 8 * |es|) == Concat(Hashes(es))
    ensures GroupOf(V2, data, false) == Ok(Group(EachRecovered(es, gh), |data|))
  {
    hide GroupHeaderOf, Concat, EntriesV2, Recovered, HasHash, Deltas, CKeys, Hashes, NoNameHash, At;
    EntriesBack(es, gh);
    assert GroupEntries(V2, data, gh) == EachRecovered(es, gh);
  }

  lemma GroupHeaderBack(es: seq<WriteEntry>, opts: WriteOptions)
    requires Fits(es)
    ensures |RootBytes(es, opts)| >= 24
    ensures GroupHeaderOf(RootBytes(es, opts)[12..], false) == Ok(GroupHeader(|es|, ContentOf(es, opts), LocaleOf(opts), 12))
  {
    hide RootBytes, Headers, LE32;
    HeaderFields(|es|, HasHash(es), ContentOf(es, opts), LocaleOf(opts));
    var data := RootBytes(es, opts);
    RootStarts(es, opts, 12);
    RootStarts(es, opts, 16);
    RootStarts(es, opts, 20);
    assert At(data[12..], 0, 4) == At(data, 12, 4);
    assert At(data[12..], 4, 4) == At(data, 16, 4);
    assert At(data[12..], 8, 4) == At(data, 20, 4);
  }

  lemma GroupPieces(es: seq<WriteEntry>, opts: WriteOptions)
    ensures var n, data := |es|, RootBytes(es, opts)[12..];
            && |RootBytes(es, opts)| == 24 + (if HasHash(es) then 28 else 20) * n
            && At(data, 12, 4 * n) == Concat(Deltas(es)) && At(data, 12 + 4 * n, 16 * n) == Concat(CKeys(es))
            && (HasHash(es) ==> At(data, 12 + 20 * n, 8 * n) == Concat(Hashes(es)))
  {
    RootSize(es, opts);
    hide Concat, Headers, Deltas, CKeys, Hashes, HasHash;
    PiecesBehind(Headers(|es|, HasHash(es), ContentOf(es, opts), LocaleOf(opts)), Concat(Deltas(es)), Concat(CKeys(es)),
                 if HasHash(es) then Concat(Hashes(es)) else []);
  }

  lemma PiecesBehind(h: seq<byte>, a: seq<byte>, b: seq<byte>, t: seq<byte>)
    requires |h| == 24
    ensures var data := (h + a + b + t)[12..];
            && At(data, 12, |a|) == a && At(data, 12 + |a|, |b|) == b && At(data, 12 + |a| + |b|, |t|) == t
  {
    var data := (h + a + b + t)[12..];
    assert data == h[12..] + a + b + t;
    hide Has;
    assert Has(data, 0, h[12..] + a + b + t) by { WholeHas(data); }
    HasTwo(data, 0, h[12..] + a + b, t);
    HasTwo(data, 0, h[12..] + a, b);
    HasTwo(data, 0, h[12..], a);
    HasAt(data, 12, a);
    HasAt(data, 12 + |a|, b);
    HasAt(data, 12 + |a| + |b|, t);
  }

  lemma WholeHas(s: seq<byte>)
    ensures Has(s, 0, s)
  {
  }

  /** Not misread: every number, key and hash comes back, in ascending order, wrap-around included. */
  lemma RootComesBack(es: seq<WriteEntry>, opts: WriteOptions)
    requires Fits(es) && !Misread(|es|, ContentOf(es, opts))
    ensures AllEntries(RootBytes(es, opts)) == if CountPasses(es, opts) then Ok(AllRecovered(es, opts)) else Err(BadFormat)
  {
    hide RootBytes, GroupOf, LayoutOf, AllRecovered;
    Detected(es, opts);
    GroupBack(es, opts);
    var data := RootBytes(es, opts);
    var none: seq<RootEntry> := [];
    assert GroupsFrom(V2, data, |data|, false) == Ok(none);
    assert AllRecovered(es, opts) + none == AllRecovered(es, opts);
  }

  // ---- the misread case ----

  /** The entry has a name hash, or flags that call for one. */
  predicate CarriesHash(e: RootEntry) { e.FileNameHash != 0 || !NoNameHash(e.ContentFlags) }

  function Hashed(es: seq<RootEntry>): (n: nat)
    ensures n <= |es|
  {
    if |es| == 0 then 0 else Hashed(es[..|es| - 1]) + if CarriesHash(es[|es| - 1]) then 1 else 0
  }

  lemma {:induction false} HashedBoth(a: seq<RootEntry>, b: seq<RootEntry>)
    ensures Hashed(a + b) == Hashed(a) + Hashed(b)
  {
    if |b| == 0 {
      assert a + b == a;
    } else {
      HashedBoth(a, b[..|b| - 1]);
      assert (a + b)[..|a + b| - 1] == a + b[..|b| - 1];
    }
  }

  lemma {:induction false} NoneHashed(es: seq<RootEntry>)
    requires forall i :: 0 <= i < |es| ==> !CarriesHash(es[i])
    ensures Hashed(es) == 0
  {
    if |es| > 0 {
      NoneHashed(es[..|es| - 1]);
    }
  }

  lemma {:induction false} EachHashed(es: seq<RootEntry>)
    requires forall i :: 0 <= i < |es| ==> CarriesHash(es[i])
    ensures Hashed(es) == |es|
  {
    if |es| > 0 {
      EachHashed(es[..|es| - 1]);
    }
  }

  /** A group spends at least 28 bytes on each file that carries a hash, and 12 on its header. */
  lemma GroupCost(fmt: Format, data: seq<byte>, packed: bool)
    requires GroupOf(fmt, data, packed).Ok?
    ensures 28 * Hashed(GroupOf(fmt, data, packed).value.entries) + 12 <= GroupOf(fmt, data, packed).value.consumed
  {
    hide LE32, LE64, IdAt, PackedFlags, NoNameHash, Hashed;
    var gh := GroupHeaderOf(data, packed).value;
    var es := GroupOf(fmt, data, packed).value.entries;
    if gh.numFiles == 0 {
      NoneHashed(es);
    } else if fmt != V1 && NoNameHash(gh.contentFlags) {
      NoneHashed(es);
    }
  }

  lemma {:induction false} GroupsCost(fmt: Format, data: seq<byte>, off: nat, packed: bool)
    requires off <= |data| && GroupsFrom(fmt, data, off, packed).Ok?
    ensures var es := GroupsFrom(fmt, data, off, packed).value;
            28 * Hashed(es) + (if |es| > 0 then 12 else 0) <= |data| - off
    decreases |data| - off
  {
    hide GroupOf, Hashed;
    if off < |data| {
      GroupCost(fmt, data[off..], packed);
      var g := GroupOf(fmt, data[off..], packed).value;
      GroupsCost(fmt, data, off + g.consumed, packed);
      HashedBoth(g.entries, GroupsFrom(fmt, data, off + g.consumed, packed).value);
    } else {
      NoneHashed([]);
    }
  }

  /** A v3 file has 28 bytes behind its header for each file that carries a hash. */
  lemma RoomForHashes(data: seq<byte>, off: nat)
    requires LayoutOf(data) == Ok(Layout(V3, off, false)) && off <= |data| && AllEntries(data).Ok?
    ensures var es := AllEntries(data).value; 28 * Hashed(es) + (if |es| > 0 then 12 else 0) <= |data| - off
  {
    hide LayoutOf, GroupsFrom, Hashed;
    GroupsCost(V3, data, off, false);
  }

  /** Misread: behind the supposed header there is not room for as many files that carry a hash. */
  lemma MisreadIsShort(es: seq<WriteEntry>, opts: WriteOptions, r: seq<RootEntry>)
    requires Fits(es) && Misread(|es|, ContentOf(es, opts))
    requires AllEntries(RootBytes(es, opts)) == Ok(r)
    ensures Hashed(r) < |es|
  {
    hide RootBytes, Hashed, FlagsWritten, AllEntries, Concat, LayoutOf, Deltas, CKeys, Hashes;
    Detected(es, opts);
    RootSize(es, opts);
    RoomForHashes(RootBytes(es, opts), |es|);
  }

  /** Flags small enough to be misread call for name hashes, in every entry of the one group. */
  lemma MisreadLoses(es: seq<WriteEntry>, opts: WriteOptions)
    requires Fits(es) && Misread(|es|, ContentOf(es, opts))
    ensures AllEntries(RootBytes(es, opts)) != Ok(AllRecovered(es, opts))
  {
    hide RootBytes, Hashed, FlagsWritten, HasHash, AllEntries;
    EachHashed(AllRecovered(es, opts));
    if AllEntries(RootBytes(es, opts)).Ok? {
      MisreadIsShort(es, opts, AllEntries(RootBytes(es, opts)).value);
    }
  }

  /**
   * A written root comes back exactly when it is not taken for v3 (fewer than 20 files, more than
   * 256, or content flags above the file count) and its count passes.
   */
  lemma RootComesBackExactly(es: seq<WriteEntry>, opts: WriteOptions)
    requires Fits(es)
    ensures AllEntries(RootBytes(es, opts)) == Ok(AllRecovered(es, opts))
       <==> !Misread(|es|, ContentOf(es, opts)) && CountPasses(es, opts)
  {
    RootSize(es, opts);
    hide AllEntries, RootBytes, AllRecovered;
    if !Misread(|es|, ContentOf(es, opts)) {
      RootComesBack(es, opts);
    } else {
      MisreadLoses(es, opts);
    }
  }

  /** Roots below 4 GiB pass. */
  lemma SmallCountPasses(es: seq<WriteEntry>, opts: WriteOptions)
    requires |RootBytes(es, opts)| < TWO32
    ensures CountPasses(es, opts)
  {
    RootSize(es, opts);
    hide RootBytes, HasHash;
    WrapFits(|RootBytes(es, opts)| - 12);
  }

  /** A root just above 4 GiB that is refused: 2^32 is less than 20 bytes for each of its files. */
  lemma LargeRootRefused(es: seq<WriteEntry>, opts: WriteOptions)
    requires |es| == 0xCCC_CCCD && !HasHash(es)
    ensures AllEntries(RootBytes(es, opts)) == Err(BadFormat)
  {
    RootSize(es, opts);
    hide RootBytes, AllEntries, HasHash;
    RootComesBack(es, opts);
    assert |RootBytes(es, opts)| - 12 == TWO32 + 16;
  }

  /** The list holds these numbers, keys and hashes, whatever its flags. */
  ghost predicate SameFiles(r: seq<RootEntry>, es: seq<WriteEntry>) {
    |r| == |es| && forall i :: 0 <= i < |es| ==> WriteEntry(r[i].FileDataID, r[i].CKey, r[i].FileNameHash) == es[i]
  }

  /** With a hash on every file a misread root does not even give the hashes back, whatever its flags. */
  lemma MisreadLosesHashes(es: seq<WriteEntry>, opts: WriteOptions, r: seq<RootEntry>)
    requires Fits(es) && Misread(|es|, ContentOf(es, opts))
    requires forall i :: 0 <= i < |es| ==> es[i].FileNameHash != 0
    requires AllEntries(RootBytes(es, opts)) == Ok(r)
    ensures !SameFiles(r, es)
  {
    hide RootBytes, Hashed, FlagsWritten, AllEntries, HasHash;
    MisreadIsShort(es, opts, r);
    if SameFiles(r, es) {
      forall i | 0 <= i < |r|
        ensures CarriesHash(r[i])
      {
        assert r[i].FileNameHash == es[i].FileNameHash;
      }
      EachHashed(r);
    }
  }

  /** A root that is lost: twenty files, one of them with a name hash, written with default options. */
  lemma DefaultOptionsMisread(es: seq<WriteEntry>)
    requires |es| == 20 && HasHash(es)
    ensures AllEntries(RootBytes(es, WriteOptions(0, 0))) != Ok(AllRecovered(es, WriteOptions(0, 0)))
  {
    hide AllEntries, RootBytes, AllRecovered;
    MisreadLoses(es, WriteOptions(0, 0));
  }

  // ---- lookup ----

  lemma {:induction false} ByIdHolds(es: seq<RootEntry>, i: nat)
    requires i < |es| && forall a, b :: 0 <= a < b < |es| ==> es[a].FileDataID != es[b].FileDataID
    ensures es[i].FileDataID in ById(es) && ById(es)[es[i].FileDataID] == es[i]
  {
    if i < |es| - 1 {
      ByIdHolds(es[..|es| - 1], i);
    }
  }

  /** Every file of a root that comes back is found by its number. */
  lemma FileFound(es: seq<WriteEntry>, opts: WriteOptions, i: nat)
    requires Fits(es) && !SomeTwice(es) && !Misread(|es|, ContentOf(es, opts)) && i < |es|
    requires CountPasses(es, opts)
    ensures AllEntries(RootBytes(es, opts)).Ok?
    ensures var byId := ById(AllEntries(RootBytes(es, opts)).value);
            es[i].FileDataID in byId && byId[es[i].FileDataID] == Recovered(es[i], ContentOf(es, opts), LocaleOf(opts))
  {
    hide AllEntries, RootBytes, ById, Misread, FlagsWritten;
    RootComesBack(es, opts);
    var r := AllRecovered(es, opts);
    assert r[i] == Recovered(es[i], ContentOf(es, opts), LocaleOf(opts));
    ByIdHolds(r, i);
  }
}
