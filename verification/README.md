# casclib: verified model

This project models the parts of go-casclib where a short specification stands behind a long
implementation, and proves that the two agree. Every file is one module; modules follow the
packages of the repository.

**The succinct trie of MNDX roots** (`internal/root/mndx/trie.go`). `Popcount`, `SelectTable`,
`BitVectors`, `SparseArrays` and `SparseArrayBuild` are the rank/select bit vector: the packed
popcount, the byte table, two-level counts and group search, against plain counting of bits.
`BitEntries` is the array of packed integers. `Louds` reads a bit vector as a tree. `FileNames` gives
the meaning of the tables: the label of a node, the path restored from a node, what a hash slot may
say. `Restoring` and `Enumerating` run the copying walk and the resumable enumerator, `Preorder` says
what enumeration is for, `FragmentTexts`, `LookingUp` and `SlotHash` do exact lookup. `TrieExample`
shows that the conditions of these theorems can be met together.

**The write and read pipeline.** `Blte`, `BlteReader` and `BlteRoundTrip` are BLTE streams;
`EncodedHeaders`, `Archive` and `Allocation` the 30-byte wrapper, the segment allocator and its
behaviour over every run; `IndexV1`, `IndexEntries`, `IndexV1Reader`, `IndexV2Reader` and
`IndexV2RoundTrip` the local index in both versions; `Encoding`, `EKeyLayout`, `EncodingReader`,
`EncodingRoundTrip` and `LargePages` the ENCODING manifest; `Install` and `InstallReader` the
INSTALL manifest; `FirstWins` and `Lookup` the key map. `Flush` composes the writers, and `EndToEnd`
opens what was written and reads every name back.

**Independent pieces.** `ArchiveSets`, `Loader` and `Merging` are the parallel archive-index loader,
as a step system over all interleavings of the workers and the merge after it. `Tvfs*` and `Wow*` are
two root codecs. `Salsa20Spec` is the Salsa20 specification (D. J. Bernstein, "Salsa20
specification", sections 2 to 10) and `Salsa20` the cipher as the repository writes it.

Shared: `Words` and `Bitwise` (32-bit counters and words, bitwise operations on numbers), `Bytes`
(integers in byte strings, buffers with a cursor), `Seqs`, `Sorting`, `Wrappers`, `Environment`.

## How it is modelled

- Code that fills buffers, moves cursors or updates fields is a method over arrays and classes with
  loop invariants, proved equal to a function of its inputs or old state; what the repository promises
  is then proved about that function. One-line accessors and case splits are functions.
- Go's `uint32` arithmetic is written out with `Wrap`; shifts and bitwise operations on counters are
  functions on numbers, the words of the bit vectors are `bv32`. Bytes are numbers below 256; a Go
  `string` is a sequence of bytes.
- A panic on a table index is the outcome `None` (or `false` from the copying walk), so the table
  readers are total on arbitrary tables. What they compute is promised for well-formed tables, and
  `SparseArrayBuild.BuildWellFormed` shows that every bit sequence has such tables.
- MD5, the Jenkins hash, zlib, bzip2, LZMA and the decryption callback are arbitrary functions in
  `Environment.Codecs`; a theorem states the assumption it needs of them. The name hash of a root and
  the lower-casing of TVFS names are arbitrary functions too.
- A data directory is a map from segment numbers to contents. `sort.Slice` is any sorted
  rearrangement, so nothing depends on how equal keys are ordered. The DOWNLOAD manifest that Flush
  writes is an arbitrary byte string.

## What the proofs show about the code

- Both wide branches of the group searches can miss the block (`SparseArrayBuild.WideSelectFails`
  has one vector for each). Select is exact if and only if `ExactIndex` holds, which reads the tables
  only and always holds when the searched range is under ten blocks.
- Enumeration stays clear of the step cap of 65536 if and only if the trie's work, a number read off
  its tree and labels, is below the cap; then it is complete. Otherwise the first names come out, and
  only the last of them can have a path cut short.
- Comparing a fragment of a table with marks tests the table offset against the mask's length, so a
  fragment of two bytes or more is found if and only if it also ends within as many bytes from the
  start of the table as the mask has (`FragmentTexts.CompareText`, `FragmentTexts.MarkedTextMissed`).
- A range written by the segment allocator ends within the segment size unless it is the first in a
  segment that already held too much (`Allocation.RunEndsWithin`, `Allocation.LastByteOverrun`); in a
  new directory every range does.
- A BLTE stream with 2^24 frames or more (its header size still within 32 bits) decodes, without an
  error, to its leading chunks only; the header-less form is written for content of any size, although
  its comment says that the input must fit one frame.
- An index entry survives if and only if its offset is below 2^30 and its segment number below 2^10.
- With pages of up to 65535 KB an ENCODING manifest survives if and only if every entry has 1 to
  65535 keys, a 32-bit size and a record that fits a page. With larger pages only the remainder of
  the size by 65536 KB is stored. Then a manifest of distinct keys survives if and only if all its
  records together fit that remainder: one written on several pages never does, because the reader
  takes no more bytes than the remainder for each page, and the pages hold more.
- The index of the optional EKey pages names no key for a page that starts with an entry without
  keys, even when records follow on that page (`EKeyLayout.IndexedKey`).
- A v2 WoW root is read as v3 if and only if it has 20 to 256 files and content flags not above the
  file count. It comes back if and only if it is not, and its file count passes the reader's check
  against the remaining size as 32 bits give it. With the default options the misread ones are all
  roots of 20 to 256 files with a name hash among them; the check refuses only roots of 4 GiB and more.
- A TVFS root whose offsets fit 32 bits lists its entries if and only if its folder size and all node
  values leave bit 31 free (`TvfsLimits.RootListsExactly`). Below 4 GiB the folder size alone decides.
  When the offsets do not fit, the writer's buffer is too short and slicing it panics, unless path table
  or file table are themselves that large (`Tvfs.SliceableExactly`).
- Flushing into a directory whose segments are below 1 GiB reads back. On a data.000 of 1 GiB or more the
  index entry of the first span names a place in a later segment (`EndToEnd.LocationLost`).
- The reader takes the wrapper of a span for its stream if and only if the key, read backwards,
  starts with the BLTE signature. The span is then unreadable for header sizes 1 to 11 and above the
  span's length, and for all others but zero unless the key goes on in one way
  (`EndToEnd.SignatureInKey`), so the end-to-end theorem assumes that no key does.

## Model

| member | source | states |
|---|---|---|
| Popcount.SetBitsAll | internal/root/mndx/trie.go:77-83 | the four bytes of the result are the numbers of one bits in the low 8, 16, 24 and 32 bits, with no carry between bytes |
| Popcount.Popcount32 | internal/root/mndx/trie.go:85 | the result is the number of one bits of the word |
| Popcount.ByteCounts | internal/root/mndx/trie.go:77-83 | after the folding steps each byte counts the one bits of that byte of the input |
| Popcount.SpreadSum | internal/root/mndx/trie.go:77-83 | the multiplication by 0x01010101 turns four byte counts into running sums, each within its byte |
| SelectTable.InitBitPos8Table | internal/root/mndx/trie.go:48-75 | the 0x800 entries are what their index says: the position of the (n+1)-th one bit of byte b at index n << 8 or b |
| SelectTable.ScanByte | internal/root/mndx/trie.go:50-75 | the innermost loop finds that position, and 7 when there are not enough one bits |
| SelectTable.BitPosIsSelect | internal/root/mndx/trie.go:48-75 | whenever the byte has more than n one bits the entry is the bit that has n one bits before it |
| BitVectors.SelectUnique | internal/root/mndx/trie.go:573-772 | positions of b-bits rise with their numbers, so select is well defined and inverse to rank |
| BitVectors.SelectBelow | internal/root/mndx/trie.go:509-571 | comparing a position with a boundary is comparing its number with the rank at the boundary: why counts decide the block |
| SparseArrays.SparseArray.GetItemValueAt | internal/root/mndx/trie.go:460-501 | rank: on well-formed tables the number of one bits before the index |
| SparseArrays.SparseArray.FindGroupItems0 | internal/root/mndx/trie.go:509-539 | never a block that starts after the sought zero bit; on a range under ten blocks its block, on a wide one exactly when the bit is in the first block |
| SparseArrays.SparseArray.FindGroupItems1 | internal/root/mndx/trie.go:541-570 | never a block that starts after the sought one bit; on a range under ten blocks its block, on a wide one exactly when one halving step reaches it |
| SparseArrays.SparseArray.BlockDecides | internal/root/mndx/trie.go:509-571 | the position found is the sought one if and only if the block found is the right one |
| SparseArrays.SparseArray.GetItem0 | internal/root/mndx/trie.go:573-671 | the position of the (n+1)-th zero bit, if and only if the tables are exact for n; a narrow range makes them exact |
| SparseArrays.SparseArray.GetItem1 | internal/root/mndx/trie.go:674-772 | the position of the (n+1)-th one bit, if and only if the tables are exact for n; a narrow range makes them exact |
| SparseArrays.SparseArray.PartOf | internal/root/mndx/trie.go:580-640 | the 64-bit part chosen by the block's packed counts holds the sought bit, and what is left of n is its number within the part |
| SparseArrays.TableFinds | internal/root/mndx/trie.go:645-671 | the lookup in the byte table stays below 0x800 and yields the sought bit of the byte |
| SparseArrays.SelectInWord | internal/root/mndx/trie.go:645-671 | byte choice and table lookup find the bit with the wanted number in a word |
| SparseArrayBuild.BuildWellFormed | internal/root/mndx/trie.go:225-236 | every bit sequence has well-formed tables: one record per 512-bit block and a total, every 512th position and a sentinel |
| SparseArrayBuild.WideSelectFails | internal/root/mndx/trie.go:528-567 | for zeros and for ones there is a well-formed vector on whose wide range select is wrong |
| TrieExample.SmallIsExact | internal/root/mndx/trie.go:523-558 | tables built for fewer than ten blocks answer every select exactly |
| BitEntries.BitEntryArray.Get | internal/root/mndx/trie.go:361-389 | the entry is the number in the bit slice from idx * BitsPerEntry on, also across word boundaries |
| Louds.ChildrenAreRun | internal/root/mndx/trie.go:1118-1122 | the run after the v-th zero holds exactly the nodes whose parent is v: first child and parent navigation are inverse |
| Louds.RunsPartition | internal/root/mndx/trie.go:1453-1457 | each node but the root lies in the run of exactly one node, its parent, which comes before it |
| Louds.CursorBit | internal/root/mndx/trie.go:1460-1464 | the bit under a cursor inside v's run is one, and the bit at the end of the run is zero |
| Louds.RunStart | internal/root/mndx/trie.go:1118-1119 | GetItem0(v) + 1 is where v's run starts, and less v and one it is the number of v's first child |
| Louds.ParentOf | internal/root/mndx/trie.go:1213-1214 | GetItem1(c) - c - 1, in both spellings, is the parent of c |
| Restoring.MndxSearch.CopyText | internal/root/mndx/trie.go:835-855 | appends the text up to a zero byte, or up to and including a marked byte |
| Restoring.FragmentOffset1 | internal/root/mndx/trie.go:1064-1073 | packed high bits at the node's string rank, then the low byte: the node's fragment number |
| Restoring.CopyFragment | internal/root/mndx/trie.go:1230-1251 | appends the fragment, from text or from the nested trie, at its cost in steps of the shared budget |
| Restoring.WalkStep | internal/root/mndx/trie.go:1228-1260 | at any node the cached slot and the tables give the same label and the same parent, and both end at level one |
| Restoring.CopyPathFragmentByIndex | internal/root/mndx/trie.go:1224-1263 | terminates on arbitrary tables; on a well-formed trie appends exactly the labels met up to level one, or a prefix of them when the shared budget runs out |
| Preorder.EveryNodeOnce | internal/root/mndx/trie.go:1424-1509 | the pre-order list of a tree holds every node exactly once |
| Preorder.EveryNameOnce | internal/root/mndx/trie.go:1424-1509 | every terminal is in the name list exactly once, under its own index |
| Preorder.OnlyNames | internal/root/mndx/trie.go:1424-1509 | nothing else is in the name list |
| Enumerating.PushStep | internal/root/mndx/trie.go:1451-1458 | opening a level keeps the all-levels invariant and the list of nodes still to come |
| Enumerating.VisitStep | internal/root/mndx/trie.go:1460-1487 | entering the next node keeps every cursor at the next unvisited bit of its level and both cached ranks right, and takes the node off the list |
| Enumerating.PopStep | internal/root/mndx/trie.go:1491-1501 | leaving a level keeps the invariant; the level's cursor stays where its next run begins |
| Enumerating.DoneStep | internal/root/mndx/trie.go:1492-1495 | a clear bit on the lowest level means that nothing is left |
| Enumerating.FragmentOffset2 | internal/root/mndx/trie.go:1075-1088 | the string rank is computed once per level and counted from then on, and always is the rank it caches |
| Enumerating.VisitNode | internal/root/mndx/trie.go:1460-1490 | one visit copies the label, reports the node if and only if it is a name, and keeps the promise about the rest of the run |
| Enumerating.Advance | internal/root/mndx/trie.go:1450-1506 | the next name in order, or the end, or the step cap, at which the name may still be reported with its path cut short |
| Enumerating.DoSearch | internal/root/mndx/trie.go:1424-1509 | with an empty mask: reports the first of the remaining names and leaves the others, or stops when none remain; when the cap is hit on the way, what it still reports is that name, its path at worst cut short |
| Enumerating.Enumerate | internal/root/mndx/trie.go:1538-1549 | repeated calls give exactly the name list in pre-order, and the cap stays out of reach if and only if the trie's work is below it; otherwise the first names of the list, all but the last exact and that one with its own index and a prefix of its path |
| SlotHash.SlotTellsByte | internal/root/mndx/trie.go:960-962 | in a table of a multiple of 256 slots, two bytes of one node never share a slot |
| LookingUp.HitForcesLabel | internal/root/mndx/trie.go:1095-1116 | a slot that matches on the parent alone belongs to the child whose label begins with the mask's next byte |
| FragmentTexts.CompareText | internal/root/mndx/trie.go:794-833 | for any table and offset: true if and only if the fragment has an end, the mask continues with it and, in a table with marks, the offset test lets the comparison get there; after a failure the position moved only if the first byte agreed |
| FragmentTexts.MarkedTextMissed | internal/root/mndx/trie.go:827-829 | a marked fragment equal to the mask that is not found because it stands too far back in the table |
| LookingUp.ComparePathFragmentByIndex | internal/root/mndx/trie.go:1153-1217 | the same for the labels met walking up, through cached slots and nested tries |
| LookingUp.OthersFail | internal/root/mndx/trie.go:1137-1139 | once one sibling begins with the mask's next byte no other can match |
| LookingUp.ComparePathFragment | internal/root/mndx/trie.go:1093-1150 | moves to the child whose label the mask continues with, and fails if and only if there is none |
| LookingUp.PathsNest | internal/root/mndx/trie.go:1398-1420 | a node whose path begins another node's path lies above it |
| LookingUp.PathIsUnique | internal/root/mndx/trie.go:1398-1420 | no two nodes have the same path |
| LookingUp.FindFileInDatabase | internal/root/mndx/trie.go:1398-1420 | succeeds with index i if and only if the mask with index i is in the name list that enumeration yields |
| TrieExample.OneNameIsLookupable | internal/root/mndx/trie.go:975-988 | a trie of one name meets all conditions of lookup and enumeration, and lists that name |
| TrieExample.NestedIsLookupable | internal/root/mndx/trie.go:975-988 | so does a trie with a used hash slot whose label is a path of a nested trie |
| Blte.CutChunks | internal/datafile/encoder.go:104-118 | the chunk loop over a moving offset cuts the content every FrameSize bytes, one empty chunk for empty content |
| Blte.Encode | internal/datafile/encoder.go:58-180 | the stream of the format, header-less or with a frame table, and the digests of content and stream; the first frame error, or an unknown mode, is the error |
| Blte.WriteStream | internal/datafile/encoder.go:136-175 | the buffer filled through a cursor is fixed header, frame table, frames |
| BlteReader.ParseHeader | internal/datafile/blte.go:45-102 | the header that the bytes describe, or the format error, for any input |
| BlteReader.DecodeAll | internal/archive/archive.go:199-217 | the frames in order from the cursor on, or the first failure |
| BlteReader.DecodeSpanWithOptions | internal/archive/archive.go:165-218 | the decoded content of a span with or without its wrapper, encrypted and zero-padded frames included |
| BlteRoundTrip.FrameRoundTrip | internal/datafile/blte.go:131-203 | decoding a frame gives the chunk back whichever mode byte was chosen |
| BlteRoundTrip.HeaderOfStream | internal/datafile/blte.go:77-101 | the header of a written stream reads back sizes and digests, the frame count cut to 24 bits |
| BlteRoundTrip.ChunksPartition | internal/datafile/encoder.go:104-118 | the chunks are the content, all but the last full, none after the first empty |
| BlteRoundTrip.ChunkCount | internal/datafile/encoder.go:104-118 | as many chunks as the content needs and no more |
| BlteRoundTrip.HeaderFormRoundTrip | internal/datafile/encoder.go:97-179 | decoding always succeeds with a prefix of the content, and gives the content if and only if there are fewer than 2^24 frames; any frame size, the frames below 4 GiB |
| BlteRoundTrip.TooManyFrames | internal/datafile/encoder.go:151-154 | 2^24 + 1 bytes in frames of one byte do not come back |
| BlteRoundTrip.BareFormRoundTrip | internal/datafile/encoder.go:78-95 | the header-less form gives the content back at any size |
| EncodedHeaders.BuildEncodedHeader | internal/archive/writer.go:204-239 | the 30 bytes of the wrapper, filled and folded in place |
| EncodedHeaders.HeaderChecks | internal/archive/writer.go:193-239 | the wrapper carries the key backwards, the size, the hash of its first 22 bytes, and its bytes at each residue modulo 4 add up to the masked offset |
| Archive.Writer.constructor | internal/archive/writer.go:70-83 | a new writer on a directory; size zero selects 1 GiB |
| Archive.Writer.Close | internal/archive/writer.go:86-100 | closes the writer and leaves the directory as it is |
| Archive.Writer.OpenSegment | internal/archive/writer.go:172-191 | the current segment is created or reopened and the offset is its end |
| Archive.Writer.WriteSpan | internal/archive/writer.go:113-170 | a closed writer, a short stream and a span larger than a segment are refused without a trace; otherwise the segment rolls over only if needed and gets header and stream at its end |
| Allocation.SpansDisjoint | internal/archive/writer.go:133-167 | of two spans the earlier one ends before the later one begins |
| Allocation.RunIsLaid | internal/archive/writer.go:113-170 | every run, whatever the directory held, keeps the layout: each span right behind the last one if it fits, or else behind all that the next segment held |
| Allocation.RunAllocates | internal/archive/writer.go:113-191 | over every run in any directory the ranges hold exactly header and stream, are pairwise disjoint, cover every byte that was not there before and none that was, and what was there stays |
| Allocation.RunEndsWithin | internal/archive/writer.go:133-150 | a range ends within the segment size if and only if it is not the first the run puts into its segment, or the segment had room for it |
| Allocation.NewRunEndsWithin | internal/archive/writer.go:133-150 | in a new directory every range ends within the segment size |
| Allocation.LastByteOverrun | internal/archive/writer.go:146-150 | on a first segment one byte short of full the first range ends past the segment size |
| Allocation.RunOnlyGrows | internal/archive/writer.go:150-167 | later writes never change earlier spans or records |
| Bytes.WriteBE | internal/index/writer.go:149-154 | the shifting loop stores the low bytes of the value, most significant first, and nothing else |
| Bytes.ReadBigEndian | internal/index/index.go:406-413 | the shift-and-or loop is the positional value of the bytes |
| Sorting.KeyLess | internal/index/writer.go:156-164 | the loop over the first difference is the dictionary order of the first n bytes |
| IndexV1.EncodeV1 | internal/index/writer.go:53-135 | header, hashes and two blocks of some key-sorted rearrangement of the entries |
| IndexV1.WriteEntryV1 | internal/index/writer.go:141-147 | an entry's 18 bytes at its place, everything else unchanged |
| IndexV1Reader.LoadEntriesV1 | internal/index/index.go:323-337 | the entries at successive 18-byte steps, or an error when the file is too short |
| IndexV1Reader.Parse | internal/index/index.go:70-93 | a valid V2 header decides for V2 and its entries, otherwise the V1 header and entries, for any input |
| IndexV1Reader.NeverV2 | internal/index/index.go:190-203 | a file whose bytes 8 and 9 are zero, as in every written V1 file, is never taken for V2 |
| IndexV1Reader.HeaderAccepted | internal/index/index.go:96-187 | a written header passes all checks for its own bucket and is rejected for any other |
| IndexV1Reader.StoredExact | internal/index/index.go:387-404 | an entry's location survives if and only if the offset is below 2^30 and the segment number below 2^10 |
| IndexV1Reader.IndexRoundTrip | internal/index/index.go:70-93 | parsing a written file gives the sorted entries for every block split, and only for its own bucket |
| IndexV2Reader.CaptureEntriesBlock | internal/index/index.go:253-296 | the payload if either chained hash over its entries is the stored one, otherwise the error |
| IndexV2Reader.LoadEntriesV2 | internal/index/index.go:339-384 | the entries of the block if there is a valid one, otherwise those of all pages, for any input |
| IndexV2RoundTrip.BlockFileParses | internal/index/index.go:339-353 | a V2 file with its entries in one hashed block lists them in order if and only if there are any, and only for its own bucket |
| IndexV2RoundTrip.PagedFileParses | internal/index/index.go:355-381 | a paged V2 file lists the entries of all pages in order, however full each page is, if and only if it has at least eight pages, and only for its own bucket |
| Encoding.FillPage | internal/encoding/writer.go:147-184 | the inner loop takes records as long as they fit, at least one, and leaves zeros behind them |
| Encoding.LayoutCKeyPages | internal/encoding/writer.go:133-198 | terminates, and yields the greedy pages with first key and digest of each |
| Encoding.FillEKeyPage | internal/encoding/writer.go:216-227 | the inner loop puts down one record for each entry with keys while there is room, and leaves zeros behind them |
| Encoding.LayoutEKeyPages | internal/encoding/writer.go:202-248 | terminates, also over entries without keys, and yields the pages with first key and digest of each |
| EKeyLayout.EveryKeyRecorded | internal/encoding/writer.go:202-240 | the EKey pages hold the records in order, none over its page, and every page but the last is full |
| EKeyLayout.RecordOfEntry | internal/encoding/writer.go:218-223 | there is one record for each entry with keys, in order, under the entry's own place |
| EKeyLayout.IndexedKey | internal/encoding/writer.go:210-214 | the index names the key of a page's first record if and only if the page's first entry has a key, the zero key aside |
| Encoding.Encode | internal/encoding/writer.go:55-129 | the manifest of some key-sorted rearrangement of the entries, with or without EKey pages, or an error for page sizes that are not whole KB |
| EncodingReader.ParsePage | internal/encoding/encoding.go:108-139 | the records of a page up to a zero count, stored in the map in order, or an error for a record that leaves the page |
| EncodingReader.Parse | internal/encoding/encoding.go:55-145 | the header and the map of all records, or the error, for any input |
| EncodingReader.TakenIsGreedy | internal/encoding/writer.go:151-167 | what is put on a page fits, and one more record would not |
| EncodingReader.PagesPartition | internal/encoding/writer.go:145-189 | the pages hold the sorted entries in order, none empty, and each page has no room for the next page's first record |
| EncodingReader.PageRead | internal/encoding/encoding.go:111-139 | a written page is read record by record up to its padding |
| EncodingRoundTrip.ReadEntriesAlwaysFit | internal/encoding/encoding.go:111-138 | whatever file is parsed, its entries have 1 to 65535 keys, a 32-bit size and fit a page of it |
| EncodingRoundTrip.EncodingComesBack | internal/encoding/encoding.go:55-145 | with or without EKey pages, a manifest parses to exactly the map of its entries if and only if every entry has 1 to 65535 keys, a 32-bit size and a record that fits a page |
| EncodingRoundTrip.PageSizeTooLarge | internal/encoding/writer.go:99 | with pages of any multiple of 65536 KB every manifest reads as empty, so it comes back if and only if it has no entries |
| LargePages.LargePageComesBack | internal/encoding/writer.go:99 | with pages of 65536 KB or more a manifest of distinct keys comes back if and only if its records together fit the remainder of the page size by 65536 KB, and every entry has 1 to 65535 keys and a 32-bit size |
| LargePages.SeveralPages | internal/encoding/writer.go:145-189 | records on two or more such pages have more bytes than the reader looks at, one remainder for each page |
| Install.Encode | internal/root/install/writer.go:43-112 | header, tags and entries in the order given, or an error for a hash size above 16 |
| InstallReader.ParseTags | internal/root/install/install.go:130-151 | the tags from the cursor on and where they end, or the format error |
| InstallReader.ParseEntries | internal/root/install/install.go:153-184 | the entries until the count or the data is exhausted, with the name map and the hash map filled in order |
| InstallReader.Parse | internal/root/install/install.go:97-187 | the handler of the manifest, or the error, for any input |
| InstallReader.ReadNamesAreNulFree | internal/root/install/install.go:155-160 | whatever file is parsed, no name in it holds a zero byte and it has at most 65535 tags |
| InstallReader.InstallComesBack | internal/root/install/install.go:97-187 | a manifest comes back, tags and bitmaps included, if and only if no name holds a zero byte and there are at most 65535 tags |
| InstallReader.WrittenNameFound | internal/root/install/install.go:193-203 | with distinct names every name of a written manifest is found with its key and size |
| FirstWins.AddedKeys | internal/storage/lookup.go:59-66 | merging keeps what is there, adds every new key, and each new value comes from a pair with that key |
| FirstWins.AddedFirst | internal/storage/lookup.go:59-66 | a new key gets the value of its first pair |
| FirstWins.FoundFirst | internal/storage/lookup.go:46-69 | in a map filled from several lists in turn every key has the value of its first pair in all of them |
| FirstWins.AllFound | internal/storage/lookup.go:46-69 | and the key of every pair in every list is there |
| Lookup.Storage.BuildEKeyMap | internal/storage/lookup.go:46-69 | indexes in order, entries in order, the first entry of a nine-byte key stays |
| Lookup.Storage.FindByEKey | internal/storage/lookup.go:72-83 | found if and only if an entry of some index has the key's first nine bytes, and then it is the first such entry, indexes in order and entries in order |
| Flush.ListFiles | pkg/casc/flush.go:79-86 | every file of the overlay exactly once, in name order |
| Flush.WriteContent | pkg/casc/flush.go:106-127 | a content becomes one raw stream in one span, or is refused because the span is larger than a segment |
| Flush.WriteFiles | pkg/casc/flush.go:129-149 | each user file has its span, its ENCODING entry and its INSTALL entry |
| Flush.Flush | pkg/casc/flush.go:55-214 | the composition of all writers; it fails only at a content whose span is larger than a segment |
| EndToEnd.SpanDecodes | internal/archive/archive.go:165-242 | a written span decodes to its content when its wrapper does not read as a signature |
| EndToEnd.SignatureInKey | internal/archive/archive.go:222-242 | a key that starts, backwards, with the signature has its wrapper decoded as the stream: the format error for header sizes 1 to 11, for any above the span's length, and for any but zero unless the key's next byte is the table's flag |
| EndToEnd.KeysFound | internal/storage/lookup.go:46-83 | the map built from a written index leads each key to an entry of that index with the same nine bytes |
| EndToEnd.KeyReads | internal/storage/lookup.go:98-114 | reading by encoded key gives the content written under it |
| EndToEnd.EncodingKnows | internal/storage/lookup.go:168-186 | ENCODING read back knows the encoded key of every content it lists |
| EndToEnd.StorageOpens | internal/storage/lookup.go:190-231 | opening the flushed directory finds ENCODING, and through it the root |
| EndToEnd.FlushReadsBack | pkg/casc/flush.go:55-214 | for every overlay of names without zero bytes, after Flush into any directory with segments below 1 GiB every name gives exactly the bytes added, if digests do not collide, no wrapper reads as a signature and at most 1024 segments were used |
| EndToEnd.OffsetBelow | internal/archive/writer.go:133-191 | an entry's offset is below 1 GiB, as the index needs it, if and only if the span is not put behind 1 GiB or more that its segment held before |
| EndToEnd.LocationLost | internal/archive/writer.go:146-191 | on a first segment of 1 GiB or more the index entry of the first span names a later segment |
| EndToEnd.FullSegmentUnreadable | internal/index/index.go:387-404 | with a full first segment and zeros at the start of the second the first span cannot be read by its index entry |
| EndToEnd.FlushAndOpenFile | pkg/casc/casc.go:296-336 | flushing, opening the directory and reading one name returns the bytes of the overlay under the same assumptions; it fails before that only at a content whose span is larger than a segment |
| ArchiveSets.ArchiveSet.Add | internal/cdn/archive_set.go:52-69 | the places of an index are merged, keys already there keep theirs, and the set stays the map of all indexes added |
| ArchiveSets.ArchiveSet.Lookup | internal/cdn/archive_set.go:72-82 | found if and only if an entry of some index added has the key's first nine bytes, and then it is the place that the first such entry gives, in the order added |
| Loader.StepKeepsInv | internal/storage/cdn_archives.go:79-108 | each step of any worker keeps every hash in exactly one place: still to be taken, with one worker, or among the results |
| Loader.SendNeverBlocks | internal/storage/cdn_archives.go:79-106 | in no interleaving does a send find the results channel full |
| Loader.NoDeadlock | internal/storage/cdn_archives.go:88-110 | in every reachable state each worker that is not done has a step to take |
| Loader.RunsAreShort | internal/storage/cdn_archives.go:88-110 | no interleaving takes more than three steps per hash and one per worker |
| Loader.EachHashOnce | internal/storage/cdn_archives.go:88-111 | when all workers are done each hash was taken once and has one result |
| Merging.MergeResults | internal/storage/cdn_archives.go:113-133 | the results are merged in order, and an error, that of the first result that failed, is returned if and only if the set is empty and something failed |
| Merging.KeysAreUnion | internal/storage/cdn_archives.go:115-125 | the merged keys are the union of the keys of the parsed indexes |
| Merging.PlacesAreReal | internal/storage/cdn_archives.go:115-125 | each merged place is one that a parsed index gives for that key |
| Merging.OrderDoesNotMatter | internal/cdn/archive_set.go:52-69 | when no two indexes share a key, results in any order merge to the same map |
| Merging.InterleavingDoesNotMatter | internal/storage/cdn_archives.go:79-125 | two runs to the end with the same outcome per hash merge to the same map, whatever the interleaving and the number of workers |
| Salsa20.RolIsRotation | internal/decrypt/salsa20.go:100 | the two shifts or-ed are the left rotation of the specification |
| Salsa20.QuarterInPlace | internal/decrypt/salsa20.go:107-110 | four updates in place are the quarter-round of the four words |
| Salsa20.ColumnRoundInPlace | internal/decrypt/salsa20.go:106-125 | the sixteen column updates are the specification's column-round |
| Salsa20.RowRoundInPlace | internal/decrypt/salsa20.go:127-146 | the sixteen row updates are the specification's row-round |
| Salsa20.Salsa20Block | internal/decrypt/salsa20.go:103-152 | one block is the specification's hash of the state words |
| Salsa20.StateIsExpansion | internal/decrypt/salsa20.go:42-75 | for every block number the state is the specification's key expansion, for 16-byte and 32-byte keys |
| Salsa20.CountUp | internal/decrypt/salsa20.go:93-96 | the two counter words go to the next block number, carry included |
| Salsa20.Salsa20XOR | internal/decrypt/salsa20.go:33-98 | the encryption function of the specification for every length, also in place; it panics exactly on a short destination or a wrong nonce or key size |
| Salsa20Spec.EncryptTwice | internal/decrypt/salsa20.go:27-33 | applying the cipher twice is the identity for every length; likewise two ciphertexts under one key and nonce differ by what their messages differ (`SameStream`) |
| Tvfs.Encode | internal/root/tvfs/writer.go:53-145 | an error if and only if a name has no bytes or more than 254, a panic if and only if a table reaches past the buffer, and the three tables behind their header whenever the offsets fit 32 bits |
| Tvfs.SliceableExactly | internal/root/tvfs/writer.go:69-83 | with path and file table below 4 GiB the writer panics if and only if the offset of the file table does not fit 32 bits |
| TvfsReader.Handler.Walk | internal/root/tvfs/tvfs.go:201-258 | the recursive walk appends exactly the files of the region, or reports its error |
| TvfsReader.Parse | internal/root/tvfs/tvfs.go:103-118 | header, root folder and walk, or the error, for any input |
| TvfsReader.Handler.LookupByName | internal/root/tvfs/tvfs.go:376-386 | the last entry listed under the name, lower-cased if the manifest is |
| TvfsRoundTrip.EntrySplits | internal/root/tvfs/tvfs.go:266-314 | an entry with a value is split off exactly, with its separators, with or without a name, and what follows is left |
| TvfsRoundTrip.WalkFlattens | internal/root/tvfs/tvfs.go:201-258 | walking any nested folder serialisation gives its files in order with their whole paths, each sub-region consumed exactly; entries may lack a name or a value |
| TvfsRoundTrip.RegionIsForest | internal/root/tvfs/tvfs.go:201-314 | every region that the walk gets through is such a serialisation |
| TvfsRoundTrip.WalkAccepts | internal/root/tvfs/tvfs.go:201-258 | so the walk succeeds if and only if the region is one, and then gives the files of the forest |
| TvfsRoundTrip.HeaderBack | internal/root/tvfs/tvfs.go:120-164 | the header of a root whose offsets fit 32 bits names its three tables |
| TvfsRoundTrip.EntryResolves | internal/root/tvfs/tvfs.go:317-361 | in such a root each entry's place leads through the VFS table to the entry's size and the first nine bytes of its key |
| TvfsRoundTrip.RootListsEntries | internal/root/tvfs/tvfs.go:103-118 | such a root lists its entries in order, with size and nine key bytes, when folder size and node values leave the folder bit free |
| TvfsLimits.WalkCounts | internal/root/tvfs/tvfs.go:201-258 | a walk over any stretch of a written path table that gets through stops before an entry or before its value, and gives no more files than the entries in it whose value leaves the folder bit free |
| TvfsLimits.RootListsExactly | internal/root/tvfs/tvfs.go:182-199 | a root whose offsets fit 32 bits lists its entries if and only if folder size and node values leave the folder bit free |
| TvfsLimits.SizeDecides | internal/root/tvfs/tvfs.go:182-199 | below 4 GiB that is the folder size alone |
| TvfsRoundTrip.NameFound | internal/root/tvfs/tvfs.go:376-386 | in a root that lists its entries, with distinct names and no lowercase flag, every name is found |
| Wow.FindDuplicate | internal/root/wow/writer.go:71-76 | looking at neighbours of the sorted list finds a repeated file number if there is one |
| Wow.Encode | internal/root/wow/writer.go:58-155 | the v2 root of the sorted entries; an error if and only if there are none or a file number occurs twice |
| Wow.WriteDeltas | internal/root/wow/writer.go:130-138 | the loop that carries the reader's next number writes the wrapped differences |
| WowReader.Handler.AddV2 | internal/root/wow/wow.go:287-317 | the running 32-bit number, keys and hashes become entries in order, both maps kept in step |
| WowReader.Handler.ParseGroup | internal/root/wow/wow.go:165-257 | one group of any format and its size, or the error |
| WowReader.Parse | internal/root/wow/wow.go:95-161 | all groups of the detected format, or the error, for any input |
| WowRoundTrip.Detected | internal/root/wow/wow.go:104-145 | a written root is taken for v3 if and only if it has 20 to 256 files and content flags not above that number |
| WowRoundTrip.IdsBack | internal/root/wow/wow.go:288-290 | adding up the wrapped differences gives every file number back, 0 and 2^32 - 1 included |
| WowRoundTrip.RootComesBack | internal/root/wow/wow.go:95-161 | a root not taken for v3 gives back every number, key and hash in ascending order, or is refused because its count does not pass |
| WowRoundTrip.RootComesBackExactly | internal/root/wow/wow.go:113-121 | a root comes back, entries with their flags, if and only if it is not taken for v3 and its file count passes the check |
| WowRoundTrip.LargeRootRefused | internal/root/wow/wow.go:197-199 | a root of 214748365 files without name hashes, just above 4 GiB, is refused |
| WowRoundTrip.DefaultOptionsMisread | internal/root/wow/writer.go:87-100 | twenty files, one with a name hash among them, written with default options do not come back |
| WowRoundTrip.MisreadLosesHashes | internal/root/wow/wow.go:113-121 | when every file has a name hash, a root taken for v3 does not even give back numbers, keys and hashes |
| WowRoundTrip.FileFound | internal/root/wow/wow.go:344-350 | every file of a root that comes back is found by its number |

## Left out

- SparseArrays.SparseArray.FindGroupItems0: on the wide branch the code does not find the block, so only "never past the bit" and the exact condition are promised.
- SparseArrays.SparseArray.FindGroupItems1: on the wide branch the code takes one halving step, so only "never past the bit" and the exact condition are promised.
- Enumerating.DoSearch: only the empty mask, with which `enumerate` alone calls it; the prefix phase with `compareAndCopyPathFragment` (`trie.go:1265-1396`), which nothing reaches, and its extra path buffer are not modelled.
- FragmentTexts.CompareText: a position behind the end of the mask, which no caller passes, is not modelled.
- LookingUp.FindFileInDatabase: the hash table is taken to be a multiple of 256 slots, which covers powers of two from 256 on; smaller tables can file two children of one node in one slot. Fragment tables are those with zero-ended texts; with marks the comparison itself fails as stated above.
- Loading the trie's tables from a byte stream (`trie.go:92-357`, `404-445`, `990-1058`): field reading with little to prove; well-formedness is stated on the tables instead.
- Archive.Writer.WriteSpan: file-system errors are not modelled; every write succeeds and lands at the end of the segment. The writer's mutex and the reader pool's cache of file handles are not modelled either.
- EndToEnd.FlushReadsBack: index files of other buckets in the directory are not read; starts from the ENCODING and INSTALL keys that Flush hands to the build config; `.build.info`, config files, root detection by probe order, the overlay consulted before the disk and the CDN fallback are not modelled. The DOWNLOAD manifest is an arbitrary byte string.
- Tvfs.Encode: when the offsets do not fit 32 bits and the buffer is still long enough for slicing, the tables overlap; only the length of the result is stated then.
- TvfsReader.Parse: a path table that ends 4 GiB or more into the file, where the end of the slice wraps and slicing panics, is not modelled; no written root whose offsets fit has one.
- BlteRoundTrip.HeaderFormRoundTrip: frames of 4 GiB and more, whose sizes do not fit the frame table, and more than 178 million frames, whose header size does not fit its field.
- WowRoundTrip.RootComesBackExactly: a root that names all 2^32 file numbers, whose count is stored as zero.
- Allocation.RunIsLaid: segment sizes, and the segments already there, are below 2^32 bytes, the width of an entry's offset.
- LargePages.LargePageComesBack: for distinct keys; an entry repeated over many pages can come back from the first of them.
- Merging.MergeResults: a result carries the number of its hash instead of the hash itself.
- The enable-support table of TVFS (`tvfs.go:149-155`): read by the header parser and used nowhere.
- MD5, SHA-1, AES, zlib, bzip2 and LZMA themselves; the file system, HTTP, caches and contexts.
- DOWNLOAD manifests, CDN archive-index parsing, Diablo III, Overwatch and text roots, CMF key recipes, configuration files: they would only add easier members of the same kinds.
