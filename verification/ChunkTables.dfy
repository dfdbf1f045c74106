/** Chunk metadata and the parsing of one table section, shared by the eager and the lazy table. */
module ChunkTables {
  import opened Bytes
  import opened Sections

  /** A chunk's place on disk; bit 63 of the packed word is the compressed flag. */
  datatype Chunk = Chunk(offsetPacked: U64, segmentIdx: U32, size: U32) {
    predicate Compressed() { offsetPacked >= U63_LIMIT }

    function Offset(): nat { offsetPacked % U63_LIMIT }

    function SetSize(s: U64): Chunk { this.(size := s % U32_LIMIT) }
  }

  /** Packing loses nothing but the top bit of the offset and the high halves of index and size. */
  function NewChunk(segmentIdx: nat, compressed: bool, offset: U64, size: U64): (c: Chunk)
    ensures c.Compressed() == compressed && c.Offset() == offset % U63_LIMIT
    ensures segmentIdx < U32_LIMIT ==> c.segmentIdx == segmentIdx
    ensures size < U32_LIMIT ==> c.size == size
  {
    Chunk(offset % U63_LIMIT + (if compressed then U63_LIMIT else 0), segmentIdx % U32_LIMIT, size % U32_LIMIT)
  }

  /** A table entry with its absolute offset worked out. */
  datatype Located = Located(compressed: bool, offset: U64)

  function EntryAt(entries: Data, i: nat): TableEntry
    requires 4 * i + 4 <= |entries|
  {
    ParseEntry(entries[4 * i..4 * i + 4]).value
  }

  /** The first `n` entries, without those whose absolute offset does not fit in 64 bits. */
  function Kept(entries: Data, n: nat, base: U64): (kept: seq<Located>)
    requires 4 * n <= |entries|
    ensures |kept| <= n
  {
    if n == 0 then []
    else
      var e := EntryAt(entries, n - 1);
      var before := Kept(entries, n - 1, base);
      if Fits(e, base) then before + [Locate(e, base)] else before
  }

  predicate Fits(e: TableEntry, base: U64) {
    e.chunkOffset + base < U64_LIMIT
  }

  function Locate(e: TableEntry, base: U64): Located
    requires Fits(e, base)
  {
    Located(e.compressed, e.chunkOffset + base)
  }

  /** Nothing is dropped exactly when no entry's absolute offset overflows. */
  lemma {:induction false} AllKeptIff(entries: Data, n: nat, base: U64)
    requires 4 * n <= |entries|
    ensures |Kept(entries, n, base)| == n <==>
            forall i :: 0 <= i < n ==> Fits(EntryAt(entries, i), base)
  {
    if n > 0 {
      AllKeptIff(entries, n - 1, base);
    }
  }

  lemma {:induction false} KeptAt(entries: Data, n: nat, base: U64, i: nat)
    requires 4 * n <= |entries| && i < n
    requires forall j :: 0 <= j < n ==> Fits(EntryAt(entries, j), base)
    ensures |Kept(entries, n, base)| == n
    ensures Kept(entries, n, base)[i] == Locate(EntryAt(entries, i), base)
  {
    AllKeptIff(entries, n, base);
    AllKeptIff(entries, n - 1, base);
    if i < n - 1 {
      KeptAt(entries, n - 1, base, i);
    }
  }

  /** How many of the first `n` entries fit. */
  function Fitting(entries: Data, n: nat, base: U64): nat
    requires 4 * n <= |entries|
  {
    if n == 0 then 0 else Fitting(entries, n - 1, base) + if Fits(EntryAt(entries, n - 1), base) then 1 else 0
  }

  /** The entries that fit are all kept, in their order; those that overflow are skipped, wherever they are. */
  lemma {:induction false} KeptInOrder(entries: Data, n: nat, base: U64, i: nat)
    requires 4 * n <= |entries| && i < n
    ensures |Kept(entries, n, base)| == Fitting(entries, n, base)
    ensures Fits(EntryAt(entries, i), base) ==>
      && Fitting(entries, i, base) < |Kept(entries, n, base)|
      && Kept(entries, n, base)[Fitting(entries, i, base)] == Locate(EntryAt(entries, i), base)
  {
    hide EntryAt, Fits;
    if n > 1 {
      KeptInOrder(entries, n - 1, base, if i < n - 1 then i else n - 2);
    }
  }

  // ----- Closed form of a parsed section -----

  /** The on-disk size the table gives entry `k`: up to the next entry, up to the end of the sectors
      data for the last one, and otherwise the image's chunk size. */
  function SizeOf(kept: seq<Located>, k: nat, chunkSize: U64, sectorsEnd: Option<U64>): U64
    requires k < |kept|
  {
    if !kept[k].compressed then chunkSize
    else if k + 1 < |kept| then
      if kept[k].offset < kept[k + 1].offset then kept[k + 1].offset - kept[k].offset else chunkSize
    else if sectorsEnd.None? || chunkSize >= U32_LIMIT then chunkSize
    else
      var actual := SatSub(sectorsEnd.value, kept[k].offset % U63_LIMIT);
      if 0 < actual < chunkSize then actual else chunkSize
  }

  function TableChunk(kept: seq<Located>, k: nat, segmentIdx: nat, chunkSize: U64, sectorsEnd: Option<U64>): Chunk
    requires k < |kept|
  {
    NewChunk(segmentIdx, kept[k].compressed, kept[k].offset, SizeOf(kept, k, chunkSize, sectorsEnd))
  }

  function TableChunks(kept: seq<Located>, segmentIdx: nat, chunkSize: U64,
                       sectorsEnd: Option<U64>): (chunks: seq<Chunk>)
    ensures |chunks| == |kept|
    ensures forall k :: 0 <= k < |kept| ==> chunks[k] == TableChunk(kept, k, segmentIdx, chunkSize, sectorsEnd)
  {
    seq(|kept|, k requires 0 <= k < |kept| => TableChunk(kept, k, segmentIdx, chunkSize, sectorsEnd))
  }

  /** The chunks after the size of the last one became known from the next entry's offset. */
  function WithPreviousSize(chunks: seq<Chunk>, prevOffset: Option<U64>, absOffset: U64): seq<Chunk> {
    if chunks != [] && prevOffset.Some? && chunks[|chunks| - 1].Compressed() && prevOffset.value < absOffset then
      chunks[|chunks| - 1 := chunks[|chunks| - 1].SetSize(absOffset - prevOffset.value)]
    else chunks
  }

  /** The chunks after the last one, if still unsized, was sized from the end of the sectors data. */
  function WithLastSize(chunks: seq<Chunk>, chunkSize: U64, sectorsEnd: Option<U64>): seq<Chunk> {
    if chunks == [] || sectorsEnd.None? then chunks
    else
      var last := chunks[|chunks| - 1];
      var actual := SatSub(sectorsEnd.value, last.Offset());
      if last.Compressed() && last.size == chunkSize && 0 < actual < chunkSize then
        chunks[|chunks| - 1 := last.SetSize(actual)]
      else chunks
  }

  function LastOffset(kept: seq<Located>): Option<U64> {
    if kept == [] then None else Some(kept[|kept| - 1].offset)
  }

  /** One more entry: back-filling the previous chunk and pushing the new one keeps the closed form. */
  lemma PushKeepsForm(kept: seq<Located>, l: Located, segmentIdx: nat, chunkSize: U64)
    ensures TableChunks(kept + [l], segmentIdx, chunkSize, None) ==
            WithPreviousSize(TableChunks(kept, segmentIdx, chunkSize, None), LastOffset(kept), l.offset)
            + [NewChunk(segmentIdx, l.compressed, l.offset, chunkSize)]
  {
    var kept' := kept + [l];
    forall k | 0 <= k < |kept| - 1
      ensures TableChunk(kept', k, segmentIdx, chunkSize, None) == TableChunk(kept, k, segmentIdx, chunkSize, None)
    {
    }
  }

  /** The final back-fill turns the form without a sectors end into the form with it. */
  lemma LastKeepsForm(kept: seq<Located>, segmentIdx: nat, chunkSize: U64, sectorsEnd: Option<U64>)
    ensures TableChunks(kept, segmentIdx, chunkSize, sectorsEnd) ==
            WithLastSize(TableChunks(kept, segmentIdx, chunkSize, None), chunkSize, sectorsEnd)
  {
    forall k | 0 <= k < |kept| - 1
      ensures TableChunk(kept, k, segmentIdx, chunkSize, sectorsEnd) == TableChunk(kept, k, segmentIdx, chunkSize, None)
    {
    }
  }

  /** The loop body of `ParseTableSection`: back-fill the previous chunk's size, push the new chunk. */
  method PushChunk(chunks: seq<Chunk>, prevOffset: Option<U64>, entry: Located, segmentIdx: nat, chunkSize: U64,
                   ghost kept: seq<Located>) returns (r: seq<Chunk>)
    requires chunks == TableChunks(kept, segmentIdx, chunkSize, None) && prevOffset == LastOffset(kept)
    ensures r == TableChunks(kept + [entry], segmentIdx, chunkSize, None)
  {
    PushKeepsForm(kept, entry, segmentIdx, chunkSize);
    r := chunks;
    if prevOffset.Some? && r[|r| - 1].Compressed() {
      var size := SatSub(entry.offset, prevOffset.value);
      if size > 0 {
        r := r[|r| - 1 := r[|r| - 1].SetSize(size)];
      }
    }
    r := r + [NewChunk(segmentIdx, entry.compressed, entry.offset, chunkSize)];
  }

  /** The last-chunk back-fill of `ParseTableSection`. */
  method SizeLastChunk(chunks: seq<Chunk>, chunkSize: U64, sectorsEnd: Option<U64>) returns (r: seq<Chunk>)
    ensures r == WithLastSize(chunks, chunkSize, sectorsEnd)
  {
    r := chunks;
    if sectorsEnd.Some? && r != [] {
      var last := r[|r| - 1];
      if last.Compressed() && last.size == chunkSize {
        var actual := SatSub(sectorsEnd.value, last.Offset());
        if 0 < actual < chunkSize {
          r := r[|r| - 1 := last.SetSize(actual)];
        }
      }
    }
  }

  /** Parse a section's entries in one pass, rewriting the size of the previous chunk when the next
      offset becomes known, and that of the last chunk from the end of the sectors data. */
  method ParseTableSection(entries: Data, entryCount: nat, base: U64, segmentIdx: nat, chunkSize: U64,
                           sectorsEnd: Option<U64>) returns (chunks: seq<Chunk>)
    ensures var kept := Kept(entries, Min(entryCount, |entries| / 4), base);
            chunks == TableChunks(kept, segmentIdx, chunkSize, sectorsEnd)
  {
    var count := Min(entryCount, |entries| / 4);
    chunks := [];
    var prevOffset: Option<U64> := None;
    ghost var kept := [];
    for i := 0 to count
      invariant kept == Kept(entries, i, base)
      invariant chunks == TableChunks(kept, segmentIdx, chunkSize, None)
      invariant prevOffset == LastOffset(kept)
    {
      var entry := EntryAt(entries, i);
      if Fits(entry, base) {
        var located := Locate(entry, base);
        chunks := PushChunk(chunks, prevOffset, located, segmentIdx, chunkSize, kept);
        prevOffset := Some(located.offset);
        kept := kept + [located];
      }
    }
    LastKeepsForm(kept, segmentIdx, chunkSize, sectorsEnd);
    chunks := SizeLastChunk(chunks, chunkSize, sectorsEnd);
  }

  // ----- What the closed form gives -----

  ghost predicate AscendingEntries(kept: seq<Located>) {
    forall k :: 0 <= k < |kept| - 1 ==> kept[k].offset < kept[k + 1].offset
  }

  /** Where the data of entry `k` stops when entries ascend: at the next entry, or at the end of the
      sectors data. */
  function RangeEnd(kept: seq<Located>, k: nat, sectorsEnd: nat): nat
    requires k < |kept|
  {
    if k + 1 < |kept| then kept[k + 1].offset else sectorsEnd
  }

  /** Ascending compressed entries tile the sectors data: each chunk ends where the next begins and
      the last at the end of the data. */
  lemma ChunksTile(kept: seq<Located>, segmentIdx: nat, chunkSize: U64, end: U64, k: nat)
    requires k < |kept| && AscendingEntries(kept) && kept[k].compressed && chunkSize < U32_LIMIT
    requires kept[k].offset < RangeEnd(kept, k, end) < U63_LIMIT
    requires RangeEnd(kept, k, end) - kept[k].offset < U32_LIMIT
    requires k + 1 == |kept| ==> end - kept[k].offset < chunkSize
    ensures var c := TableChunks(kept, segmentIdx, chunkSize, Some(end))[k];
            c.Offset() == kept[k].offset && c.Offset() + c.size == RangeEnd(kept, k, end)
  {
  }

  /** Every chunk is where its entry says; its size is the distance to where it ends, if that is known, and the image's
      chunk size if the chunk is not compressed, the end is unknown or not behind its start, or the last chunk would be
      larger than that. */
  lemma SizesAre(kept: seq<Located>, segmentIdx: nat, chunkSize: U64, end: Option<U64>, k: nat)
    requires k < |kept| && kept[k].offset < U63_LIMIT && chunkSize < U32_LIMIT
    ensures var c := TableChunks(kept, segmentIdx, chunkSize, end)[k];
            var known := kept[k].compressed && (k + 1 < |kept| || end.Some?);
            && c.Offset() == kept[k].offset && c.Compressed() == kept[k].compressed
            && c.size == if known && 0 < RangeEnd(kept, k, if end.Some? then end.value else 0) - kept[k].offset
                            && (k + 1 < |kept| || end.value - kept[k].offset < chunkSize)
                         then (RangeEnd(kept, k, if end.Some? then end.value else 0) - kept[k].offset) % 0x1_0000_0000
                         else chunkSize
  {
  }

  /** Can two different chunk sizes not be told apart in the parsed section? Every size must come
      from the offsets, and the last one must fit under both. */
  predicate SizeIndependent(kept: seq<Located>, a: U64, b: U64, sectorsEnd: Option<U64>) {
    && (forall k :: 0 <= k < |kept| ==> kept[k].compressed)
    && (forall k :: 0 <= k < |kept| - 1 ==> kept[k].offset < kept[k + 1].offset)
    && (kept != [] ==>
        && sectorsEnd.Some?
        && 0 < SatSub(sectorsEnd.value, kept[|kept| - 1].offset % U63_LIMIT) <= Min(a, b))
  }

  /** Parsing one section under two chunk sizes gives the same chunks exactly when the sizes are the
      same or none of the section's sizes depends on them. */
  lemma SameChunksIff(kept: seq<Located>, segmentIdx: nat, a: U64, b: U64, sectorsEnd: Option<U64>)
    requires a < U32_LIMIT && b < U32_LIMIT
    ensures TableChunks(kept, segmentIdx, a, sectorsEnd) == TableChunks(kept, segmentIdx, b, sectorsEnd) <==>
            a == b || SizeIndependent(kept, a, b, sectorsEnd)
  {
    var x, y := TableChunks(kept, segmentIdx, a, sectorsEnd), TableChunks(kept, segmentIdx, b, sectorsEnd);
    if a != b && x == y {
      forall k | 0 <= k < |kept|
        ensures kept[k].compressed && (k < |kept| - 1 ==> kept[k].offset < kept[k + 1].offset)
      {
        assert x[k].size == y[k].size;
      }
      if kept != [] {
        var k := |kept| - 1;
        assert x[k].size == y[k].size;
      }
    }
    if SizeIndependent(kept, a, b, sectorsEnd) {
      forall k | 0 <= k < |kept|
        ensures x[k] == y[k]
      {
        assert SizeOf(kept, k, a, sectorsEnd) == SizeOf(kept, k, b, sectorsEnd);
      }
    }
  }
}
