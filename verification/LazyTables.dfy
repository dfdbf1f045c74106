/** The paged chunk table: a section index, a binary search over it and a cache of parsed sections. */
module LazyTables {
  import opened Bytes
  import opened Errors
  import opened Caches
  import opened ChunkTables

  datatype SectionMeta = SectionMeta(
    firstChunkId: nat,
    entryCount: nat,
    entriesOffset: nat,
    baseOffset: U64,
    segmentIdx: nat,
    sectorsEnd: Option<U64>)

  /** Chunk ids run on from one table section to the next; sections may be empty. */
  predicate Contiguous(index: seq<SectionMeta>) {
    && (index != [] ==> index[0].firstChunkId == 0)
    && forall j :: 0 <= j < |index| - 1 ==> index[j + 1].firstChunkId == index[j].firstChunkId + index[j].entryCount
  }

  function Len(index: seq<SectionMeta>): nat {
    if index == [] then 0 else index[|index| - 1].firstChunkId + index[|index| - 1].entryCount
  }

  lemma {:induction false} FirstIdsAscend(index: seq<SectionMeta>, i: nat, j: nat)
    requires Contiguous(index) && i < j < |index|
    ensures index[i].firstChunkId + index[i].entryCount <= index[j].firstChunkId
    decreases j - i
  {
    if i + 1 < j {
      FirstIdsAscend(index, i, j - 1);
    }
  }

  // ----- Locating a chunk -----

  /** Does section `pos` hold chunk `id`? */
  predicate Holds(index: seq<SectionMeta>, pos: nat, id: nat) {
    pos < |index| && index[pos].firstChunkId <= id < index[pos].firstChunkId + index[pos].entryCount
  }

  lemma HoldsUnique(index: seq<SectionMeta>, p: nat, q: nat, id: nat)
    requires Contiguous(index) && Holds(index, p, id) && Holds(index, q, id)
    ensures p == q
  {
    if p < q {
      FirstIdsAscend(index, p, q);
    } else if q < p {
      FirstIdsAscend(index, q, p);
    }
  }

  /** The section that holds `id`, searched from the front. */
  function SectionOfChunk(index: seq<SectionMeta>, id: nat): (r: Option<nat>)
    ensures r.Some? ==> Holds(index, r.value, id)
    ensures r.None? ==> forall p :: 0 <= p < |index| ==> !Holds(index, p, id)
  {
    SectionFrom(index, id, 0)
  }

  function SectionFrom(index: seq<SectionMeta>, id: nat, from: nat): (r: Option<nat>)
    requires from <= |index|
    ensures r.Some? ==> Holds(index, r.value, id)
    ensures r.None? ==> forall p :: from <= p < |index| ==> !Holds(index, p, id)
    decreases |index| - from
  {
    if from == |index| then None
    else if Holds(index, from, id) then Some(from)
    else SectionFrom(index, id, from + 1)
  }

  /** Every id below the length is held by exactly one section. */
  lemma {:induction false} EveryIdHeld(index: seq<SectionMeta>, id: nat)
    requires Contiguous(index)
    ensures SectionOfChunk(index, id).Some? <==> id < Len(index)
  {
    if id < Len(index) {
      var n := |index| - 1;
      var p := HolderBelow(index, id, n);
    } else if index != [] {
      forall p | 0 <= p < |index|
        ensures !Holds(index, p, id)
      {
        if p < |index| - 1 {
          FirstIdsAscend(index, p, |index| - 1);
        }
      }
    }
  }

  lemma {:induction false} HolderBelow(index: seq<SectionMeta>, id: nat, n: nat) returns (p: nat)
    requires Contiguous(index) && n < |index| && id < index[n].firstChunkId + index[n].entryCount
    ensures Holds(index, p, id)
  {
    if index[n].firstChunkId <= id {
      p := n;
    } else {
      p := HolderBelow(index, id, n - 1);
    }
  }

  /** The search of the index: halve the range in which the first section past `id` must lie, then
      check the section just before it. */
  method SectionFor(index: seq<SectionMeta>, id: nat) returns (r: Option<nat>)
    requires Contiguous(index)
    ensures r == SectionOfChunk(index, id)
  {
    var lo, hi := 0, |index|;
    while lo < hi
      invariant 0 <= lo <= hi <= |index|
      invariant forall p :: 0 <= p < lo ==> index[p].firstChunkId <= id
      invariant forall p :: hi <= p < |index| ==> id < index[p].firstChunkId
    {
      var mid := (lo + hi) / 2;
      forall p | 0 <= p < |index| && p != mid
        ensures p < mid ==> index[p].firstChunkId <= index[mid].firstChunkId
        ensures mid < p ==> index[mid].firstChunkId <= index[p].firstChunkId
      {
        if p < mid {
          FirstIdsAscend(index, p, mid);
        } else {
          FirstIdsAscend(index, mid, p);
        }
      }
      if index[mid].firstChunkId <= id {
        lo := mid + 1;
      } else {
        hi := mid;
      }
    }
    r := None;
    if lo > 0 && id < index[lo - 1].firstChunkId + index[lo - 1].entryCount {
      r := Some(lo - 1);
    }
    forall p | 0 <= p < |index| && Holds(index, p, id)
      ensures r == Some(p)
    {
      if p < lo - 1 {
        FirstIdsAscend(index, p, lo - 1);
      }
    }
    assert r.Some? ==> Holds(index, r.value, id);
    assert SectionOfChunk(index, id).Some? ==> Holds(index, SectionOfChunk(index, id).value, id);
  }

  // ----- Parsing a section on demand -----

  /** Are the section's entry bytes inside its segment? */
  predicate EntriesPresent(m: SectionMeta, segments: seq<Segment>) {
    m.segmentIdx < |segments| && m.entriesOffset + 4 * m.entryCount <= |segments[m.segmentIdx]|
  }

  function EntryBytes(m: SectionMeta, segments: seq<Segment>): (d: Data)
    requires EntriesPresent(m, segments)
    ensures |d| == 4 * m.entryCount
  {
    segments[m.segmentIdx][m.entriesOffset..m.entriesOffset + 4 * m.entryCount]
  }

  function SectionKept(m: SectionMeta, segments: seq<Segment>): seq<Located>
    requires EntriesPresent(m, segments)
  {
    Kept(EntryBytes(m, segments), m.entryCount, m.baseOffset)
  }

  function SectionChunks(m: SectionMeta, segments: seq<Segment>, chunkSize: U64): (chunks: seq<Chunk>)
    requires EntriesPresent(m, segments)
    ensures |chunks| == |SectionKept(m, segments)| <= m.entryCount
  {
    TableChunks(SectionKept(m, segments), m.segmentIdx, chunkSize, m.sectorsEnd)
  }

  /** What a lookup answers, computed from the segments alone. */
  function Lookup(index: seq<SectionMeta>, chunkSize: U64, segments: seq<Segment>, id: nat): Result<Chunk> {
    var found := SectionOfChunk(index, id);
    if found.None? then Err(ChunkOutOfRange)
    else
      var m := index[found.value];
      if m.segmentIdx >= |segments| then Err(MissingSegment)
      else if !EntriesPresent(m, segments) then Err(TableBeyondSegment)
      else PickLocal(SectionChunks(m, segments, chunkSize), id - m.firstChunkId)
  }

  function PickLocal(section: seq<Chunk>, local: nat): Result<Chunk> {
    if local < |section| then Ok(section[local]) else Err(IndexPanic)
  }

  /** Every cached section is the parse of its own bytes. */
  ghost predicate CacheFaithful(cached: map<nat, seq<Chunk>>, index: seq<SectionMeta>, chunkSize: U64,
                                segments: seq<Segment>)
  {
    forall pos :: pos in cached ==>
      pos < |index| && EntriesPresent(index[pos], segments) &&
      cached[pos] == SectionChunks(index[pos], segments, chunkSize)
  }

  /** Caching one more faithful section, whatever is evicted for it, keeps the cache faithful. */
  lemma PutFaithful(before: map<nat, seq<Chunk>>, after: map<nat, seq<Chunk>>, pos: nat, index: seq<SectionMeta>,
                    chunkSize: U64, segments: seq<Segment>)
    requires CacheFaithful(before, index, chunkSize, segments)
    requires pos < |index| && EntriesPresent(index[pos], segments) && pos in after
    requires after[pos] == SectionChunks(index[pos], segments, chunkSize)
    requires forall k :: k in after && k != pos ==> k in before && after[k] == before[k]
    ensures CacheFaithful(after, index, chunkSize, segments)
  {
    hide SectionChunks, EntriesPresent;
  }

  lemma HitFaithful(cached: map<nat, seq<Chunk>>, pos: nat, index: seq<SectionMeta>, chunkSize: U64,
                    segments: seq<Segment>)
    requires CacheFaithful(cached, index, chunkSize, segments) && pos in cached
    ensures pos < |index| && EntriesPresent(index[pos], segments)
    ensures cached[pos] == SectionChunks(index[pos], segments, chunkSize)
  {
    hide SectionChunks, EntriesPresent;
  }

  /** The cold path of a lookup: read the section's entry bytes and parse them. */
  method LoadSection(m: SectionMeta, segments: seq<Segment>, chunkSize: U64) returns (r: Result<seq<Chunk>>)
    requires m.entryCount > 0
    ensures m.segmentIdx >= |segments| ==> r == Err(MissingSegment)
    ensures m.segmentIdx < |segments| && !EntriesPresent(m, segments) ==> r == Err(TableBeyondSegment)
    ensures EntriesPresent(m, segments) ==> r == Ok(SectionChunks(m, segments, chunkSize))
  {
    hide Kept, TableChunks;
    if m.segmentIdx >= |segments| {
      return Err(MissingSegment);
    }
    var src := segments[m.segmentIdx];
    var want := 4 * m.entryCount;
    var avail := SatSub(|src|, m.entriesOffset);
    if want > avail {
      return Err(TableBeyondSegment);
    }
    var entries := EntryBytes(m, segments);
    var section := ParseTableSection(entries, m.entryCount, m.baseOffset, m.segmentIdx, chunkSize, m.sectorsEnd);
    r := Ok(section);
  }

  class LazyChunkTable {
    const index: seq<SectionMeta>
    const len: nat
    const chunkSize: U64
    const cache: Lru<seq<Chunk>>

    ghost predicate Valid(segments: seq<Segment>)
      reads cache
    {
      && Contiguous(index) && len == Len(index) && cache.Valid()
      && CacheFaithful(cache.entries, index, chunkSize, segments)
    }

    constructor (index: seq<SectionMeta>, chunkSize: U64, sectionCacheCap: nat)
      requires Contiguous(index)
      ensures this.index == index && this.chunkSize == chunkSize && fresh(cache)
      ensures forall segments :: Valid(segments)
    {
      this.index := index;
      this.len := Len(index);
      this.chunkSize := chunkSize;
      this.cache := new Lru<seq<Chunk>>(sectionCacheCap);
    }

    /** A lookup answers the same whatever was looked up before and whatever is still cached. */
    method Get(id: nat, segments: seq<Segment>) returns (r: Result<Chunk>)
      requires Valid(segments)
      modifies cache
      ensures Valid(segments)
      ensures r == Lookup(index, chunkSize, segments, id)
    {
      hide SectionChunks, SectionFrom, CacheFaithful, Contiguous;
      var found := SectionFor(index, id);
      if found.None? {
        return Err(ChunkOutOfRange);
      }
      var pos := found.value;
      var meta := index[pos];
      var local := id - meta.firstChunkId;
      var hit := cache.Get(pos);
      if hit.Some? {
        HitFaithful(cache.entries, pos, index, chunkSize, segments);
        return PickLocal(hit.value, local);
      }
      var loaded := LoadSection(meta, segments, chunkSize);
      if loaded.Err? {
        return Err(loaded.error);
      }
      var section := loaded.value;
      if local >= |section| {
        return Err(IndexPanic);
      }
      var chunk := section[local];
      ghost var before := cache.entries;
      cache.Put(pos, section);
      PutFaithful(before, cache.entries, pos, index, chunkSize, segments);
      r := Ok(chunk);
    }
  }
}
