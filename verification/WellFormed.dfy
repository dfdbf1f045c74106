/** Images on which the strict reader and the tolerant recovery must agree. */
module WellFormed {
  import opened Bytes
  import opened Errors
  import opened Sections
  import opened Walkers
  import opened ChunkTables
  import opened LazyTables
  import opened Images
  import opened Opening
  import opened Recover

  /** The sections of a chain that decide geometry and chunk table. */
  function Relevant(list: seq<Section>): seq<Section> {
    if list == [] then []
    else (if IsRelevant(list[0].typeName) then [list[0]] else []) + Relevant(list[1..])
  }

  predicate IsRelevant(name: string) {
    name == "volume" || name == "disk" || name == "table"
  }

  predicate IsVolume(name: string) {
    name == "volume" || name == "disk"
  }

  /** The chain of a segment holds one primary table, after the one volume section if this is the first
      segment and with none otherwise, nothing follows a terminal section, and stored digests and
      error lists are there in full. */
  predicate GoodShape(seg: Segment, first: bool) {
    var w := StrictWalk(seg, FILE_HEADER_SIZE);
    var r := Relevant(w);
    && EndsAtTerminal(w)
    && (forall k :: 0 <= k < |w| ==> BodyPresent(seg, w[k]))
    && |r| == (if first then 2 else 1)
    && r[|r| - 1].typeName == "table"
    && (first ==> IsVolume(r[0].typeName))
  }

  function TableSection(seg: Segment, first: bool): Section
    requires GoodShape(seg, first)
  {
    var r := Relevant(StrictWalk(seg, FILE_HEADER_SIZE));
    r[|r| - 1]
  }

  /** The primary table's header, as an index entry. */
  function TableMeta(segments: seq<Segment>, k: nat): Result<SectionMeta>
    requires k < |segments| && GoodShape(segments[k], k == 0)
  {
    ReadHeader(segments[k], k, TableSection(segments[k], k == 0), 0,
      SectorsEnd(StrictWalk(segments[k], FILE_HEADER_SIZE)))
  }

  /** A stream that fills a chunk, or ends cleanly after some bytes. */
  predicate GoodStream(stream: Inflated, chunkSize: nat) {
    |stream.out| > chunkSize || (stream.clean && stream.out != [])
  }

  /** The bytes entry `l` claims are there and decode: a compressed chunk to a usable stream, an
      uncompressed one to a whole page whose trailing checksum, if any, agrees. */
  predicate GoodChunk(z: Inflate, seg: Segment, kept: seq<Located>, l: nat, end: U64, chunkSize: nat)
    requires l < |kept|
  {
    var lo, hi := kept[l].offset, RangeEnd(kept, l, end);
    && lo < hi <= |seg|
    && (kept[l].compressed ==>
         && hi - lo < U32_LIMIT && GoodStream(z(seg[lo..hi]), chunkSize)
         && (l + 1 == |kept| ==> hi - lo < chunkSize))
    && (!kept[l].compressed ==> hi - lo >= chunkSize && TrailerOk(seg[lo..hi], chunkSize))
  }

  predicate GoodTable(z: Inflate, segments: seq<Segment>, k: nat, chunkSize: nat)
    requires k < |segments|
  {
    && GoodShape(segments[k], k == 0)
    && TableMeta(segments, k).Ok?
    && var m := TableMeta(segments, k).value;
       && EntriesPresent(m, segments)
       && m.sectorsEnd.Some? && m.sectorsEnd.value <= |segments[k]|
       && m.segmentIdx == k && |SectionKept(m, segments)| == m.entryCount
       && forall l :: 0 <= l < m.entryCount ==>
          GoodChunk(z, segments[k], SectionKept(m, segments), l, m.sectorsEnd.value, chunkSize)
  }

  predicate GoodTables(z: Inflate, segments: seq<Segment>, chunkSize: nat) {
    forall k :: 0 <= k < |segments| ==> GoodTable(z, segments, k, chunkSize)
  }

  // ----- What the strict reader makes of such a chain -----

  lemma {:induction false} OnlyRelevantMatters(st: OpenState, segments: seq<Segment>, segIdx: nat, end: Option<U64>,
                                               list: seq<Section>)
    requires segIdx < |segments| && forall k :: 0 <= k < |list| ==> BodyPresent(segments[segIdx], list[k])
    ensures OpenSections(false, st, segments, segIdx, "table", end, list) ==
            OpenSections(false, st, segments, segIdx, "table", end, Relevant(list))
    decreases |list|
  {
    hide OpenVolume, OpenTable, BodyPresent;
    if list != [] {
      var s := list[0];
      var r := OpenSection(false, st, segments, segIdx, "table", end, s);
      if IsRelevant(s.typeName) {
        assert Relevant(list)[0] == s && Relevant(list)[1..] == Relevant(list[1..]);
        if r.Ok? {
          OnlyRelevantMatters(r.value, segments, segIdx, end, list[1..]);
        }
      } else {
        assert Relevant(list) == Relevant(list[1..]);
        OnlyRelevantMatters(st, segments, segIdx, end, list[1..]);
      }
    }
  }

  lemma {:induction false} FindRelevant(list: seq<Section>, names: set<string>)
    requires forall n :: n in names ==> IsRelevant(n)
    ensures Find(list, names) == Find(Relevant(list), names)
  {
    if list != [] {
      FindRelevant(list[1..], names);
      if IsRelevant(list[0].typeName) {
        assert Relevant(list)[1..] == Relevant(list[1..]);
      } else {
        assert Relevant(list) == Relevant(list[1..]);
      }
    }
  }

  /** Opening a later segment adds its table's chunks to the list. */
  lemma OpenLaterSegment(st: OpenState, segments: seq<Segment>, k: nat)
    requires 0 < k < |segments| && GoodShape(segments[k], false) && TableMeta(segments, k).Ok?
    requires st.nextChunkId == 0 && EntriesPresent(TableMeta(segments, k).value, segments)
    ensures OpenSegment(false, st, segments, k) ==
            Ok(st.(chunks := st.chunks + SectionChunks(TableMeta(segments, k).value, segments, st.chunkSize)))
  {
    hide SectionChunks, StrictWalk, ReadHeader, OpenVolume, EntriesPresent;
    var w := StrictWalk(segments[k], FILE_HEADER_SIZE);
    var r, end := Relevant(w), SectorsEnd(w);
    FindRelevant(w, {"table"});
    assert Find(r, {"table"}) == Some(r[0]);
    OnlyRelevantMatters(st, segments, k, end, w);
    OpenOne(false, st, segments, k, end, r);
  }

  lemma OpenOne(lazy: bool, st: OpenState, segments: seq<Segment>, k: nat, end: Option<U64>, r: seq<Section>)
    requires k < |segments| && |r| == 1
    ensures OpenSections(lazy, st, segments, k, "table", end, r) ==
            OpenSection(lazy, st, segments, k, "table", end, r[0])
  {
    hide OpenSection;
    assert r[1..] == [];
    var s := OpenSection(lazy, st, segments, k, "table", end, r[0]);
    if s.Ok? {
      assert OpenSections(lazy, s.value, segments, k, "table", end, r[1..]) == s;
    }
  }

  lemma OpenTwo(lazy: bool, st: OpenState, segments: seq<Segment>, k: nat, end: Option<U64>, r: seq<Section>)
    requires k < |segments| && |r| == 2
    ensures OpenSections(lazy, st, segments, k, "table", end, r) ==
            var s := OpenSection(lazy, st, segments, k, "table", end, r[0]);
            if s.Err? then s else OpenSection(lazy, s.value, segments, k, "table", end, r[1])
  {
    hide OpenSection;
    var s := OpenSection(lazy, st, segments, k, "table", end, r[0]);
    if s.Ok? {
      OpenOne(lazy, s.value, segments, k, end, r[1..]);
    }
  }

  /** Opening the first segment takes the geometry from its volume and then its table's chunks. */
  lemma OpenFirstSegment(segments: seq<Segment>)
    requires segments != [] && GoodShape(segments[0], true) && TableMeta(segments, 0).Ok?
    requires EntriesPresent(TableMeta(segments, 0).value, segments)
    ensures var vol := OpenVolume(Initial(), segments[0], Relevant(StrictWalk(segments[0], FILE_HEADER_SIZE))[0]);
            OpenSegment(false, Initial(), segments, 0) ==
            if vol.Err? then vol
            else Ok(vol.value.(chunks := SectionChunks(TableMeta(segments, 0).value, segments, vol.value.chunkSize)))
  {
    hide SectionChunks, StrictWalk, ReadHeader, EntriesPresent, ParseVolume;
    var w := StrictWalk(segments[0], FILE_HEADER_SIZE);
    var r, end := Relevant(w), SectorsEnd(w);
    FindRelevant(w, {"table"});
    assert r[1..] == [r[1]];
    assert Find(r, {"table"}) == Find(r[1..], {"table"}) == Some(r[1]);
    OnlyRelevantMatters(Initial(), segments, 0, end, w);
    OpenTwo(false, Initial(), segments, 0, end, r);
    assert forall c: seq<Chunk> :: [] + c == c;
  }

  // ----- The table of the whole image -----

  /** The header of the table in segment `k`. */
  function MetaAt(z: Inflate, segments: seq<Segment>, chunkSize: nat, k: nat): (m: SectionMeta)
    requires k < |segments| && GoodTables(z, segments, chunkSize)
    ensures GoodTable(z, segments, k, chunkSize) && TableMeta(segments, k) == Ok(m)
    ensures EntriesPresent(m, segments) && |SectionKept(m, segments)| == m.entryCount && m.segmentIdx == k
  {
    assert GoodTable(z, segments, k, chunkSize);
    TableMeta(segments, k).value
  }

  function EntryCounts(z: Inflate, segments: seq<Segment>, chunkSize: nat): (c: seq<nat>)
    requires GoodTables(z, segments, chunkSize)
    ensures |c| == |segments|
    ensures forall k :: 0 <= k < |c| ==> c[k] == MetaAt(z, segments, chunkSize, k).entryCount
  {
    hide GoodTables;
    seq(|segments|, k requires 0 <= k < |segments| => MetaAt(z, segments, chunkSize, k).entryCount)
  }

  /** The chunks of the first `n` segments, one segment after the other. */
  function ChunksOf(z: Inflate, segments: seq<Segment>, chunkSize: U64, n: nat): seq<Chunk>
    requires n <= |segments| && GoodTables(z, segments, chunkSize)
  {
    hide GoodTables;
    if n == 0 then []
    else ChunksOf(z, segments, chunkSize, n - 1)
         + SectionChunks(MetaAt(z, segments, chunkSize, n - 1), segments, chunkSize)
  }

  lemma {:induction false} OpenRest(z: Inflate, st: OpenState, segments: seq<Segment>, k: nat)
    requires 0 < k <= |segments| && GoodTables(z, segments, st.chunkSize) && st.nextChunkId == 0
    requires st.chunks == ChunksOf(z, segments, st.chunkSize, k)
    ensures OpenSegments(false, st, segments, k) == Ok(st.(chunks := ChunksOf(z, segments, st.chunkSize, |segments|)))
    decreases |segments| - k
  {
    hide GoodTables, SectionChunks, OpenSegment, EntriesPresent, StrictWalk;
    if k < |segments| {
      var m := MetaAt(z, segments, st.chunkSize, k);
      OpenLaterSegment(st, segments, k);
      var st' := OpenSegment(false, st, segments, k).value;
      OpenRest(z, st', segments, k + 1);
    }
  }

  /** The geometry the strict reader takes from the first segment. */
  function FirstVolume(segments: seq<Segment>): Result<OpenState>
    requires segments != [] && GoodShape(segments[0], true)
  {
    OpenVolume(Initial(), segments[0], Relevant(StrictWalk(segments[0], FILE_HEADER_SIZE))[0])
  }

  /** The eager table of a well-formed image: every segment's chunks, in order. */
  lemma EagerTableIs(z: Inflate, segments: seq<Segment>, v: OpenState)
    requires segments != [] && GoodShape(segments[0], true) && FirstVolume(segments) == Ok(v) && v.chunkSize > 0
    requires GoodTables(z, segments, v.chunkSize)
    ensures OpenAll(false, segments) == Ok(v.(chunks := ChunksOf(z, segments, v.chunkSize, |segments|)))
  {
    hide GoodTables, GoodTable, GoodShape, TableMeta, SectionChunks, OpenSegment, EntriesPresent, SectionKept,
         StrictWalk, FirstVolume;
    OnlyGeometry(segments, v);
    var m := MetaAt(z, segments, v.chunkSize, 0);
    OpenFirstSegment(segments);
    var first := v.(chunks := SectionChunks(m, segments, v.chunkSize));
    var none := ChunksOf(z, segments, v.chunkSize, 0);
    assert none == [];
    assert none + SectionChunks(m, segments, v.chunkSize) == SectionChunks(m, segments, v.chunkSize);
    assert first.chunks == ChunksOf(z, segments, v.chunkSize, 1);
    OpenRest(z, first, segments, 1);
  }

  lemma OnlyGeometry(segments: seq<Segment>, v: OpenState)
    requires segments != [] && GoodShape(segments[0], true) && FirstVolume(segments) == Ok(v)
    ensures v.nextChunkId == 0 && v.chunks == []
    ensures OpenVolume(Initial(), segments[0], Relevant(StrictWalk(segments[0], FILE_HEADER_SIZE))[0]) == Ok(v)
  {
    hide ParseVolume, StrictWalk;
  }

  /** Chunk `l` of segment `s` is where the running count of entries says. */
  lemma {:induction false} ChunkOfPlace(z: Inflate, segments: seq<Segment>, chunkSize: U64, n: nat, s: nat, l: nat)
    requires n <= |segments| && GoodTables(z, segments, chunkSize)
    requires s < n && l < MetaAt(z, segments, chunkSize, s).entryCount
    ensures var counts, chunks := EntryCounts(z, segments, chunkSize), ChunksOf(z, segments, chunkSize, n);
            && |chunks| == EntriesBefore(counts, n)
            && EntriesBefore(counts, s) + l < |chunks|
            && chunks[EntriesBefore(counts, s) + l] ==
               SectionChunks(MetaAt(z, segments, chunkSize, s), segments, chunkSize)[l]
    decreases n
  {
    hide GoodTables, GoodTable, TableMeta, SectionChunks, EntriesPresent, SectionKept;
    var counts := EntryCounts(z, segments, chunkSize);
    ChunkCountIs(z, segments, chunkSize, n);
    ChunkCountIs(z, segments, chunkSize, n - 1);
    if s < n - 1 {
      ChunkOfPlace(z, segments, chunkSize, n - 1, s, l);
    }
  }

  lemma {:induction false} ChunkCountIs(z: Inflate, segments: seq<Segment>, chunkSize: U64, n: nat)
    requires n <= |segments| && GoodTables(z, segments, chunkSize)
    ensures |ChunksOf(z, segments, chunkSize, n)| == EntriesBefore(EntryCounts(z, segments, chunkSize), n)
  {
    hide GoodTables, GoodTable, TableMeta, SectionChunks, EntriesPresent, SectionKept;
    if n > 0 {
      ChunkCountIs(z, segments, chunkSize, n - 1);
    }
  }
}
