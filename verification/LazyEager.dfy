/** When the lazy chunk table is interchangeable with the eager one. */
module LazyEager {
  import opened Bytes
  import opened Errors
  import opened Sections
  import opened ChunkTables
  import opened LazyTables
  import opened Walkers
  import opened Opening

  /** The eager table rebuilt from the lazy index: every section parsed with the chunk size that was
      in force when the walk met it. */
  function Flat(index: seq<SectionMeta>, seen: seq<U64>, segments: seq<Segment>): seq<Chunk>
    requires |index| == |seen| && AllPresent(index, segments)
  {
    if index == [] then []
    else
      var n := |index| - 1;
      Flat(index[..n], seen[..n], segments) + SectionChunks(index[n], segments, seen[n])
  }

  predicate AllPresent(index: seq<SectionMeta>, segments: seq<Segment>) {
    forall j :: 0 <= j < |index| ==> EntriesPresent(index[j], segments)
  }

  /** How the two modes' states correspond after the same steps. */
  ghost predicate Related(e: OpenState, l: OpenState, segments: seq<Segment>) {
    && e.chunkSize == l.chunkSize <= MAX_CHUNK_SIZE && e.totalSize == l.totalSize
    && Contiguous(l.index) && l.nextChunkId == Len(l.index) && |l.seen| == |l.index|
    && (forall j :: 0 <= j < |l.seen| ==> l.seen[j] <= MAX_CHUNK_SIZE)
    && AllPresent(l.index, segments)
    && e.chunks == Flat(l.index, l.seen, segments)
  }

  lemma ContiguousAppend(index: seq<SectionMeta>, m: SectionMeta)
    requires Contiguous(index) && m.firstChunkId == Len(index)
    ensures Contiguous(index + [m]) && Len(index + [m]) == Len(index) + m.entryCount
  {
  }

  lemma TableRelated(e: OpenState, l: OpenState, segments: seq<Segment>, segIdx: nat, s: Section, end: Option<U64>)
    requires segIdx < |segments| && Related(e, l, segments)
    requires OpenTable(false, e, segments, segIdx, s, end).Ok?
    ensures OpenTable(true, l, segments, segIdx, s, end).Ok?
    ensures Related(OpenTable(false, e, segments, segIdx, s, end).value,
                    OpenTable(true, l, segments, segIdx, s, end).value, segments)
  {
    var m := ReadHeader(segments[segIdx], segIdx, s, l.nextChunkId, end).value;
    var m0 := ReadHeader(segments[segIdx], segIdx, s, e.nextChunkId, end).value;
    assert m0 == m.(firstChunkId := e.nextChunkId);
    assert SectionChunks(m0, segments, e.chunkSize) == SectionChunks(m, segments, e.chunkSize);
    ContiguousAppend(l.index, m);
    var index, seen := l.index + [m], l.seen + [l.chunkSize];
    assert index[..|l.index|] == l.index && seen[..|l.index|] == l.seen;
  }

  lemma {:induction false} SectionsRelated(e: OpenState, l: OpenState, segments: seq<Segment>, segIdx: nat,
                                           tableType: string, end: Option<U64>, list: seq<Section>)
    requires segIdx < |segments| && Related(e, l, segments)
    requires OpenSections(false, e, segments, segIdx, tableType, end, list).Ok?
    ensures OpenSections(true, l, segments, segIdx, tableType, end, list).Ok?
    ensures Related(OpenSections(false, e, segments, segIdx, tableType, end, list).value,
                    OpenSections(true, l, segments, segIdx, tableType, end, list).value, segments)
    decreases |list|
  {
    if list != [] {
      var s := list[0];
      if s.typeName == tableType && s.typeName != "volume" && s.typeName != "disk" {
        TableRelated(e, l, segments, segIdx, s, end);
      }
      SectionsRelated(OpenSection(false, e, segments, segIdx, tableType, end, s).value,
                      OpenSection(true, l, segments, segIdx, tableType, end, s).value,
                      segments, segIdx, tableType, end, list[1..]);
    }
  }

  lemma {:induction false} SegmentsRelated(e: OpenState, l: OpenState, segments: seq<Segment>, from: nat)
    requires from <= |segments| && Related(e, l, segments)
    requires OpenSegments(false, e, segments, from).Ok?
    ensures OpenSegments(true, l, segments, from).Ok?
    ensures Related(OpenSegments(false, e, segments, from).value, OpenSegments(true, l, segments, from).value, segments)
    decreases |segments| - from
  {
    if from < |segments| {
      var list := StrictWalk(segments[from], FILE_HEADER_SIZE);
      SectionsRelated(e, l, segments, from, TableType(list), SectorsEnd(list), list);
      SegmentsRelated(OpenSegment(false, e, segments, from).value, OpenSegment(true, l, segments, from).value,
                      segments, from + 1);
    }
  }

  /** Whenever the eager open succeeds so does the lazy one, with the same geometry. */
  lemma OpensAlike(segments: seq<Segment>)
    requires OpenAll(false, segments).Ok?
    ensures OpenAll(true, segments).Ok?
    ensures Related(OpenAll(false, segments).value, OpenAll(true, segments).value, segments)
  {
    SegmentsRelated(Initial(), Initial(), segments, 0);
  }

  // ----- Section by section -----

  /** No entry of the section was dropped and its sizes do not depend on a chunk size that changed. */
  predicate Faithful(m: SectionMeta, seenSize: U64, finalSize: U64, segments: seq<Segment>)
    requires EntriesPresent(m, segments)
  {
    && (forall i :: 0 <= i < m.entryCount ==> Fits(EntryAt(EntryBytes(m, segments), i), m.baseOffset))
    && (seenSize == finalSize || SizeIndependent(SectionKept(m, segments), seenSize, finalSize, m.sectorsEnd))
  }

  predicate FullSection(m: SectionMeta, segments: seq<Segment>)
    requires EntriesPresent(m, segments)
  {
    |SectionKept(m, segments)| == m.entryCount
  }

  lemma FaithfulIff(m: SectionMeta, seenSize: U64, finalSize: U64, segments: seq<Segment>)
    requires EntriesPresent(m, segments) && seenSize < U32_LIMIT && finalSize < U32_LIMIT
    ensures Faithful(m, seenSize, finalSize, segments) <==>
            FullSection(m, segments) && SectionChunks(m, segments, seenSize) == SectionChunks(m, segments, finalSize)
  {
    AllKeptIff(EntryBytes(m, segments), m.entryCount, m.baseOffset);
    SameChunksIff(SectionKept(m, segments), m.segmentIdx, seenSize, finalSize, m.sectorsEnd);
  }

  lemma ContiguousPrefix(index: seq<SectionMeta>)
    requires index != [] && Contiguous(index)
    ensures var n := |index| - 1;
            Contiguous(index[..n]) && Len(index[..n]) == index[n].firstChunkId
  {
  }

  /** The lazy table never claims fewer chunks than the eager one holds. */
  lemma {:induction false} FlatAtMost(index: seq<SectionMeta>, seen: seq<U64>, segments: seq<Segment>)
    requires |index| == |seen| && AllPresent(index, segments) && Contiguous(index)
    ensures |Flat(index, seen, segments)| <= Len(index)
  {
    if index != [] {
      var n := |index| - 1;
      ContiguousPrefix(index);
      FlatAtMost(index[..n], seen[..n], segments);
    }
  }

  /** It claims as many exactly when no entry was dropped. */
  lemma {:induction false} FlatLength(index: seq<SectionMeta>, seen: seq<U64>, segments: seq<Segment>)
    requires |index| == |seen| && AllPresent(index, segments) && Contiguous(index)
    ensures |Flat(index, seen, segments)| == Len(index) <==>
            forall j :: 0 <= j < |index| ==> FullSection(index[j], segments)
  {
    if index != [] {
      var n := |index| - 1;
      ContiguousPrefix(index);
      FlatAtMost(index[..n], seen[..n], segments);
      FlatLength(index[..n], seen[..n], segments);
      assert forall j :: 0 <= j < n ==> index[..n][j] == index[j];
    }
  }

  lemma FlatSplit(index: seq<SectionMeta>, seen: seq<U64>, segments: seq<Segment>, n: nat)
    requires n + 1 == |index| == |seen| && AllPresent(index, segments) && Contiguous(index)
    requires |Flat(index, seen, segments)| == Len(index)
    ensures Contiguous(index[..n]) && AllPresent(index[..n], segments)
    ensures |Flat(index[..n], seen[..n], segments)| == Len(index[..n]) == index[n].firstChunkId
    ensures |SectionChunks(index[n], segments, seen[n])| == index[n].entryCount
    ensures Flat(index, seen, segments) ==
            Flat(index[..n], seen[..n], segments) + SectionChunks(index[n], segments, seen[n])
  {
    ContiguousPrefix(index);
    FlatAtMost(index[..n], seen[..n], segments);
  }

  /** Where the eager table keeps the chunks of section `j`. */
  lemma {:induction false} FlatAt(index: seq<SectionMeta>, seen: seq<U64>, segments: seq<Segment>, j: nat, local: nat)
    requires |index| == |seen| && AllPresent(index, segments) && Contiguous(index)
    requires |Flat(index, seen, segments)| == Len(index)
    requires j < |index| && local < index[j].entryCount
    ensures index[j].firstChunkId + local < |Flat(index, seen, segments)|
    ensures local < |SectionChunks(index[j], segments, seen[j])|
    ensures Flat(index, seen, segments)[index[j].firstChunkId + local] ==
            SectionChunks(index[j], segments, seen[j])[local]
  {
    hide Flat, Len, Contiguous, SectionChunks, EntriesPresent;
    var n := |index| - 1;
    FlatSplit(index, seen, segments, n);
    if j < n {
      var front, frontSeen := index[..n], seen[..n];
      assert front[j] == index[j] && frontSeen[j] == seen[j];
      FlatAt(front, frontSeen, segments, j, local);
    }
  }

  /** Does the lazy table answer every lookup as the eager one does? */
  ghost predicate Interchangeable(chunks: seq<Chunk>, index: seq<SectionMeta>, chunkSize: U64, segments: seq<Segment>) {
    && Len(index) == |chunks|
    && forall id :: 0 <= id < |chunks| ==> Lookup(index, chunkSize, segments, id) == Ok(chunks[id])
  }

  lemma LookupOfHeld(index: seq<SectionMeta>, chunkSize: U64, segments: seq<Segment>, j: nat, local: nat)
    requires AllPresent(index, segments) && Contiguous(index) && j < |index| && local < index[j].entryCount
    ensures Lookup(index, chunkSize, segments, index[j].firstChunkId + local) ==
            PickLocal(SectionChunks(index[j], segments, chunkSize), local)
  {
    var id := index[j].firstChunkId + local;
    assert Holds(index, j, id);
    var p := SectionOfChunk(index, id);
    HoldsUnique(index, p.value, j, id);
  }

  lemma InterchangeableChunk(e: OpenState, l: OpenState, segments: seq<Segment>, j: nat, k: nat)
    requires Related(e, l, segments) && j < |l.index| && k < l.index[j].entryCount
    requires Interchangeable(e.chunks, l.index, l.chunkSize, segments)
    ensures k < |SectionKept(l.index[j], segments)|
    ensures SectionChunks(l.index[j], segments, l.seen[j])[k] == SectionChunks(l.index[j], segments, l.chunkSize)[k]
  {
    FlatAt(l.index, l.seen, segments, j, k);
    LookupOfHeld(l.index, l.chunkSize, segments, j, k);
  }

  lemma InterchangeableSection(e: OpenState, l: OpenState, segments: seq<Segment>, j: nat)
    requires Related(e, l, segments) && j < |l.index|
    requires Interchangeable(e.chunks, l.index, l.chunkSize, segments)
    ensures Faithful(l.index[j], l.seen[j], l.chunkSize, segments)
  {
    var m := l.index[j];
    var a, b := SectionChunks(m, segments, l.seen[j]), SectionChunks(m, segments, l.chunkSize);
    forall k | 0 <= k < m.entryCount
      ensures k < |a| && a[k] == b[k]
    {
      InterchangeableChunk(e, l, segments, j, k);
    }
    if m.entryCount > 0 {
      InterchangeableChunk(e, l, segments, j, m.entryCount - 1);
    }
    assert a == b;
    FaithfulIff(m, l.seen[j], l.chunkSize, segments);
  }

  lemma FaithfulLookup(e: OpenState, l: OpenState, segments: seq<Segment>, id: nat)
    requires Related(e, l, segments) && id < Len(l.index) == |e.chunks|
    requires forall j :: 0 <= j < |l.index| ==> Faithful(l.index[j], l.seen[j], l.chunkSize, segments)
    ensures Lookup(l.index, l.chunkSize, segments, id) == Ok(e.chunks[id])
  {
    EveryIdHeld(l.index, id);
    var j := SectionOfChunk(l.index, id).value;
    var local := id - l.index[j].firstChunkId;
    FlatAt(l.index, l.seen, segments, j, local);
    LookupOfHeld(l.index, l.chunkSize, segments, j, local);
    FaithfulIff(l.index[j], l.seen[j], l.chunkSize, segments);
  }

  /** Two related tables are interchangeable exactly when every section drops no entry and met the final
      chunk size (or does not use it). */
  lemma InterchangeableIff(e: OpenState, l: OpenState, segments: seq<Segment>)
    requires Related(e, l, segments)
    ensures Interchangeable(e.chunks, l.index, l.chunkSize, segments) <==>
            forall j :: 0 <= j < |l.index| ==> Faithful(l.index[j], l.seen[j], l.chunkSize, segments)
  {
    if Interchangeable(e.chunks, l.index, l.chunkSize, segments) {
      forall j | 0 <= j < |l.index|
        ensures Faithful(l.index[j], l.seen[j], l.chunkSize, segments)
      {
        InterchangeableSection(e, l, segments, j);
      }
    }
    if forall j :: 0 <= j < |l.index| ==> Faithful(l.index[j], l.seen[j], l.chunkSize, segments) {
      forall j | 0 <= j < |l.index|
        ensures FullSection(l.index[j], segments)
      {
        FaithfulIff(l.index[j], l.seen[j], l.chunkSize, segments);
      }
      FlatLength(l.index, l.seen, segments);
      forall id | 0 <= id < |e.chunks|
        ensures Lookup(l.index, l.chunkSize, segments, id) == Ok(e.chunks[id])
      {
        FaithfulLookup(e, l, segments, id);
      }
    }
  }

  /** On any image that opens eagerly, the lazy table is interchangeable with the eager one exactly
      under that condition. */
  lemma LazyMatchesEagerIff(segments: seq<Segment>)
    requires OpenAll(false, segments).Ok?
    ensures OpenAll(true, segments).Ok?
    ensures var e, l := OpenAll(false, segments).value, OpenAll(true, segments).value;
            && Related(e, l, segments)
            && (Interchangeable(e.chunks, l.index, l.chunkSize, segments) <==>
                forall j :: 0 <= j < |l.index| ==> Faithful(l.index[j], l.seen[j], l.chunkSize, segments))
  {
    hide Interchangeable, Faithful, OpenAll;
    OpensAlike(segments);
    InterchangeableIff(OpenAll(false, segments).value, OpenAll(true, segments).value, segments);
  }

  /** A table met before the volume (or under another chunk size) is told apart as soon as it holds
      one uncompressed chunk: the two tables disagree on that chunk's size. */
  lemma UncompressedUnderOtherSize(kept: seq<Located>, k: nat, segmentIdx: nat, seenSize: U64, finalSize: U64,
                                   end: Option<U64>)
    requires k < |kept| && !kept[k].compressed
    requires seenSize != finalSize && seenSize < U32_LIMIT && finalSize < U32_LIMIT
    ensures TableChunks(kept, segmentIdx, seenSize, end)[k].size !=
            TableChunks(kept, segmentIdx, finalSize, end)[k].size
    ensures !SizeIndependent(kept, seenSize, finalSize, end)
  {
  }
}
