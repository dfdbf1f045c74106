/** The analyser's hash loop against the strict reader and the recovery: when the digests of an image are
    digests of its media. */
module HashAgreement {
  import opened Bytes
  import opened Sections
  import opened Walkers
  import opened LazyTables
  import opened Media
  import opened Images
  import opened Opening
  import opened Recover
  import opened RecoverLoop
  import opened WellFormed
  import opened Agreement
  import opened Integrity

  // ----- What is hashed, chunk by chunk -----

  /** The saved bytes of a chunk, as far as the media goes; unlike what recovery writes, never padded. */
  function Share(ledger: Ledger, idx: nat): Data {
    var o := ledger.outcome(idx);
    if o.Lost? then [] else o.bytes[..Min(|o.bytes|, ledger.Logical(idx))]
  }

  function Shares(ledger: Ledger, k: nat): Data {
    if k == 0 then [] else Shares(ledger, k - 1) + Share(ledger, k - 1)
  }

  /** Does the chunk decode to everything the media needs of it? */
  predicate Full(ledger: Ledger, idx: nat) {
    |Share(ledger, idx)| == ledger.Logical(idx)
  }

  ghost predicate AllFull(ledger: Ledger, k: nat) {
    forall idx :: 0 <= idx < k ==> Full(ledger, idx)
  }

  /** Unpadded shares add up to the recovered output exactly when no padding was needed. */
  lemma {:induction false} SharesAreOutputIff(ledger: Ledger, k: nat)
    ensures |Shares(ledger, k)| <= |ledger.Output(k)|
    ensures AllFull(ledger, k) ==> Shares(ledger, k) == ledger.Output(k)
    ensures !AllFull(ledger, k) ==> |Shares(ledger, k)| < |ledger.Output(k)|
  {
    hide Ledger.Logical, Full, Share, Ledger.Written;
    if k > 0 {
      SharesAreOutputIff(ledger, k - 1);
      ShareIsWrittenIff(ledger, k - 1);
    }
  }

  lemma ShareIsWrittenIff(ledger: Ledger, idx: nat)
    ensures |Share(ledger, idx)| <= |ledger.Written(idx)|
    ensures Full(ledger, idx) ==> Share(ledger, idx) == ledger.Written(idx)
    ensures !Full(ledger, idx) ==> |Share(ledger, idx)| < |ledger.Written(idx)|
  {
    hide Ledger.Logical;
  }

  // ----- One chunk in the hash loop -----

  /** The hash loop's contribution of a chunk that recovery can decode is its saved bytes, cut to what is
      asked for. */
  lemma ContributionIs(z: Inflate, raw: Data, compressed: bool, cs: nat, n: nat)
    requires n <= cs && DecodeChunk(z, raw, compressed, cs).Some?
    ensures var bytes := DecodeChunk(z, raw, compressed, cs).value.bytes;
            Contribution(z, raw, compressed, n) == bytes[..Min(|bytes|, n)]
  {
    if !compressed {
      var x := raw[..Min(|raw|, cs)];
      assert x[..Min(|x|, n)] == raw[..Min(|raw|, n)];
    } else {
      var stream := z(raw);
      if |stream.out| >= cs + 1 {
        assert stream.out[..cs + 1][..cs] == stream.out[..cs];
        assert stream.out[..cs][..n] == stream.out[..n + 1][..n];
      } else if |stream.out| >= n + 1 {
        assert stream.out[..n + 1][..n] == stream.out[..n];
      }
    }
  }

  /** The state of the hash loop once the first `k` chunks (or all that are needed) have been hashed. */
  function StateAt(ledger: Ledger, k: nat): HashState
    requires ledger.chunkSize > 0
  {
    var n := Min(k, ledger.Processed());
    HashState(Shares(ledger, n), SatSub(ledger.imageSize, ledger.At(n)))
  }

  lemma StateNext(ledger: Ledger, idx: nat)
    requires ledger.chunkSize > 0 && idx < ledger.Processed() == CeilDiv(ledger.imageSize, ledger.chunkSize)
    ensures StateAt(ledger, idx).remaining > 0
    ensures Min(StateAt(ledger, idx).remaining, ledger.chunkSize) == ledger.Logical(idx) <= ledger.chunkSize
    ensures StateAt(ledger, idx + 1) ==
            HashState(StateAt(ledger, idx).fed + Share(ledger, idx),
                      SatSub(StateAt(ledger, idx).remaining, ledger.Logical(idx)))
  {
    hide Share, CeilDiv;
    TallyBytes(ledger, idx + 1);
    AtNext(ledger, idx);
  }

  lemma StateDone(ledger: Ledger, k: nat)
    requires ledger.chunkSize > 0 && ledger.Processed() == CeilDiv(ledger.imageSize, ledger.chunkSize) <= k
    ensures StateAt(ledger, k).remaining == 0 && StateAt(ledger, k).fed == Shares(ledger, ledger.Processed())
    ensures forall j: nat :: j >= ledger.Processed() ==> StateAt(ledger, j) == StateAt(ledger, k)
  {
    hide Shares;
  }

  // ----- One segment in the hash loop -----

  /** The analyser resolves every entry of a well-formed segment's table. */
  lemma AllRangesResolve(z: Inflate, segments: seq<Segment>, chunkSize: U64, s: nat)
    requires s < |segments| < U32_LIMIT && GoodTables(z, segments, chunkSize)
    ensures var ranges := SegmentRanges(segments[s], Walk(segments[s], FILE_HEADER_SIZE));
            |ranges| == MetaAt(z, segments, chunkSize, s).entryCount && InData(segments[s], ranges)
    ensures var ranges := SegmentRanges(segments[s], Walk(segments[s], FILE_HEADER_SIZE));
            var e := EvidenceOf(segments[s]);
            forall l :: 0 <= l < |ranges| ==>
              ChunkRange(segments[s], e.primary.value, l, e.sectorsEnd) == Some(ranges[l])
  {
    hide GoodTables, TableMeta, GoodShape, SectionKept, GoodChunk, Walk, ChunkRange, RangesFrom;
    var m, e := MetaAt(z, segments, chunkSize, s), EvidenceOf(segments[s]);
    EvidenceAgrees(z, segments, chunkSize, s);
    RangesAreLongestPrefix(segments[s], RefOf(m), e.sectorsEnd, 0);
    var n := |RangesFrom(segments[s], RefOf(m), e.sectorsEnd, 0)|;
    if n < m.entryCount {
      EntryResolves(z, segments, chunkSize, s, n);
      assert false;
    }
  }

  lemma EntryResolves(z: Inflate, segments: seq<Segment>, chunkSize: U64, s: nat, l: nat)
    requires s < |segments| && GoodTables(z, segments, chunkSize) && l < MetaAt(z, segments, chunkSize, s).entryCount
    ensures var m, e := MetaAt(z, segments, chunkSize, s), EvidenceOf(segments[s]);
            ChunkRange(segments[s], RefOf(m), l, e.sectorsEnd).Some?
  {
    hide GoodTables, TableMeta, GoodShape, SectionKept, EvidenceOf, Evidence.Entries, ChunkRange;
    var m := MetaAt(z, segments, chunkSize, s);
    EvidenceAgrees(z, segments, chunkSize, s);
    var kept, end := SectionKept(m, segments), m.sectorsEnd.value;
    assert GoodChunk(z, segments[s], kept, l, end, chunkSize);
    RangeAgrees(m, segments, l, end);
  }

  /** The outcome of the chunk at a place is the good copy its primary entry gives. */
  lemma OutcomeAtPlace(z: Inflate, segments: seq<Segment>, v: Volume, s: nat, l: nat, idx: nat)
    requires WellFormedImage(z, segments, v) && s < |segments|
    requires l < MetaAt(z, segments, v.ChunkSize(), s).entryCount
    requires idx == EntriesBefore(EntryCounts(z, segments, v.ChunkSize()), s) + l
    ensures var e := EvidenceOf(segments[s]);
            var d := e.DecodeFrom(z, e.primary, l, v.ChunkSize());
            e.data == segments[s] && e.primary.Some? && d.Some?
              && LedgerOf(z, segments, v).outcome(idx) == Saved(d.value.bytes, false, true)
  {
    hide GoodTables, GoodShape, VolumeIs, CeilDiv, EntriesBefore, EvidenceOf, Evidence.DecodeFrom, PageOf,
         SectionChunks, PlaceOf;
    var cs, job := v.ChunkSize(), JobOf(z, segments, v);
    EvidenceAgrees(z, segments, cs, s);
    CountsAgree(z, segments, v);
    CopyAgrees(z, segments, cs, s, l, StrictImage(z, segments, v));
    PlaceFound(job.Counts(), idx, Place(s, l));
  }

  lemma PlaceFound(counts: seq<nat>, idx: nat, place: Place)
    requires IsPlace(counts, idx, place)
    ensures PlaceOf(counts, idx) == Some(place)
  {
    EntriesBeforeMonotone(counts, place.segment + 1, |counts|);
    PlaceUnique(counts, idx, PlaceOf(counts, idx).value, place);
  }

  /** Hashing the chunk's bytes moves the loop on by exactly that chunk. */
  lemma ChunkHashes(z: Inflate, ledger: Ledger, e: Evidence, l: nat, idx: nat, r: Range)
    requires ledger.chunkSize > 0 && idx < ledger.Processed() == CeilDiv(ledger.imageSize, ledger.chunkSize)
    requires e.primary.Some? && ChunkRange(e.data, e.primary.value, l, e.sectorsEnd) == Some(r)
    requires var d := e.DecodeFrom(z, e.primary, l, ledger.chunkSize);
             d.Some? && ledger.outcome(idx) == Saved(d.value.bytes, false, true)
    ensures HashChunk(z, ledger.chunkSize, e.data[r.start..r.end], r.compressed, StateAt(ledger, idx)) ==
            StateAt(ledger, idx + 1)
  {
    hide ChunkRange, DecodeChunk, StateAt, Contribution, Ledger.Processed, Ledger.Logical, CeilDiv;
    StateNext(ledger, idx);
    ContributionIs(z, e.data[r.start..r.end], r.compressed, ledger.chunkSize, ledger.Logical(idx));
  }

  /** Each range moves the loop on by one chunk, from chunk `first` on. */
  ghost predicate RangesAdvance(z: Inflate, ledger: Ledger, data: Segment, ranges: seq<Range>, first: nat)
    requires ledger.chunkSize > 0
  {
    && InData(data, ranges)
    && forall l :: 0 <= l < |ranges| && first + l < ledger.Processed() ==>
       Advances(z, ledger, data, ranges[l], first + l)
  }

  predicate Advances(z: Inflate, ledger: Ledger, data: Segment, r: Range, idx: nat)
    requires ledger.chunkSize > 0 && r.start <= r.end <= |data|
  {
    HashChunk(z, ledger.chunkSize, data[r.start..r.end], r.compressed, StateAt(ledger, idx)) == StateAt(ledger, idx + 1)
  }

  /** Hashing a segment's ranges moves the loop on by as many chunks, unless the media ends first. */
  lemma {:induction false} RangesHash(z: Inflate, ledger: Ledger, data: Segment, ranges: seq<Range>, first: nat)
    requires ledger.chunkSize > 0 && ledger.Processed() == CeilDiv(ledger.imageSize, ledger.chunkSize)
    requires RangesAdvance(z, ledger, data, ranges, first)
    ensures HashRanges(z, ledger.chunkSize, data, ranges, StateAt(ledger, first)) == StateAt(ledger, first + |ranges|)
    decreases |ranges|
  {
    hide HashChunk, StateAt, Ledger.Processed, CeilDiv;
    if first >= ledger.Processed() {
      StateDone(ledger, first);
    } else if ranges != [] {
      StateNext(ledger, first);
      assert first + 0 < ledger.Processed() && Advances(z, ledger, data, ranges[0], first + 0);
      AdvanceRest(z, ledger, data, ranges, first);
      RangesHash(z, ledger, data, ranges[1..], first + 1);
    }
  }

  lemma AdvanceRest(z: Inflate, ledger: Ledger, data: Segment, ranges: seq<Range>, first: nat)
    requires ledger.chunkSize > 0 && ranges != [] && RangesAdvance(z, ledger, data, ranges, first)
    ensures RangesAdvance(z, ledger, data, ranges[1..], first + 1)
  {
    hide Advances, Ledger.Processed;
    forall l | 0 <= l < |ranges| - 1 && first + 1 + l < ledger.Processed()
      ensures Advances(z, ledger, data, ranges[1..][l], first + 1 + l)
    {
      assert Advances(z, ledger, data, ranges[l + 1], first + (l + 1));
    }
  }

  /** Segment `s`'s ranges, as the analyser iterates over them. */
  function RangesOf(segments: seq<Segment>, s: nat): seq<Range>
    requires s < |segments|
  {
    SegmentRanges(segments[s], Walk(segments[s], FILE_HEADER_SIZE))
  }

  /** Every segment moves the loop on by all its chunks. */
  ghost predicate AllAdvance(z: Inflate, ledger: Ledger, segments: seq<Segment>, counts: seq<nat>)
    requires ledger.chunkSize > 0
  {
    && |counts| == |segments|
    && forall s :: 0 <= s < |segments| ==> SegmentAdvances(z, ledger, segments, counts, s)
  }

  ghost predicate SegmentAdvances(z: Inflate, ledger: Ledger, segments: seq<Segment>, counts: seq<nat>, s: nat)
    requires ledger.chunkSize > 0 && s < |segments| == |counts|
  {
    |RangesOf(segments, s)| == counts[s]
      && RangesAdvance(z, ledger, segments[s], RangesOf(segments, s), EntriesBefore(counts, s))
  }

  lemma WellFormedParts(z: Inflate, segments: seq<Segment>, v: Volume)
    requires WellFormedImage(z, segments, v)
    ensures GoodTables(z, segments, v.ChunkSize()) && |segments| < U32_LIMIT
    ensures var ledger := LedgerOf(z, segments, v);
            && ledger.chunkSize == v.ChunkSize() > 0 && ledger.imageSize == v.TotalSize()
            && ledger.Processed() == CeilDiv(ledger.imageSize, ledger.chunkSize)
            && ledger.Processed() <= EntriesBefore(EntryCounts(z, segments, v.ChunkSize()), |segments|)
  {
    hide WellFormedImage, GoodTables, EntriesBefore, CeilDiv;
    GoodParts(z, segments, v);
    var n := CeilDiv(v.TotalSize(), v.ChunkSize());
    ChunksSuffice(z, segments, v);
    if n > 0 {
      assert Tabled(z, segments, v.ChunkSize(), n - 1);
    }
  }

  lemma WellFormedAdvances(z: Inflate, segments: seq<Segment>, v: Volume, s: nat)
    requires WellFormedImage(z, segments, v) && s < |segments| && GoodTables(z, segments, v.ChunkSize())
    requires LedgerOf(z, segments, v).chunkSize > 0
    ensures SegmentAdvances(z, LedgerOf(z, segments, v), segments, EntryCounts(z, segments, v.ChunkSize()), s)
  {
    hide WellFormedImage, GoodTables, GoodTable, TableMeta, CeilDiv, EntriesBefore, EvidenceOf, Evidence.DecodeFrom,
         SegmentRanges,
         ChunkRange, Advances, Walk, LedgerOf, EntriesPresent, SectionKept, Ledger.Processed;
    var ledger, ranges := LedgerOf(z, segments, v), RangesOf(segments, s);
    var first := EntriesBefore(EntryCounts(z, segments, v.ChunkSize()), s);
    WellFormedParts(z, segments, v);
    AllRangesResolve(z, segments, v.ChunkSize(), s);
    forall l | 0 <= l < |ranges| && first + l < ledger.Processed()
      ensures Advances(z, ledger, segments[s], ranges[l], first + l)
    {
      OutcomeAtPlace(z, segments, v, s, l, first + l);
      ChunkHashes(z, ledger, EvidenceOf(segments[s]), l, first + l, ranges[l]);
      AdvancedBy(z, ledger, segments[s], ranges[l], first + l);
    }
  }

  lemma AdvancedBy(z: Inflate, ledger: Ledger, data: Segment, r: Range, idx: nat)
    requires ledger.chunkSize > 0 && r.start <= r.end <= |data|
    requires HashChunk(z, ledger.chunkSize, data[r.start..r.end], r.compressed, StateAt(ledger, idx)) ==
             StateAt(ledger, idx + 1)
    ensures Advances(z, ledger, data, r, idx)
  {
  }

  lemma {:induction false} SegmentsHash(z: Inflate, ledger: Ledger, segments: seq<Segment>, counts: seq<nat>, k: nat)
    requires ledger.chunkSize > 0 && ledger.Processed() == CeilDiv(ledger.imageSize, ledger.chunkSize)
    requires AllAdvance(z, ledger, segments, counts) && k <= |segments|
    ensures HashSegments(z, ledger.chunkSize, segments, Lists(segments), k,
            StateAt(ledger, EntriesBefore(counts, k))) ==
            StateAt(ledger, EntriesBefore(counts, |segments|))
    decreases |segments| - k
  {
    hide RangesAdvance, HashRanges, StateAt, SegmentRanges, Walk, Ledger.Processed, CeilDiv;
    if k < |segments| {
      assert SegmentAdvances(z, ledger, segments, counts, k);
      RangesHash(z, ledger, segments[k], RangesOf(segments, k), EntriesBefore(counts, k));
      SegmentsHash(z, ledger, segments, counts, k + 1);
      if StateAt(ledger, EntriesBefore(counts, k)).remaining == 0 {
        EndReached(ledger, EntriesBefore(counts, k), EntriesBefore(counts, |segments|));
        EntriesBeforeMonotone(counts, k, |segments|);
      }
    }
  }

  lemma EndReached(ledger: Ledger, k: nat, n: nat)
    requires ledger.chunkSize > 0 && ledger.Processed() == CeilDiv(ledger.imageSize, ledger.chunkSize)
    requires StateAt(ledger, k).remaining == 0
    ensures k <= n ==> StateAt(ledger, n) == StateAt(ledger, k)
  {
    hide CeilDiv, Shares;
    if k < ledger.Processed() {
      StateNext(ledger, k);
      assert false;
    }
    StateDone(ledger, k);
  }

  // ----- The agreement -----

  /** Everything the analyser hashes of a well-formed image: each chunk's unpadded share, in order. */
  lemma StreamIsShares(z: Inflate, segments: seq<Segment>, v: Volume)
    requires WellFormedImage(z, segments, v)
    ensures MediaStream(z, segments, v) == Shares(LedgerOf(z, segments, v), LedgerOf(z, segments, v).Processed())
  {
    hide WellFormedImage, GoodTables, GoodTable, TableMeta, LedgerOf, HashSegments, CeilDiv, SegmentAdvances,
         Shares, Ledger.Processed,
         EntriesPresent, SectionKept;
    WellFormedParts(z, segments, v);
    var ledger, counts := LedgerOf(z, segments, v), EntryCounts(z, segments, v.ChunkSize());
    forall s | 0 <= s < |segments|
      ensures SegmentAdvances(z, ledger, segments, counts, s)
    {
      WellFormedAdvances(z, segments, v, s);
    }
    SegmentsHash(z, ledger, segments, counts, 0);
    StateStart(ledger);
    StateDone(ledger, EntriesBefore(counts, |segments|));
  }

  lemma StateStart(ledger: Ledger)
    requires ledger.chunkSize > 0 && ledger.Processed() == CeilDiv(ledger.imageSize, ledger.chunkSize)
    ensures StateAt(ledger, 0) == HashState([], ledger.imageSize)
  {
  }

  lemma GeometryOfWellFormed(z: Inflate, segments: seq<Segment>, v: Volume)
    requires WellFormedImage(z, segments, v)
    ensures ComputableGeometry(segments) == Some(v)
  {
    hide GoodTables, StrictWalk, Walk, Relevant, ParseVolume, CeilDiv, EntriesBefore;
    var seg := segments[0];
    var w := StrictWalk(seg, FILE_HEADER_SIZE);
    var s := Relevant(w)[0];
    TolerantIsStrictPrefix(seg, FILE_HEADER_SIZE);
    FindRelevant(w, {"volume", "disk"});
    var off := s.offset + DESCRIPTOR_SIZE;
    SameVolume(seg, off, off + VOLUME_READ, Min(SatAdd(off, SatSub(s.size, DESCRIPTOR_SIZE)), |seg|));
  }

  /** On a well-formed image the analyser and the independent hash computation digest exactly the media
      the strict reader serves, and recovery writes, if and only if every chunk decodes to all the bytes
      the media needs of it: neither of them pads a chunk that falls short. */
  lemma HashedIsMediaIff(z: Inflate, segments: seq<Segment>, v: Volume)
    requires WellFormedImage(z, segments, v)
    ensures ComputableGeometry(segments) == Some(v)
    ensures var m, ledger := MediaOf(StrictImage(z, segments, v)), LedgerOf(z, segments, v);
            && m.chunkSize > 0 && m.Readable(0, m.total)
            && (MediaStream(z, segments, v) == m.Slice(0, m.total) <==> AllFull(ledger, ledger.Processed()))
  {
    hide WellFormedImage, GoodTables, Ledger.Processed, Ledger.Output, MediaStream, Shares, AllFull,
         PagedMedia.Slice, PagedMedia.Readable,
         MediaOf, StrictImage, LedgerOf, ComputableGeometry;
    var m, ledger := MediaOf(StrictImage(z, segments, v)), LedgerOf(z, segments, v);
    GeometryOfWellFormed(z, segments, v);
    WellFormedParts(z, segments, v);
    StreamIsShares(z, segments, v);
    SharesAreOutputIff(ledger, ledger.Processed());
    WholeOutput(z, segments, v);
  }
}
