/** Which chunks the analyser reports, and under which number. */
module ChunkReports {
  import opened Bytes
  import opened Adler
  import opened Sections
  import opened Images
  import opened Recover
  import opened Integrity
  import opened Analyser
  import opened Walkers
  import opened Fallback

  /** What is wrong with chunk `n`, told from its bytes: an inflate stream that breaks before it yields more than
      the bytes due, or an uncompressed chunk that disagrees with the checksum behind it. */
  predicate Faulty(z: Inflate, chunkSize: nat, raw: Data, compressed: bool, due: nat, n: nat, x: HashIssue) {
    if compressed then x == ChunkDecompressionError(n) && |z(raw).out| <= due && !z(raw).clean
    else
      && |raw| >= chunkSize + 4
      && var computed, stored := Adler32(raw[..chunkSize]), Le32(raw, chunkSize);
         computed != stored && x == ChunkChecksumMismatch(n, computed, stored)
  }

  lemma ChunkIssuesAre(z: Inflate, chunkSize: nat, raw: Data, compressed: bool, due: nat, n: nat, x: HashIssue)
    ensures x in ChunkIssues(z, chunkSize, raw, compressed, due, n) <==>
            Faulty(z, chunkSize, raw, compressed, due, n, x)
  {
  }

  /** A chunk that does not inflate adds nothing to what is hashed, but uses up its share of the media. */
  lemma BrokenAddsNothing(z: Inflate, chunkSize: nat, raw: Data, compressed: bool, st: HashState)
    ensures var due, next := Min(st.remaining, chunkSize), HashChunk(z, chunkSize, raw, compressed, st);
            && next.remaining == st.remaining - due
            && (Faulty(z, chunkSize, raw, compressed, due, 0, ChunkDecompressionError(0)) ==> next.fed == st.fed)
            && (!Faulty(z, chunkSize, raw, compressed, due, 0, ChunkDecompressionError(0)) ==>
                 var data := if compressed then z(raw).out else raw;
                 next.fed == st.fed + data[..Min(|data|, due)])
  {
    var due := Min(st.remaining, chunkSize);
    var out := z(raw).out;
    if |out| >= due + 1 {
      assert out[..due + 1][..due] == out[..due];
    }
    assert st.fed + [] == st.fed;
  }

  // ----- What is looked at -----

  /** The analyser and the hash computation start on the same geometry as recovery, whatever the kind of container;
      the hash computation asks for one of three signatures, "EVF", "LVF" or "dvf". */
  lemma GeometryIff(segments: seq<Segment>, v: Volume)
    ensures AnalyserGeometry(segments) == Some(v) <==>
            segments != [] && |segments[0]| >= 13 && HoldsGeometry(segments[0], v)
    ensures ComputableGeometry(segments) == Some(v) <==>
            && segments != [] && |segments[0]| >= 13 && HoldsGeometry(segments[0], v)
            && segments[0][1..8] == [if segments[0][0] == 'd' as int then 'v' as int else 'V' as int,
                                     if segments[0][0] == 'd' as int then 'f' as int else 'F' as int,
                                     0x09, 0x0d, 0x0a, 0xff, 0x00]
            && segments[0][0] in ['E' as int, 'L' as int, 'd' as int]
  {
    hide Walk, GeometryOf;
    if segments != [] && |segments[0]| >= 13 {
      GeometryOfIff(segments[0], v);
      SignatureIff(segments[0]);
    }
  }

  lemma SignatureIff(data: Segment)
    requires |data| >= 13
    ensures KnownSignature(data) <==>
            && data[1..8] == [if data[0] == 'd' as int then 'v' as int else 'V' as int,
                              if data[0] == 'd' as int then 'f' as int else 'F' as int,
                              0x09, 0x0d, 0x0a, 0xff, 0x00]
            && data[0] in ['E' as int, 'L' as int, 'd' as int]
  {
    var head, tail := data[..8], data[1..8];
    assert head == [data[0]] + tail;
    assert head[1..] == tail;
  }

  lemma GeometryOfIff(data: Segment, v: Volume)
    ensures GeometryOf(data) == Some(v) <==> HoldsGeometry(data, v)
  {
    hide Walk, ParseVolume, Find, Le32, Le64;
    WalkAscending(data, FILE_HEADER_SIZE);
    var s := Find(Walk(data, FILE_HEADER_SIZE), {"volume", "disk"});
    if s.Some? && s.value.size >= DESCRIPTOR_SIZE + VOLUME_MIN
       && s.value.offset + DESCRIPTOR_SIZE + VOLUME_MIN <= |data| {
      var off := s.value.offset + DESCRIPTOR_SIZE;
      var end := Min(SatAdd(off, SatSub(s.value.size, DESCRIPTOR_SIZE)), |data|);
      var u := Volume(Le32(data, off + 4), Le32(data, off + 8), Le32(data, off + 12), Le64(data, off + 16));
      VolumeBytesAre(data, off, end, u);
    }
  }

  /** The resolvable entries of a table, from the place where its header is. */
  function RangesBehind(data: Segment, table: Option<Section>, sectors: Option<Section>): seq<Range> {
    if table.None? || sectors.None? || table.value.offset + DESCRIPTOR_SIZE + TABLE_HEADER_SIZE > |data| then []
    else
      var at := table.value.offset + DESCRIPTOR_SIZE;
      RangesFrom(data, RefAt(data, at, Le32(data, at)), Some(DataEnd(data)), 0)
  }

  /** In a segment the analyser looks at the entries of its first `table`, and at none without a whole table header
      or without a sectors section. */
  lemma RangesAre(data: Segment)
    ensures var w := Walk(data, FILE_HEADER_SIZE);
            SegmentRanges(data, w) == RangesBehind(data, Find(w, {"table"}), Find(w, {"sectors"}))
  {
    hide Walk, Find, TableRefOf, RefAt, RangesFrom, Le32, SectorsDataEnd, DataEnd, SegmentRanges;
    TableRefIs(data, "table");
    SectorsEndIs(data);
    RangesUnfolded(data, Walk(data, FILE_HEADER_SIZE));
  }

  lemma RangesUnfolded(data: Segment, w: seq<Section>)
    ensures var t, end := TableRefOf(data, w, "table"), SectorsDataEnd(w, |data|);
            SegmentRanges(data, w) == if t.None? || end.None? then [] else RangesFrom(data, t.value, end, 0)
  {
    hide TableRefOf, SectorsDataEnd, RangesFrom;
  }

  lemma SectorsEndIs(data: Segment)
    ensures var w := Walk(data, FILE_HEADER_SIZE);
            SectorsDataEnd(w, |data|) == if Find(w, {"sectors"}).None? then None else Some(DataEnd(data))
  {
    hide Walk, Find;
  }

  // ----- One segment -----

  /** The `l`-th of the ranges is still due, and faulty. */
  predicate FaultAt(z: Inflate, chunkSize: nat, data: Segment, ranges: seq<Range>, remaining: nat, first: nat, l: nat,
                    x: HashIssue)
    requires InData(data, ranges)
  {
    && l < |ranges| && l * chunkSize < remaining
    && Faulty(z, chunkSize, data[ranges[l].start..ranges[l].end], ranges[l].compressed,
              Min(remaining - l * chunkSize, chunkSize), first + l, x)
  }

  ghost predicate SomeFault(z: Inflate, chunkSize: nat, data: Segment, ranges: seq<Range>, remaining: nat, first: nat,
                            x: HashIssue)
    requires InData(data, ranges)
  {
    exists l: nat :: FaultAt(z, chunkSize, data, ranges, remaining, first, l, x)
  }

  lemma FaultNext(z: Inflate, chunkSize: nat, data: Segment, ranges: seq<Range>, remaining: nat, first: nat, l: nat,
                  x: HashIssue)
    requires InData(data, ranges) && ranges != []
    ensures InData(data, ranges[1..])
    ensures FaultAt(z, chunkSize, data, ranges[1..], SatSub(remaining, chunkSize), first + 1, l, x) <==>
            FaultAt(z, chunkSize, data, ranges, remaining, first, l + 1, x)
  {
    hide Faulty;
    assert (l + 1) * chunkSize == l * chunkSize + chunkSize;
  }

  lemma SomeNext(z: Inflate, chunkSize: nat, data: Segment, ranges: seq<Range>, remaining: nat, first: nat,
                 x: HashIssue)
    requires InData(data, ranges) && ranges != []
    ensures InData(data, ranges[1..])
    ensures SomeFault(z, chunkSize, data, ranges, remaining, first, x) <==>
            || FaultAt(z, chunkSize, data, ranges, remaining, first, 0, x)
            || SomeFault(z, chunkSize, data, ranges[1..], SatSub(remaining, chunkSize), first + 1, x)
  {
    hide FaultAt;
    var rest, left := ranges[1..], SatSub(remaining, chunkSize);
    FaultNext(z, chunkSize, data, ranges, remaining, first, 0, x);
    if l: nat :| FaultAt(z, chunkSize, data, ranges, remaining, first, l, x) {
      if l > 0 {
        FaultNext(z, chunkSize, data, ranges, remaining, first, l - 1, x);
      }
    }
    if SomeFault(z, chunkSize, data, rest, left, first + 1, x) {
      var next := first + 1;
      var l: nat :| FaultAt(z, chunkSize, data, rest, left, next, l, x);
      FaultNext(z, chunkSize, data, ranges, remaining, first, l, x);
    }
  }

  lemma FirstFault(z: Inflate, chunkSize: nat, data: Segment, ranges: seq<Range>, remaining: nat, first: nat,
                   x: HashIssue)
    requires InData(data, ranges) && ranges != [] && remaining > 0
    ensures var r := ranges[0];
            FaultAt(z, chunkSize, data, ranges, remaining, first, 0, x) <==>
            Faulty(z, chunkSize, data[r.start..r.end], r.compressed, Min(remaining, chunkSize), first, x)
  {
    hide Faulty;
  }

  lemma NoFault(z: Inflate, chunkSize: nat, data: Segment, ranges: seq<Range>, remaining: nat, first: nat, x: HashIssue)
    requires InData(data, ranges) && (ranges == [] || remaining == 0)
    ensures !SomeFault(z, chunkSize, data, ranges, remaining, first, x)
  {
  }

  /** The loop over one segment reports the faulty ones among the ranges that are still due. */
  lemma {:induction false} RangesReported(z: Inflate, chunkSize: nat, data: Segment, ranges: seq<Range>, st: HashState,
                                          first: nat, x: HashIssue)
    requires InData(data, ranges)
    ensures x in RangesIssues(z, chunkSize, data, ranges, st, first) <==>
            SomeFault(z, chunkSize, data, ranges, st.remaining, first, x)
    ensures HashRanges(z, chunkSize, data, ranges, st).remaining == SatSub(st.remaining, |ranges| * chunkSize)
    decreases |ranges|
  {
    hide Faulty, FaultAt, SomeFault, ChunkIssues, Contribution;
    if ranges == [] || st.remaining == 0 {
      NoFault(z, chunkSize, data, ranges, st.remaining, first, x);
    } else {
      var r, rest := ranges[0], ranges[1..];
      var raw, due := data[r.start..r.end], Min(st.remaining, chunkSize);
      var next := HashChunk(z, chunkSize, raw, r.compressed, st);
      ChunkIssuesAre(z, chunkSize, raw, r.compressed, due, first, x);
      FirstFault(z, chunkSize, data, ranges, st.remaining, first, x);
      SomeNext(z, chunkSize, data, ranges, st.remaining, first, x);
      RangesReported(z, chunkSize, data, rest, next, first + 1, x);
      assert |ranges| * chunkSize == |rest| * chunkSize + chunkSize;
    }
  }

  // ----- The whole image -----

  /** The ranges of every segment are inside it. */
  predicate AllInData(segments: seq<Segment>, all: seq<seq<Range>>) {
    |all| == |segments| && forall k :: 0 <= k < |all| ==> InData(segments[k], all[k])
  }

  function Lengths(all: seq<seq<Range>>): (c: seq<nat>)
    ensures |c| == |all|
    ensures forall k :: 0 <= k < |c| ==> c[k] == |all[k]|
  {
    seq(|all|, k requires 0 <= k < |all| => |all[k]|)
  }

  /** The number of the first chunk of segment `k`, counted through the segments. */
  function FirstNumber(all: seq<seq<Range>>, k: nat): nat
    requires k <= |all|
  {
    EntriesBefore(Lengths(all), k)
  }

  /** Chunk `l` of segment `k` is within the media, and faulty. */
  predicate FaultyChunk(z: Inflate, chunkSize: nat, segments: seq<Segment>, all: seq<seq<Range>>, total: nat, k: nat,
                        l: nat, x: HashIssue)
    requires AllInData(segments, all) && k < |segments|
  {
    var n := FirstNumber(all, k) + l;
    && l < |all[k]| && n * chunkSize < total
    && Faulty(z, chunkSize, segments[k][all[k][l].start..all[k][l].end], all[k][l].compressed,
              Min(total - n * chunkSize, chunkSize), n, x)
  }

  ghost predicate FaultFrom(z: Inflate, chunkSize: nat, segments: seq<Segment>, all: seq<seq<Range>>, total: nat,
                            from: nat, x: HashIssue)
    requires AllInData(segments, all)
  {
    exists k: nat, l: nat :: from <= k < |segments| && FaultyChunk(z, chunkSize, segments, all, total, k, l, x)
  }

  lemma FaultHere(z: Inflate, chunkSize: nat, segments: seq<Segment>, all: seq<seq<Range>>, total: nat, k: nat, l: nat,
                  x: HashIssue)
    requires AllInData(segments, all) && k < |segments|
    ensures var first := FirstNumber(all, k);
            FaultyChunk(z, chunkSize, segments, all, total, k, l, x) <==>
            FaultAt(z, chunkSize, segments[k], all[k], SatSub(total, first * chunkSize), first, l, x)
  {
    hide Faulty, FirstNumber;
    var first := FirstNumber(all, k);
    assert (first + l) * chunkSize == first * chunkSize + l * chunkSize;
  }

  lemma FaultSplit(z: Inflate, chunkSize: nat, segments: seq<Segment>, all: seq<seq<Range>>, total: nat, k: nat,
                   x: HashIssue)
    requires AllInData(segments, all) && k < |segments|
    ensures var first := FirstNumber(all, k);
            FaultFrom(z, chunkSize, segments, all, total, k, x) <==>
            || SomeFault(z, chunkSize, segments[k], all[k], SatSub(total, first * chunkSize), first, x)
            || FaultFrom(z, chunkSize, segments, all, total, k + 1, x)
  {
    hide FaultyChunk, FaultAt, FirstNumber;
    var first := FirstNumber(all, k);
    var left := SatSub(total, first * chunkSize);
    forall l: nat
      ensures FaultyChunk(z, chunkSize, segments, all, total, k, l, x) <==>
              FaultAt(z, chunkSize, segments[k], all[k], left, first, l, x)
    {
      FaultHere(z, chunkSize, segments, all, total, k, l, x);
    }
  }

  lemma NextNumber(all: seq<seq<Range>>, k: nat, chunkSize: nat)
    requires k < |all|
    ensures var first, n := FirstNumber(all, k), |all[k]|;
            && FirstNumber(all, k + 1) == first + n
            && FirstNumber(all, k + 1) * chunkSize == first * chunkSize + n * chunkSize
  {
    var first, n := FirstNumber(all, k), |all[k]|;
    assert (first + n) * chunkSize == first * chunkSize + n * chunkSize;
  }

  /** Those are the ranges the analyser finds along these section lists. */
  predicate AreRanges(segments: seq<Segment>, lists: seq<seq<Section>>, all: seq<seq<Range>>) {
    && |all| == |segments| == |lists|
    && forall k :: 0 <= k < |all| ==> all[k] == SegmentRanges(segments[k], lists[k])
  }

  lemma RangesInData(segments: seq<Segment>, lists: seq<seq<Section>>, all: seq<seq<Range>>)
    requires AreRanges(segments, lists, all)
    ensures AllInData(segments, all)
  {
    hide SegmentRanges;
  }

  lemma IssuesSplit(z: Inflate, chunkSize: nat, segments: seq<Segment>, lists: seq<seq<Section>>, ranges: seq<Range>,
                    k: nat, st: HashState, first: nat)
    requires k < |segments| == |lists| && ranges == SegmentRanges(segments[k], lists[k])
    ensures InData(segments[k], ranges)
    ensures SegmentsIssues(z, chunkSize, segments, lists, k, st, first) ==
            RangesIssues(z, chunkSize, segments[k], ranges, st, first)
            + SegmentsIssues(z, chunkSize, segments, lists, k + 1,
                             HashRanges(z, chunkSize, segments[k], ranges, st), first + |ranges|)
  {
    hide SegmentRanges, RangesIssues, HashRanges;
  }

  lemma {:induction false} SegmentsReported(z: Inflate, chunkSize: nat, segments: seq<Segment>,
                                            lists: seq<seq<Section>>, all: seq<seq<Range>>, total: nat, k: nat,
                                            st: HashState, first: nat, x: HashIssue)
    requires AllInData(segments, all) && k <= |segments| == |lists|
    requires first == FirstNumber(all, k) && st.remaining == SatSub(total, first * chunkSize)
    requires AreRanges(segments, lists, all)
    ensures x in SegmentsIssues(z, chunkSize, segments, lists, k, st, first) <==>
            FaultFrom(z, chunkSize, segments, all, total, k, x)
    decreases |segments| - k
  {
    hide FaultyChunk, SomeFault, FirstNumber, HashRanges, RangesIssues, SegmentRanges;
    if k < |segments| {
      var ranges := all[k];
      NextNumber(all, k, chunkSize);
      IssuesSplit(z, chunkSize, segments, lists, ranges, k, st, first);
      RangesReported(z, chunkSize, segments[k], ranges, st, first, x);
      FaultSplit(z, chunkSize, segments, all, total, k, x);
      var next := HashRanges(z, chunkSize, segments[k], ranges, st);
      SegmentsReported(z, chunkSize, segments, lists, all, total, k + 1, next, first + |ranges|, x);
    }
  }

  /** Over a whole image the analyser reports exactly the faulty chunks within the media, each under its number
      counted through all segments. */
  lemma FaultsReportedIff(z: Inflate, segments: seq<Segment>, all: seq<seq<Range>>, v: Volume, x: HashIssue)
    requires AreRanges(segments, Lists(segments), all)
    ensures AllInData(segments, all)
    ensures x in SegmentsIssues(z, v.ChunkSize(), segments, Lists(segments), 0, HashState([], v.TotalSize()), 0) <==>
            FaultFrom(z, v.ChunkSize(), segments, all, v.TotalSize(), 0, x)
  {
    hide FaultFrom, SegmentsIssues, Lists, AreRanges, AllInData;
    RangesInData(segments, Lists(segments), all);
    assert FirstNumber(all, 0) == 0;
    var st := HashState([], v.TotalSize());
    SegmentsReported(z, v.ChunkSize(), segments, Lists(segments), all, v.TotalSize(), 0, st, 0, x);
  }
}
