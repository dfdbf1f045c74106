/** The analyser's chunk iteration and hash loops, and the independent hash computation. */
module Integrity {
  import opened Bytes
  import opened Sections
  import opened Walkers
  import opened VolumeCheck
  import opened Images
  import opened Recover

  // ----- Chunk ranges of one segment -----

  /** The longest run of entries from `i` on whose ranges recovery can resolve. */
  function RangesFrom(data: Segment, t: TableRef, sectorsEnd: Option<nat>, i: nat): (r: seq<Range>)
    ensures forall k :: 0 <= k < |r| ==> r[k].start < r[k].end <= |data|
    decreases SatSub(t.entryCount, i)
  {
    if i >= t.entryCount then []
    else
      var range := ChunkRange(data, t, i, sectorsEnd);
      if range.None? then [] else [range.value] + RangesFrom(data, t, sectorsEnd, i + 1)
  }

  /** The run is a prefix of the table, entry by entry recovery's own ranges, and stops only at the
      first entry recovery cannot resolve. */
  lemma {:induction false} RangesAreLongestPrefix(data: Segment, t: TableRef, sectorsEnd: Option<nat>, i: nat)
    ensures var r := RangesFrom(data, t, sectorsEnd, i);
            && (i <= t.entryCount ==> i + |r| <= t.entryCount)
            && (forall k :: 0 <= k < |r| ==> ChunkRange(data, t, i + k, sectorsEnd) == Some(r[k]))
            && (i + |r| < t.entryCount ==> ChunkRange(data, t, i + |r|, sectorsEnd).None?)
    decreases SatSub(t.entryCount, i)
  {
    hide ChunkRange;
    if i < t.entryCount && ChunkRange(data, t, i, sectorsEnd).Some? {
      var rest := RangesFrom(data, t, sectorsEnd, i + 1);
      var r := RangesFrom(data, t, sectorsEnd, i);
      RangesAreLongestPrefix(data, t, sectorsEnd, i + 1);
      forall k | 0 <= k < |r|
        ensures ChunkRange(data, t, i + k, sectorsEnd) == Some(r[k])
      {
        if k > 0 {
          assert r[k] == rest[k - 1] && i + k == i + 1 + (k - 1);
        }
      }
    }
  }

  /** What the analyser iterates over: nothing without a table, a whole table header and a sectors
      section; otherwise the run of resolvable ranges of the primary table. */
  function SegmentRanges(data: Segment, sections: seq<Section>): (r: seq<Range>)
    ensures forall k :: 0 <= k < |r| ==> r[k].start < r[k].end <= |data|
  {
    var t, end := TableRefOf(data, sections, "table"), SectorsDataEnd(sections, |data|);
    if t.None? || end.None? then [] else RangesFrom(data, t.value, end, 0)
  }

  /** The analyser's own entry decoding, relative to the table base. */
  function RelativeEntry(data: Segment, entriesStart: nat, i: nat): Option<TableEntry> {
    var off := SatAdd(entriesStart, SatMul(i, 4));
    var bytes := GetRange(data, off, SatAdd(off, 4));
    if bytes.None? then None else ParseEntry(bytes.value)
  }

  /** One entry's range, as the analyser works it out. */
  method RangeOfEntry(data: Segment, t: TableRef, i: nat, sectorsBodyEnd: nat) returns (r: Option<Range>)
    requires i < t.entryCount
    ensures r == ChunkRange(data, t, i, Some(Min(sectorsBodyEnd, |data|)))
  {
    var e := RelativeEntry(data, t.entriesOffset, i);
    if e.None? {
      return None;
    }
    var start := SatAdd(t.baseOffset, e.value.chunkOffset);
    var end := Min(sectorsBodyEnd, |data|);
    if i + 1 < t.entryCount {
      var next := RelativeEntry(data, t.entriesOffset, i + 1);
      if next.None? {
        return None;
      }
      end := SatAdd(t.baseOffset, next.value.chunkOffset);
    }
    if start >= end || end > |data| {
      return None;
    }
    r := Some(Range(start, end, e.value.compressed));
  }

  method IterSegmentChunks(data: Segment, sections: seq<Section>) returns (chunks: seq<Range>)
    ensures chunks == SegmentRanges(data, sections)
  {
    chunks := [];
    var table := Find(sections, {"table"});
    var sectors := Find(sections, {"sectors"});
    if table.None? || sectors.None? {
      return;
    }
    var start := SatAdd(table.value.offset, DESCRIPTOR_SIZE);
    if |data| < SatAdd(start, TABLE_HEADER_SIZE) {
      return;
    }
    var header := ParseTableHeader(data[start..]).value;
    var t := TableRef(header.entryCount, header.baseOffset, SatAdd(start, TABLE_HEADER_SIZE));
    HeaderPrefix(data, start);
    var bodyEnd := SatAdd(sectors.value.offset, sectors.value.size);
    ghost var end := Some(Min(bodyEnd, |data|));
    hide ChunkRange, TableRefOf, SatAdd;
    for i := 0 to t.entryCount
      invariant chunks + RangesFrom(data, t, end, i) == RangesFrom(data, t, end, 0)
    {
      var r := RangeOfEntry(data, t, i, bodyEnd);
      if r.None? {
        assert chunks + [] == chunks;
        return;
      }
      ConcatAssoc(chunks, [r.value], RangesFrom(data, t, end, i + 1));
      chunks := chunks + [r.value];
    }
    assert chunks + [] == chunks;
  }

  lemma HeaderPrefix(data: Segment, start: nat)
    requires start + TABLE_HEADER_SIZE <= |data|
    ensures ParseTableHeader(data[start..]) == ParseTableHeader(data[start..start + TABLE_HEADER_SIZE])
  {
  }

  // ----- The hashed stream -----

  /** The bytes fed to the digests so far, and the media bytes still expected. */
  datatype HashState = HashState(fed: Data, remaining: nat)

  /** One chunk's contribution; a stream that does not inflate contributes nothing but still uses up
      its share of the media. */
  function HashChunk(z: Inflate, chunkSize: nat, raw: Data, compressed: bool, st: HashState): HashState {
    var toHash := Min(st.remaining, chunkSize);
    HashState(st.fed + Contribution(z, raw, compressed, toHash), SatSub(st.remaining, toHash))
  }

  function Contribution(z: Inflate, raw: Data, compressed: bool, toHash: nat): Data {
    if compressed then
      var out := ReadInflated(z, raw, toHash + 1);
      if out.None? then [] else out.value[..Min(|out.value|, toHash)]
    else raw[..Min(|raw|, toHash)]
  }

  predicate InData(data: Segment, ranges: seq<Range>) {
    forall k :: 0 <= k < |ranges| ==> ranges[k].start <= ranges[k].end <= |data|
  }

  function HashRanges(z: Inflate, chunkSize: nat, data: Segment, ranges: seq<Range>, st: HashState): HashState
    requires InData(data, ranges)
    decreases |ranges|
  {
    if ranges == [] || st.remaining == 0 then st
    else
      var r := ranges[0];
      HashRanges(z, chunkSize, data, ranges[1..], HashChunk(z, chunkSize, data[r.start..r.end], r.compressed, st))
  }

  /** The stream over the segments from `k` on, each with its own section list. */
  function HashSegments(z: Inflate, chunkSize: nat, segments: seq<Segment>, lists: seq<seq<Section>>, k: nat,
                        st: HashState): HashState
    requires k <= |segments| == |lists|
    decreases |segments| - k
  {
    if k == |segments| || st.remaining == 0 then st
    else
      HashSegments(z, chunkSize, segments, lists, k + 1,
                   HashRanges(z, chunkSize, segments[k], SegmentRanges(segments[k], lists[k]), st))
  }

  function Lists(segments: seq<Segment>): (r: seq<seq<Section>>)
    ensures |r| == |segments|
    ensures forall k :: 0 <= k < |r| ==> r[k] == Walk(segments[k], FILE_HEADER_SIZE)
  {
    seq(|segments|, k requires 0 <= k < |segments| => Walk(segments[k], FILE_HEADER_SIZE))
  }

  /** Everything the digests of an image with this geometry are computed over. */
  function MediaStream(z: Inflate, segments: seq<Segment>, v: Volume): Data {
    HashSegments(z, v.ChunkSize(), segments, Lists(segments), 0, HashState([], v.TotalSize())).fed
  }

  // ----- The independent hash computation -----

  datatype Digests = Digests(md5: Data -> Data, sha1: Data -> Data, sha256: Data -> Data)

  datatype Hashes = Hashes(md5: Data, sha1: Data, sha256: Data)

  function HashesOf(d: Digests, stream: Data): Hashes {
    Hashes(d.md5(stream), d.sha1(stream), d.sha256(stream))
  }

  predicate KnownSignature(data: Segment) {
    |data| >= FILE_HEADER_SIZE &&
    (KindOf(data).Some? || data[..8] == [0x64, 0x76, 0x66, 0x09, 0x0d, 0x0a, 0xff, 0x00])
  }

  /** The geometry of the first segment's volume section. */
  function GeometryOf(data: Segment): Option<Volume> {
    var vol := Find(Walk(data, FILE_HEADER_SIZE), {"volume", "disk"});
    if vol.None? then None else VolumeAt(data, vol.value.offset, vol.value.size)
  }

  function ComputableGeometry(segments: seq<Segment>): Option<Volume> {
    if segments == [] || !KnownSignature(segments[0]) then None else GeometryOf(segments[0])
  }

  method FeedRanges(z: Inflate, chunkSize: nat, data: Segment, ranges: seq<Range>, start: HashState)
    returns (st: HashState)
    requires InData(data, ranges)
    ensures st == HashRanges(z, chunkSize, data, ranges, start)
  {
    hide HashChunk;
    st := start;
    for i := 0 to |ranges|
      invariant HashRanges(z, chunkSize, data, ranges[i..], st) == HashRanges(z, chunkSize, data, ranges, start)
    {
      assert ranges[i..][0] == ranges[i] && ranges[i..][1..] == ranges[i + 1..];
      if st.remaining == 0 {
        return;
      }
      st := ComputeChunk(z, chunkSize, data[ranges[i].start..ranges[i].end], ranges[i].compressed, st);
    }
    assert ranges[|ranges|..] == [];
  }

  /** The loop body of the hash computation. */
  method ComputeChunk(z: Inflate, chunkSize: nat, raw: Data, compressed: bool, start: HashState) returns (st: HashState)
    ensures st == HashChunk(z, chunkSize, raw, compressed, start)
  {
    var toHash := Min(start.remaining, chunkSize);
    var fed := start.fed;
    if compressed {
      var out := ReadInflated(z, raw, toHash + 1);
      if out.None? {
        assert fed + [] == fed;
        return HashState(fed, SatSub(start.remaining, toHash));
      }
      fed := fed + out.value[..Min(|out.value|, toHash)];
    } else {
      fed := fed + raw[..Min(|raw|, toHash)];
    }
    st := HashState(fed, SatSub(start.remaining, toHash));
  }

  method ComputeHashes(z: Inflate, segments: seq<Segment>, digests: Digests) returns (r: Option<Hashes>)
    ensures r.Some? <==> ComputableGeometry(segments).Some?
    ensures r.Some? ==>
      var stream := MediaStream(z, segments, ComputableGeometry(segments).value);
      r.value.md5 == digests.md5(stream) && r.value.sha1 == digests.sha1(stream)
      && r.value.sha256 == digests.sha256(stream)
  {
    hide Find, VolumeAt, KnownSignature, HashRanges, SegmentRanges, PowerOfTwo, SectorsFit, Walk;
    if segments == [] || !KnownSignature(segments[0]) {
      return None;
    }
    var first, _ := AnalyserWalk(segments[0]);
    var vol := Find(first, {"volume", "disk"});
    if vol.None? {
      return None;
    }
    var geometry, _ := CheckVolume(segments[0], vol.value.offset, vol.value.size);
    if geometry.None? {
      return None;
    }
    var cs := geometry.value.ChunkSize();
    var lists := WalkAll(segments);
    var st := HashState([], geometry.value.TotalSize());
    ghost var all := HashSegments(z, cs, segments, lists, 0, st);
    for k := 0 to |segments|
      invariant HashSegments(z, cs, segments, lists, k, st) == all
    {
      NextSegment(z, cs, segments, lists, k, st);
      var ranges := IterSegmentChunks(segments[k], lists[k]);
      st := FeedRanges(z, cs, segments[k], ranges, st);
    }
    r := Some(HashesOf(digests, st.fed));
  }

  /** Feeding segment `k` brings the stream to the next one; once nothing remains it adds nothing. */
  lemma NextSegment(z: Inflate, chunkSize: nat, segments: seq<Segment>, lists: seq<seq<Section>>, k: nat, st: HashState)
    requires k < |segments| == |lists|
    ensures HashSegments(z, chunkSize, segments, lists, k, st) ==
            HashSegments(z, chunkSize, segments, lists, k + 1,
                         HashRanges(z, chunkSize, segments[k], SegmentRanges(segments[k], lists[k]), st))
  {
    hide HashChunk, SegmentRanges;
  }

  method WalkAll(segments: seq<Segment>) returns (lists: seq<seq<Section>>)
    ensures lists == Lists(segments)
  {
    lists := [];
    for k := 0 to |segments|
      invariant |lists| == k && forall j :: 0 <= j < k ==> lists[j] == Walk(segments[j], FILE_HEADER_SIZE)
    {
      var sections, _ := AnalyserWalk(segments[k]);
      lists := lists + [sections];
    }
  }
}
