/** The analyser's pass over the media: per-chunk checks and digest comparisons. */
module Analyser {
  import opened Bytes
  import opened Adler
  import opened Sections
  import opened Walkers
  import opened VolumeCheck
  import opened Images
  import opened Recover
  import opened Integrity

  datatype HashIssue =
    | ChunkChecksumMismatch(chunkIndex: nat, computed: U32, stored: U32)
    | ChunkDecompressionError(chunkIndex: nat)
    | HashMismatch(computedHash: Data, storedHash: Data)
    | HashSectionMissing
    | DigestSha1Mismatch(computedHash: Data, storedHash: Data)
    | ExternalMd5Mismatch(computedHash: Data, expected: Data)
    | ExternalSha1Mismatch(computedHash: Data, expected: Data)
    | ExternalSha256Mismatch(computedHash: Data, expected: Data)

  // ----- Per-chunk checks -----

  /** What one chunk is reported for: a trailing checksum that disagrees, or a stream that breaks. */
  function ChunkIssues(z: Inflate, chunkSize: nat, raw: Data, compressed: bool, toHash: nat, idx: nat): seq<HashIssue> {
    if compressed then
      if ReadInflated(z, raw, toHash + 1).None? then [ChunkDecompressionError(idx)] else []
    else if |raw| > chunkSize && |raw| >= chunkSize + 4 && Adler32(raw[..chunkSize]) != Le32(raw, chunkSize) then
      [ChunkChecksumMismatch(idx, Adler32(raw[..chunkSize]), Le32(raw, chunkSize))]
    else []
  }

  /** The analyser reports an uncompressed chunk exactly when recovery flags it, and a full-size
      compressed chunk whenever recovery has to give it up, save for a stream that is merely empty. */
  lemma ChunkReportedIffFlagged(z: Inflate, chunkSize: nat, raw: Data, compressed: bool, idx: nat)
    ensures !compressed ==>
      && DecodeChunk(z, raw, compressed, chunkSize).Some?
      && (ChunkIssues(z, chunkSize, raw, compressed, chunkSize, idx) != [] <==>
          !DecodeChunk(z, raw, compressed, chunkSize).value.crcOk)
    ensures compressed ==>
      (ChunkIssues(z, chunkSize, raw, compressed, chunkSize, idx) != [] <==>
       DecodeChunk(z, raw, compressed, chunkSize).None? && !(z(raw).clean && z(raw).out == []))
  {
  }

  function RangesIssues(z: Inflate, chunkSize: nat, data: Segment, ranges: seq<Range>, st: HashState,
                        idx: nat): seq<HashIssue>
    requires InData(data, ranges)
    decreases |ranges|
  {
    if ranges == [] || st.remaining == 0 then []
    else
      var r := ranges[0];
      var raw := data[r.start..r.end];
      ChunkIssues(z, chunkSize, raw, r.compressed, Min(st.remaining, chunkSize), idx)
      + RangesIssues(z, chunkSize, data, ranges[1..], HashChunk(z, chunkSize, raw, r.compressed, st), idx + 1)
  }

  /** The analyser's loop body: the chunk's checks, then the same feeding as the hash computation. */
  method AnalyseChunk(z: Inflate, chunkSize: nat, raw: Data, compressed: bool, start: HashState, idx: nat)
    returns (st: HashState, issues: seq<HashIssue>)
    ensures st == HashChunk(z, chunkSize, raw, compressed, start)
    ensures issues == ChunkIssues(z, chunkSize, raw, compressed, Min(start.remaining, chunkSize), idx)
  {
    issues := [];
    var toHash := Min(start.remaining, chunkSize);
    var remaining := SatSub(start.remaining, toHash);
    if !compressed && |raw| > chunkSize && |raw| >= chunkSize + 4 {
      var stored, computed := Le32(raw, chunkSize), Adler32(raw[..chunkSize]);
      if computed != stored {
        issues := [ChunkChecksumMismatch(idx, computed, stored)];
      }
    }
    if compressed {
      var out := ReadInflated(z, raw, toHash + 1);
      if out.None? {
        assert start.fed + [] == start.fed;
        return HashState(start.fed, remaining), [ChunkDecompressionError(idx)];
      }
      st := HashState(start.fed + out.value[..Min(|out.value|, toHash)], remaining);
    } else {
      st := HashState(start.fed + raw[..Min(|raw|, toHash)], remaining);
    }
  }

  method AnalyseRanges(z: Inflate, chunkSize: nat, data: Segment, ranges: seq<Range>, start: HashState, first: nat)
    returns (st: HashState, issues: seq<HashIssue>, idx: nat)
    requires InData(data, ranges)
    ensures st == HashRanges(z, chunkSize, data, ranges, start)
    ensures issues == RangesIssues(z, chunkSize, data, ranges, start, first)
    ensures idx == first + |ranges| || st.remaining == 0
  {
    hide HashChunk, ChunkIssues;
    st, issues, idx := start, [], first;
    for i := 0 to |ranges|
      invariant HashRanges(z, chunkSize, data, ranges[i..], st) == HashRanges(z, chunkSize, data, ranges, start)
      invariant issues + RangesIssues(z, chunkSize, data, ranges[i..], st, idx) ==
                RangesIssues(z, chunkSize, data, ranges, start, first)
      invariant idx == first + i
    {
      var rest := ranges[i..];
      assert rest[0] == ranges[i] && rest[1..] == ranges[i + 1..];
      if st.remaining == 0 {
        assert issues + [] == issues;
        return;
      }
      var raw := data[ranges[i].start..ranges[i].end];
      var next, found := AnalyseChunk(z, chunkSize, raw, ranges[i].compressed, st, idx);
      ConcatAssoc(issues, found, RangesIssues(z, chunkSize, data, rest[1..], next, idx + 1));
      st, issues, idx := next, issues + found, idx + 1;
    }
    assert ranges[|ranges|..] == [];
    assert issues + [] == issues;
  }

  // ----- Digest comparisons -----

  datatype Expected = Expected(md5: Option<Data>, sha1: Option<Data>, sha256: Option<Data>)

  /** What comparing with the caller's reference digests reports. */
  function ExternalIssues(e: Expected, h: Hashes): seq<HashIssue> {
    (if e.md5.Some? && h.md5 != e.md5.value then [ExternalMd5Mismatch(h.md5, e.md5.value)] else [])
    + (if e.sha1.Some? && h.sha1 != e.sha1.value then [ExternalSha1Mismatch(h.sha1, e.sha1.value)] else [])
    + (if e.sha256.Some? && h.sha256 != e.sha256.value then [ExternalSha256Mismatch(h.sha256, e.sha256.value)] else [])
  }

  /** What comparing with the digests stored in the last segment reports. */
  function StoredIssues(data: Segment, sections: seq<Section>, h: Hashes): seq<HashIssue> {
    StoredMd5Issues(data, Find(sections, {"hash"}), h) + StoredSha1Issues(data, Find(sections, {"digest"}), h)
  }

  function StoredMd5Issues(data: Segment, hash: Option<Section>, h: Hashes): seq<HashIssue> {
    if hash.None? then [HashSectionMissing]
    else
      var start := SatAdd(hash.value.offset, DESCRIPTOR_SIZE);
      var stored := GetRange(data, start, SatAdd(start, 16));
      if stored.Some? && h.md5 != stored.value then [HashMismatch(h.md5, stored.value)] else []
  }

  /** An all-zero stored SHA-1 means none was stored. */
  function StoredSha1Issues(data: Segment, digest: Option<Section>, h: Hashes): seq<HashIssue> {
    if digest.None? then []
    else
      var start := SatAdd(digest.value.offset, DESCRIPTOR_SIZE);
      var stored := GetRange(data, SatAdd(start, 16), SatAdd(start, 36));
      if stored.Some? && stored.value != Zeros(20) && h.sha1 != stored.value then
        [DigestSha1Mismatch(h.sha1, stored.value)]
      else []
  }

  /** The first section of that type on the walk. */
  ghost predicate IsFirst(w: seq<Section>, i: nat, name: string) {
    i < |w| && w[i].typeName == name && forall j :: 0 <= j < i ==> w[j].typeName != name
  }

  lemma {:induction false} FindsFirst(w: seq<Section>, name: string, i: nat)
    requires IsFirst(w, i, name)
    ensures Find(w, {name}) == Some(w[i])
  {
    if i > 0 {
      assert w[0].typeName != name;
      FindsFirst(w[1..], name, i - 1);
    }
  }

  lemma {:induction false} FirstOf(w: seq<Section>, name: string) returns (i: nat)
    requires exists k :: 0 <= k < |w| && w[k].typeName == name
    ensures IsFirst(w, i, name)
  {
    i := 0;
    while w[i].typeName != name
      invariant i < |w| && forall j :: 0 <= j < i ==> w[j].typeName != name
      invariant exists k :: i <= k < |w| && w[k].typeName == name
      decreases |w| - i
    {
      i := i + 1;
    }
  }

  /** Bytes `lo` to `hi` of the body of the first such section on the segment's walk are `stored`. */
  ghost predicate Stores(data: Segment, name: string, lo: nat, hi: nat, stored: Data)
    requires lo <= hi
  {
    var w := Walk(data, FILE_HEADER_SIZE);
    exists i: nat :: IsFirst(w, i, name) && StoredAt(data, w[i], lo, hi, stored)
  }

  predicate StoredAt(data: Segment, s: Section, lo: nat, hi: nat, stored: Data)
    requires lo <= hi
  {
    var body := s.offset + DESCRIPTOR_SIZE;
    body + hi <= |data| && data[body + lo..body + hi] == stored
  }

  ghost predicate NoSection(data: Segment, name: string) {
    var w := Walk(data, FILE_HEADER_SIZE);
    forall i :: 0 <= i < |w| ==> w[i].typeName != name
  }

  /** What is said about stored digests, told from the bytes of the last segment: a missing `hash` section; an MD5
      that is there, behind the first `hash` descriptor, and is not the computed one; a SHA-1 that is there, 16
      bytes behind the first `digest` descriptor, is not all zero and is not the computed one. */
  ghost predicate ReportsStored(data: Segment, md5: Data, sha1: Data, issues: seq<HashIssue>) {
    && (HashSectionMissing in issues <==> NoSection(data, "hash"))
    && (forall c, s :: HashMismatch(c, s) in issues <==> c == md5 != s && Stores(data, "hash", 0, 16, s))
    && (forall c, s :: DigestSha1Mismatch(c, s) in issues <==>
         c == sha1 != s && Stores(data, "digest", 16, 36, s) && exists j :: 0 <= j < |s| && s[j] != 0)
  }

  /** What is said about the caller's digests: each that is given and is not the computed one. */
  ghost predicate ReportsExternal(e: Expected, md5: Data, sha1: Data, sha256: Data, issues: seq<HashIssue>) {
    && (forall c, x :: ExternalMd5Mismatch(c, x) in issues <==> c == md5 != x && e.md5 == Some(x))
    && (forall c, x :: ExternalSha1Mismatch(c, x) in issues <==> c == sha1 != x && e.sha1 == Some(x))
    && (forall c, x :: ExternalSha256Mismatch(c, x) in issues <==> c == sha256 != x && e.sha256 == Some(x))
  }

  lemma StoresIff(data: Segment, name: string, lo: nat, hi: nat, stored: Data)
    requires lo <= hi
    ensures var s := Find(Walk(data, FILE_HEADER_SIZE), {name});
            && (s.None? <==> NoSection(data, name))
            && (s.Some? ==> s.value.offset + DESCRIPTOR_SIZE <= |data|)
            && (Stores(data, name, lo, hi, stored) <==> s.Some? && StoredAt(data, s.value, lo, hi, stored))
  {
    hide Walk, StoredAt, Find, IsFirst;
    var w := Walk(data, FILE_HEADER_SIZE);
    WalkAscending(data, FILE_HEADER_SIZE);
    FoundOrNone(w, name);
  }

  lemma FoundOrNone(w: seq<Section>, name: string)
    ensures Find(w, {name}).None? <==> forall i :: 0 <= i < |w| ==> w[i].typeName != name
    ensures Find(w, {name}).Some? ==> Find(w, {name}).value in w && exists i: nat :: IsFirst(w, i, name)
    ensures forall i: nat :: IsFirst(w, i, name) ==> i < |w| && Find(w, {name}) == Some(w[i])
  {
    hide IsFirst;
    if Find(w, {name}).Some? {
      var i := FirstOf(w, name);
    }
    forall i: nat | IsFirst(w, i, name)
      ensures i < |w| && Find(w, {name}) == Some(w[i])
    {
      FirstInside(w, i, name);
      FindsFirst(w, name, i);
    }
  }

  lemma FirstInside(w: seq<Section>, i: nat, name: string)
    requires IsFirst(w, i, name)
    ensures i < |w|
  {
  }

  lemma Md5ReportedIff(data: Segment, h: Hashes, c: Data, s: Data)
    ensures var issues := StoredMd5Issues(data, Find(Walk(data, FILE_HEADER_SIZE), {"hash"}), h);
            && (HashSectionMissing in issues <==> NoSection(data, "hash"))
            && (HashMismatch(c, s) in issues <==> c == h.md5 != s && Stores(data, "hash", 0, 16, s))
            && DigestSha1Mismatch(c, s) !in issues
  {
    hide Walk, Find, Stores, NoSection;
    StoresIff(data, "hash", 0, 16, s);
  }

  lemma Sha1ReportedIff(data: Segment, h: Hashes, c: Data, s: Data)
    ensures var issues := StoredSha1Issues(data, Find(Walk(data, FILE_HEADER_SIZE), {"digest"}), h);
            && (DigestSha1Mismatch(c, s) in issues <==>
                c == h.sha1 != s && Stores(data, "digest", 16, 36, s) && exists j :: 0 <= j < |s| && s[j] != 0)
            && HashSectionMissing !in issues && HashMismatch(c, s) !in issues
  {
    hide Walk, Find, Stores, NoSection;
    StoresIff(data, "digest", 16, 36, s);
    if |s| == 20 {
      NotAllZero(s);
    }
  }

  lemma NotAllZero(s: Data)
    ensures s != Zeros(|s|) <==> exists j :: 0 <= j < |s| && s[j] != 0
  {
    if forall j :: 0 <= j < |s| ==> s[j] == 0 {
      assert s == Zeros(|s|);
    }
  }

  /** The comparisons report exactly that. */
  lemma DigestsReportedIff(data: Segment, e: Expected, h: Hashes)
    ensures var issues := StoredIssues(data, Walk(data, FILE_HEADER_SIZE), h) + ExternalIssues(e, h);
            ReportsStored(data, h.md5, h.sha1, issues) && ReportsExternal(e, h.md5, h.sha1, h.sha256, issues)
  {
    hide Walk, Find, Stores, NoSection, StoredMd5Issues, StoredSha1Issues, ExternalIssues;
    var w := Walk(data, FILE_HEADER_SIZE);
    var stored, external := StoredIssues(data, w, h), ExternalIssues(e, h);
    ExternalIff(e, h);
    StoredNotExternal(data, w, h);
    Md5ReportedIff(data, h, [], []);
    Sha1ReportedIff(data, h, [], []);
    var issues := stored + external;
    forall c: Data, s: Data
      ensures HashMismatch(c, s) in issues <==> c == h.md5 != s && Stores(data, "hash", 0, 16, s)
      ensures DigestSha1Mismatch(c, s) in issues <==>
              c == h.sha1 != s && Stores(data, "digest", 16, 36, s) && exists j :: 0 <= j < |s| && s[j] != 0
    {
      Md5ReportedIff(data, h, c, s);
      Sha1ReportedIff(data, h, c, s);
    }
    forall c: Data, x: Data
      ensures ExternalMd5Mismatch(c, x) in issues <==> c == h.md5 != x && e.md5 == Some(x)
      ensures ExternalSha1Mismatch(c, x) in issues <==> c == h.sha1 != x && e.sha1 == Some(x)
      ensures ExternalSha256Mismatch(c, x) in issues <==> c == h.sha256 != x && e.sha256 == Some(x)
    {
      ExternalReportedIff(e, h, c, x);
    }
  }

  lemma ExternalReportedIff(e: Expected, h: Hashes, c: Data, x: Data)
    ensures ExternalMd5Mismatch(c, x) in ExternalIssues(e, h) <==> c == h.md5 != x && e.md5 == Some(x)
    ensures ExternalSha1Mismatch(c, x) in ExternalIssues(e, h) <==> c == h.sha1 != x && e.sha1 == Some(x)
    ensures ExternalSha256Mismatch(c, x) in ExternalIssues(e, h) <==> c == h.sha256 != x && e.sha256 == Some(x)
  {
  }

  /** The chunk reports over the segments from `k` on; chunks are numbered across segments. */
  function SegmentsIssues(z: Inflate, chunkSize: nat, segments: seq<Segment>, lists: seq<seq<Section>>, k: nat,
                          st: HashState, idx: nat): seq<HashIssue>
    requires k <= |segments| == |lists|
    decreases |segments| - k
  {
    if k == |segments| then []
    else
      var ranges := SegmentRanges(segments[k], lists[k]);
      RangesIssues(z, chunkSize, segments[k], ranges, st, idx)
      + SegmentsIssues(z, chunkSize, segments, lists, k + 1,
                       HashRanges(z, chunkSize, segments[k], ranges, st), idx + |ranges|)
  }

  /** Once the media is used up nothing more is reported. */
  lemma {:induction false} NothingRemains(z: Inflate, chunkSize: nat, segments: seq<Segment>,
                                          lists: seq<seq<Section>>, k: nat,
                                          st: HashState, idx: nat)
    requires k <= |segments| == |lists| && st.remaining == 0
    ensures SegmentsIssues(z, chunkSize, segments, lists, k, st, idx) == []
    decreases |segments| - k
  {
    hide SegmentRanges, HashChunk, ChunkIssues;
    if k < |segments| {
      NothingRemains(z, chunkSize, segments, lists, k + 1, st, idx + |SegmentRanges(segments[k], lists[k])|);
    }
  }

  /** The chunk loop over all segments. */
  method CheckChunks(z: Inflate, segments: seq<Segment>, lists: seq<seq<Section>>, chunkSize: nat, start: HashState)
    returns (st: HashState, issues: seq<HashIssue>)
    requires |lists| == |segments|
    ensures st == HashSegments(z, chunkSize, segments, lists, 0, start)
    ensures issues == SegmentsIssues(z, chunkSize, segments, lists, 0, start, 0)
  {
    hide SegmentRanges, HashRanges, RangesIssues;
    st, issues := start, [];
    var idx: nat := 0;
    for k := 0 to |segments|
      invariant HashSegments(z, chunkSize, segments, lists, k, st) ==
                HashSegments(z, chunkSize, segments, lists, 0, start)
      invariant issues + SegmentsIssues(z, chunkSize, segments, lists, k, st, idx) ==
                SegmentsIssues(z, chunkSize, segments, lists, 0, start, 0)
    {
      if st.remaining == 0 {
        NothingRemains(z, chunkSize, segments, lists, k, st, idx);
        assert issues + [] == issues;
        return;
      }
      var ranges := IterSegmentChunks(segments[k], lists[k]);
      var next, found, past := AnalyseRanges(z, chunkSize, segments[k], ranges, st, idx);
      if next.remaining == 0 {
        NothingRemains(z, chunkSize, segments, lists, k + 1, next, past);
        NothingRemains(z, chunkSize, segments, lists, k + 1, next, idx + |ranges|);
      }
      ConcatAssoc(issues, found, SegmentsIssues(z, chunkSize, segments, lists, k + 1, next, idx + |ranges|));
      st, issues, idx := next, issues + found, past;
    }
    assert issues + [] == issues;
  }

  method CheckHashes(z: Inflate, segments: seq<Segment>, lists: seq<seq<Section>>, v: Volume, digests: Digests,
                     expected: Expected) returns (chunkIssues: seq<HashIssue>, digestIssues: seq<HashIssue>)
    requires segments != [] && lists == Lists(segments)
    ensures var h := HashesOf(digests, MediaStream(z, segments, v));
            digestIssues == StoredIssues(segments[|segments| - 1], lists[|lists| - 1], h) + ExternalIssues(expected, h)
    ensures var stream := MediaStream(z, segments, v);
            && ReportsStored(segments[|segments| - 1], digests.md5(stream), digests.sha1(stream), digestIssues)
            && ReportsExternal(expected, digests.md5(stream), digests.sha1(stream), digests.sha256(stream),
                               digestIssues)
    ensures chunkIssues == SegmentsIssues(z, v.ChunkSize(), segments, lists, 0, HashState([], v.TotalSize()), 0)
  {
    hide HashSegments, SegmentsIssues, StoredIssues, ExternalIssues, ReportsStored, ReportsExternal, Walk;
    var st, found := CheckChunks(z, segments, lists, v.ChunkSize(), HashState([], v.TotalSize()));
    var h := HashesOf(digests, st.fed);
    chunkIssues := found;
    digestIssues := StoredIssues(segments[|segments| - 1], lists[|lists| - 1], h) + ExternalIssues(expected, h);
    DigestsReportedIff(segments[|segments| - 1], expected, h);
  }

  // ----- The analyser's route to the hash loop -----

  function AnalyserGeometry(segments: seq<Segment>): Option<Volume> {
    if segments == [] || |segments[0]| < FILE_HEADER_SIZE then None else GeometryOf(segments[0])
  }

  lemma NothingToWalk(data: Segment)
    requires |data| < FILE_HEADER_SIZE
    ensures Walk(data, FILE_HEADER_SIZE) == []
  {
  }

  /** Walk every segment, take the geometry from the first, and check the digests. */
  method AnalyseDigests(z: Inflate, segments: seq<Segment>, digests: Digests, expected: Expected)
    returns (chunkIssues: seq<HashIssue>, digestIssues: seq<HashIssue>)
    ensures AnalyserGeometry(segments).None? ==> chunkIssues == [] && digestIssues == []
    ensures AnalyserGeometry(segments).Some? ==>
      var h := HashesOf(digests, MediaStream(z, segments, AnalyserGeometry(segments).value));
      digestIssues == StoredIssues(segments[|segments| - 1], Lists(segments)[|segments| - 1], h)
        + ExternalIssues(expected, h)
    ensures AnalyserGeometry(segments).Some? ==>
      var stream := MediaStream(z, segments, AnalyserGeometry(segments).value);
      && ReportsStored(segments[|segments| - 1], digests.md5(stream), digests.sha1(stream), digestIssues)
      && ReportsExternal(expected, digests.md5(stream), digests.sha1(stream), digests.sha256(stream), digestIssues)
    ensures AnalyserGeometry(segments).Some? ==>
      var v := AnalyserGeometry(segments).value;
      chunkIssues == SegmentsIssues(z, v.ChunkSize(), segments, Lists(segments), 0, HashState([], v.TotalSize()), 0)
  {
    hide HashSegments, SegmentsIssues, StoredIssues, ExternalIssues, VolumeAt, Walk, MediaStream, SectorsFit,
         PowerOfTwo, ReportsStored, ReportsExternal, HashesOf;
    var lists: seq<seq<Section>> := [];
    var geometry: Option<Volume> := None;
    for k := 0 to |segments|
      invariant |lists| == k && forall j :: 0 <= j < k ==> lists[j] == Walk(segments[j], FILE_HEADER_SIZE)
      invariant geometry == if k == 0 then None else AnalyserGeometry(segments)
    {
      if |segments[k]| < FILE_HEADER_SIZE {
        NothingToWalk(segments[k]);
        lists := lists + [[]];
        continue;
      }
      var sections, _ := AnalyserWalk(segments[k]);
      if k == 0 {
        var vol := Find(sections, {"volume", "disk"});
        if vol.Some? {
          var checked, _ := CheckVolume(segments[k], vol.value.offset, vol.value.size);
          geometry := checked;
        }
      }
      lists := lists + [sections];
    }
    assert lists == Lists(segments);
    if geometry.None? {
      return [], [];
    }
    chunkIssues, digestIssues := CheckHashes(z, segments, lists, geometry.value, digests, expected);
  }

  /** The last segment stores those digests: the MD5, and the SHA-1 unless none is stored or it is all zero. */
  ghost predicate StoresDigests(data: Segment, md5: Data, sha1: Data) {
    && Stores(data, "hash", 0, 16, md5)
    && forall s :: Stores(data, "digest", 16, 36, s) ==> s == sha1 || forall j :: 0 <= j < |s| ==> s[j] == 0
  }

  /** An image that stores what the hash computation returns, analysed with what the hash computation returns, is
      reported for no digest at all. */
  method AnalyseSealed(z: Inflate, segments: seq<Segment>, digests: Digests)
    returns (chunkIssues: seq<HashIssue>, digestIssues: seq<HashIssue>)
    requires ComputableGeometry(segments).Some?
    requires var stream := MediaStream(z, segments, ComputableGeometry(segments).value);
             StoresDigests(segments[|segments| - 1], digests.md5(stream), digests.sha1(stream))
    ensures digestIssues == []
  {
    hide MediaStream, HashesOf, ReportsStored, ReportsExternal, StoresDigests, SegmentsIssues, StoredIssues,
         ExternalIssues, GeometryOf;
    var computed := ComputeHashes(z, segments, digests);
    var own := computed.value;
    var expected := Expected(Some(own.md5), Some(own.sha1), Some(own.sha256));
    chunkIssues, digestIssues := AnalyseDigests(z, segments, digests, expected);
    ghost var stream := MediaStream(z, segments, ComputableGeometry(segments).value);
    OnlyDigestReports(segments[|segments| - 1], Walk(segments[|segments| - 1], FILE_HEADER_SIZE), expected,
                      HashesOf(digests, stream));
    NothingReported(segments[|segments| - 1], expected, digests.md5(stream), digests.sha1(stream),
                    digests.sha256(stream), digestIssues);
  }

  predicate IsStored(x: HashIssue) {
    x.HashSectionMissing? || x.HashMismatch? || x.DigestSha1Mismatch?
  }

  lemma OnlyDigestReports(data: Segment, w: seq<Section>, e: Expected, h: Hashes)
    ensures forall x :: x in StoredIssues(data, w, h) + ExternalIssues(e, h) ==> IsStored(x) || IsExternal(x)
  {
  }

  lemma NothingReported(data: Segment, e: Expected, md5: Data, sha1: Data, sha256: Data, issues: seq<HashIssue>)
    requires ReportsStored(data, md5, sha1, issues) && ReportsExternal(e, md5, sha1, sha256, issues)
    requires StoresDigests(data, md5, sha1) && e == Expected(Some(md5), Some(sha1), Some(sha256))
    requires forall x :: x in issues ==> IsStored(x) || IsExternal(x)
    ensures issues == []
  {
    hide Walk, StoredAt;
    if issues != [] {
      var x := issues[0];
      assert x in issues;
      StoresOnce(data, "hash", 0, 16, md5, if x.HashMismatch? then x.storedHash else md5);
      assert false;
    }
  }

  lemma StoresOnce(data: Segment, name: string, lo: nat, hi: nat, a: Data, b: Data)
    requires lo <= hi && Stores(data, name, lo, hi, a)
    ensures !NoSection(data, name)
    ensures Stores(data, name, lo, hi, b) ==> a == b
  {
    hide Walk;
    StoresIff(data, name, lo, hi, a);
    StoresIff(data, name, lo, hi, b);
  }

  predicate IsExternal(x: HashIssue) {
    x.ExternalMd5Mismatch? || x.ExternalSha1Mismatch? || x.ExternalSha256Mismatch?
  }

  /** On any bytes for which the hash computation yields digests, the analyser hashes the very same
      stream: given those digests back it reports no external mismatch, and given any other digest
      it reports one. */
  lemma OwnHashesAccepted(z: Inflate, segments: seq<Segment>, digests: Digests, expected: Expected,
                          issues: seq<HashIssue>)
    requires ComputableGeometry(segments).Some?
    requires AnalyserGeometry(segments).Some? ==>
      var h := HashesOf(digests, MediaStream(z, segments, AnalyserGeometry(segments).value));
      issues == StoredIssues(segments[|segments| - 1], Lists(segments)[|segments| - 1], h) + ExternalIssues(expected, h)
    ensures AnalyserGeometry(segments) == ComputableGeometry(segments)
    ensures var h := HashesOf(digests, MediaStream(z, segments, ComputableGeometry(segments).value));
            (forall x :: x in issues ==> !IsExternal(x)) <==>
            && (expected.md5.Some? ==> expected.md5.value == h.md5)
            && (expected.sha1.Some? ==> expected.sha1.value == h.sha1)
            && (expected.sha256.Some? ==> expected.sha256.value == h.sha256)
  {
    var h := HashesOf(digests, MediaStream(z, segments, ComputableGeometry(segments).value));
    hide HashSegments, MediaStream, HashesOf;
    StoredNotExternal(segments[|segments| - 1], Lists(segments)[|segments| - 1], h);
    ExternalIff(expected, h);
  }

  lemma StoredNotExternal(data: Segment, sections: seq<Section>, h: Hashes)
    ensures forall x :: x in StoredIssues(data, sections, h) ==> !IsExternal(x)
  {
  }

  lemma ExternalIff(e: Expected, h: Hashes)
    ensures forall x :: x in ExternalIssues(e, h) ==> IsExternal(x)
    ensures ExternalIssues(e, h) == [] <==>
            && (e.md5.Some? ==> e.md5.value == h.md5)
            && (e.sha1.Some? ==> e.sha1.value == h.sha1)
            && (e.sha256.Some? ==> e.sha256.value == h.sha256)
    ensures ExternalIssues(e, h) != [] ==> exists x :: x in ExternalIssues(e, h)
  {
    var i := ExternalIssues(e, h);
    if i != [] {
      assert i[0] in i;
    }
  }
}
