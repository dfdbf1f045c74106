/** Opening an EWF v1 image: one descriptor walk that builds either the eager or the lazy chunk table. */
module Opening {
  import opened Bytes
  import opened Errors
  import opened Sections
  import opened Walkers
  import opened ChunkTables
  import opened LazyTables
  import opened SegmentOrder

  const MAX_CHUNK_SIZE := 0x800_0000
  const MAX_TABLE_ENTRIES := 4_000_000
  const VOLUME_READ := 94
  const MD5_READ := 16
  const DIGEST_READ := 36
  const MAX_SECTION_DATA := 1_000_000

  /** What the walk accumulates. The eager mode fills `chunks`, the lazy mode `index` and
      `nextChunkId`; `seen` records the chunk size in force at each indexed table. */
  datatype OpenState = OpenState(
    chunkSize: U64,
    totalSize: U64,
    chunks: seq<Chunk>,
    index: seq<SectionMeta>,
    nextChunkId: nat,
    seen: seq<U64>)

  function Initial(): OpenState {
    OpenState(0, 0, [], [], 0, [])
  }

  function OpenVolume(st: OpenState, seg: Segment, s: Section): Result<OpenState> {
    hide ParseVolume;
    var off := s.offset + DESCRIPTOR_SIZE;
    if off + VOLUME_READ > |seg| then Err(UnexpectedEof)
    else
      var v := ParseVolume(seg[off..off + VOLUME_READ]).value;
      var cs := v.ChunkSize();
      if cs > MAX_CHUNK_SIZE then Err(InvalidChunkSize)
      else
        MulMonotone(cs, MAX_CHUNK_SIZE, v.chunkCount);
        Ok(st.(chunkSize := cs, totalSize := if v.TotalSize() == 0 then cs * v.chunkCount else v.TotalSize()))
  }

  /** The table header at `s`, as an index entry for chunks from `first` on. */
  function ReadHeader(seg: Segment, segIdx: nat, s: Section, first: nat, end: Option<U64>): Result<SectionMeta> {
    var off := s.offset + DESCRIPTOR_SIZE;
    if off + TABLE_HEADER_SIZE > |seg| then Err(UnexpectedEof)
    else
      var h := ParseTableHeader(seg[off..off + TABLE_HEADER_SIZE]).value;
      if h.entryCount > MAX_TABLE_ENTRIES then Err(TooManyTableEntries)
      else Ok(SectionMeta(first, h.entryCount, off + TABLE_HEADER_SIZE, h.baseOffset, segIdx, end))
  }

  function OpenTable(lazy: bool, st: OpenState, segments: seq<Segment>, segIdx: nat, s: Section,
                     end: Option<U64>): Result<OpenState>
    requires segIdx < |segments|
  {
    var m := ReadHeader(segments[segIdx], segIdx, s, st.nextChunkId, end);
    if m.Err? then Err(m.error)
    else if lazy then
      Ok(st.(index := st.index + [m.value], nextChunkId := st.nextChunkId + m.value.entryCount,
             seen := st.seen + [st.chunkSize]))
    else if !EntriesPresent(m.value, segments) then Err(UnexpectedEof)
    else Ok(st.(chunks := st.chunks + SectionChunks(m.value, segments, st.chunkSize)))
  }

  /** Are the bytes there that the walk reads of a stored digest or an error list? What it then keeps of
      them plays no part in what is modelled. */
  predicate BodyPresent(seg: Segment, s: Section) {
    var off := s.offset + DESCRIPTOR_SIZE;
    match s.typeName
    case "hash" => off + MD5_READ <= |seg|
    case "digest" => off + DIGEST_READ <= |seg|
    case "error2" => var n := SatSub(s.size, DESCRIPTOR_SIZE); 0 < n < MAX_SECTION_DATA ==> off + n <= |seg|
    case _ => true
  }

  function OpenSection(lazy: bool, st: OpenState, segments: seq<Segment>, segIdx: nat, tableType: string,
                       end: Option<U64>, s: Section): Result<OpenState>
    requires segIdx < |segments|
  {
    if s.typeName == "volume" || s.typeName == "disk" then OpenVolume(st, segments[segIdx], s)
    else if s.typeName == tableType then OpenTable(lazy, st, segments, segIdx, s, end)
    else if !BodyPresent(segments[segIdx], s) then Err(UnexpectedEof)
    else Ok(st)
  }

  function OpenSections(lazy: bool, st: OpenState, segments: seq<Segment>, segIdx: nat, tableType: string,
                        end: Option<U64>, list: seq<Section>): Result<OpenState>
    requires segIdx < |segments|
    decreases |list|
  {
    if list == [] then Ok(st)
    else
      var r := OpenSection(lazy, st, segments, segIdx, tableType, end, list[0]);
      if r.Err? then r else OpenSections(lazy, r.value, segments, segIdx, tableType, end, list[1..])
  }

  /** Primary tables when the segment has any, redundant ones otherwise. */
  function TableType(list: seq<Section>): string {
    if Find(list, {"table"}).Some? then "table" else "table2"
  }

  function SectorsEnd(list: seq<Section>): Option<U64> {
    var s := Find(list, {"sectors"});
    if s.None? then None else Some(SatAdd(s.value.offset, s.value.size))
  }

  function OpenSegment(lazy: bool, st: OpenState, segments: seq<Segment>, segIdx: nat): Result<OpenState>
    requires segIdx < |segments|
  {
    var list := StrictWalk(segments[segIdx], FILE_HEADER_SIZE);
    OpenSections(lazy, st, segments, segIdx, TableType(list), SectorsEnd(list), list)
  }

  function OpenSegments(lazy: bool, st: OpenState, segments: seq<Segment>, from: nat): Result<OpenState>
    requires from <= |segments|
    decreases |segments| - from
  {
    if from == |segments| then Ok(st)
    else
      var r := OpenSegment(lazy, st, segments, from);
      if r.Err? then r else OpenSegments(lazy, r.value, segments, from + 1)
  }

  /** The outcome of walking every segment, in order. */
  function OpenAll(lazy: bool, segments: seq<Segment>): Result<OpenState> {
    var r := OpenSegments(lazy, Initial(), segments, 0);
    if r.Ok? && r.value.chunkSize == 0 then Err(MissingVolume) else r
  }

  // ----- The opening loop -----

  method WalkStrict(seg: Segment) returns (list: seq<Section>)
    ensures list == StrictWalk(seg, FILE_HEADER_SIZE)
  {
    list := [];
    ghost var all := StrictWalk(seg, FILE_HEADER_SIZE);
    var pos: nat := FILE_HEADER_SIZE;
    while pos + DESCRIPTOR_SIZE < U64_LIMIT
      invariant list + StrictWalk(seg, pos) == all
      decreases SatSub(U64_LIMIT, pos)
    {
      if pos + DESCRIPTOR_SIZE > |seg| {
        break;
      }
      var d := DescriptorAt(seg, pos);
      StrictStep(seg, list, pos, all);
      list := list + [SectionOf(d)];
      if d.next == 0 || d.next <= pos {
        return;
      }
      pos := d.next;
    }
  }

  lemma StrictStep(seg: Segment, list: seq<Section>, pos: nat, all: seq<Section>)
    requires pos + DESCRIPTOR_SIZE <= |seg| && list + StrictWalk(seg, pos) == all
    ensures var d := DescriptorAt(seg, pos);
            list + [SectionOf(d)] + (if pos < d.next then StrictWalk(seg, d.next) else []) == all
  {
    var d := DescriptorAt(seg, pos);
    ConcatAssoc(list, [SectionOf(d)], if pos < d.next then StrictWalk(seg, d.next) else []);
  }

  method WalkAndOpenSegment(lazy: bool, start: OpenState, segments: seq<Segment>, segIdx: nat)
    returns (r: Result<OpenState>)
    requires segIdx < |segments|
    ensures r == OpenSegment(lazy, start, segments, segIdx)
  {
    var st := start;
    var list := WalkStrict(segments[segIdx]);
    var tableType, end := TableType(list), SectorsEnd(list);
    ghost var all := OpenSections(lazy, start, segments, segIdx, tableType, end, list);
    for i := 0 to |list|
      invariant OpenSections(lazy, st, segments, segIdx, tableType, end, list[i..]) == all
    {
      assert list[i..][0] == list[i] && list[i..][1..] == list[i + 1..];
      var step := OpenSection(lazy, st, segments, segIdx, tableType, end, list[i]);
      if step.Err? {
        return step;
      }
      st := step.value;
    }
    assert list[|list|..] == [];
    r := Ok(st);
  }

  method WalkAndOpen(lazy: bool, segments: seq<Segment>) returns (r: Result<OpenState>)
    ensures r == OpenAll(lazy, segments)
  {
    var st := Initial();
    ghost var all := OpenSegments(lazy, st, segments, 0);
    for segIdx := 0 to |segments|
      invariant OpenSegments(lazy, st, segments, segIdx) == all
    {
      var step := WalkAndOpenSegment(lazy, st, segments, segIdx);
      if step.Err? {
        return step;
      }
      st := step.value;
    }
    if st.chunkSize == 0 {
      return Err(MissingVolume);
    }
    r := Ok(st);
  }

  // ----- File headers, segment order and media size -----

  /** The file header read into a zeroed 13-byte buffer. */
  function HeaderOf(src: Segment): (h: Data)
    ensures |h| == FILE_HEADER_SIZE
  {
    if |src| >= FILE_HEADER_SIZE then src[..FILE_HEADER_SIZE] else src + Zeros(FILE_HEADER_SIZE - |src|)
  }

  function SegmentNumber(src: Segment): U32 { Le16(HeaderOf(src), 9) }

  function SegmentNumbers(sources: seq<Segment>): (r: seq<U32>)
    ensures |r| == |sources|
    ensures forall i :: 0 <= i < |sources| ==> r[i] == SegmentNumber(sources[i])
  {
    seq(|sources|, i requires 0 <= i < |sources| => SegmentNumber(sources[i]))
  }

  predicate Signed(sources: seq<Segment>) {
    forall i :: 0 <= i < |sources| ==> KindOf(HeaderOf(sources[i])).Some?
  }

  /** The media size: what the volume declares, except that a logical container, or a physical one
      that declares nothing, is measured by its chunk table. */
  function MediaSizeFor(kind: Kind, declared: U64, chunks: nat, chunkSize: U64): U64 {
    if kind == Logical || declared == 0 then SatMul(chunks, chunkSize) else declared
  }

  datatype Opened = Opened(segments: seq<Segment>, state: OpenState, mediaSize: U64)

  function ChunkCount(lazy: bool, st: OpenState): nat {
    if lazy then Len(st.index) else |st.chunks|
  }

  /** The outcome of opening signed, sequential segments: that of walking them in order. */
  ghost predicate OpenedAs(lazy: bool, sources: seq<Segment>, ordered: seq<Segment>, r: Result<Opened>)
    requires sources != [] && Signed(sources)
  {
    match OpenAll(lazy, ordered)
    case Err(e) => r == Err(e)
    case Ok(st) =>
      var kind := KindOf(HeaderOf(sources[0])).value;
      r == Ok(Opened(ordered, st, MediaSizeFor(kind, st.totalSize, ChunkCount(lazy, st), st.chunkSize)))
  }

  /** The first byte tells a logical container from a physical one. */
  lemma KindIsFirstByte(header: Data)
    requires KindOf(header).Some?
    ensures |header| >= 8 && (KindOf(header) == Some(Logical) <==> header[0] == 'L' as int)
  {
    var sig := header[..8];
    assert sig[0] == header[0];
  }

  method OpenV1(sources: seq<Segment>, lazy: bool) returns (r: Result<Opened>)
    ensures r.Ok? ==> sources != [] && Signed(sources) && IsOneToN(SegmentNumbers(sources))
    ensures r.Ok? ==> Placed(r.value.segments, sources, SegmentNumbers(sources))
    ensures r.Ok? ==> OpenAll(lazy, r.value.segments) == Ok(r.value.state)
    ensures r.Ok? ==>
      var st, logical := r.value.state, HeaderOf(sources[0])[0] == 'L' as int;
      r.value.mediaSize == if !logical && st.totalSize != 0 then st.totalSize
                           else SatMul(if lazy then Len(st.index) else |st.chunks|, st.chunkSize)
    ensures sources == [] ==> r == Err(NoSegments)
    ensures sources != [] && !Signed(sources) ==> r == Err(InvalidSignature)
    ensures sources != [] && Signed(sources) && !IsOneToN(SegmentNumbers(sources)) ==> r.Err? && r.error.SegmentGap?
    ensures sources != [] && Signed(sources) && IsOneToN(SegmentNumbers(sources)) ==>
      exists ordered :: Placed(ordered, sources, SegmentNumbers(sources)) && OpenedAs(lazy, sources, ordered, r)
  {
    hide OpenAll, HeaderOf, KindOf, Placed, IsOneToN, Len;
    if sources == [] {
      return Err(NoSegments);
    }
    for i := 0 to |sources|
      invariant forall k :: 0 <= k < i ==> KindOf(HeaderOf(sources[k])).Some?
    {
      if KindOf(HeaderOf(sources[i])).None? {
        return Err(InvalidSignature);
      }
    }
    var numbers := SegmentNumbers(sources);
    var reordered := ValidateAndReorder(sources, numbers);
    if reordered.Err? {
      return Err(reordered.error);
    }
    var segments := reordered.value;
    var walked := WalkAndOpen(lazy, segments);
    if walked.Err? {
      assert OpenedAs(lazy, sources, segments, Err(walked.error));
      return Err(walked.error);
    }
    var st := walked.value;
    KindIsFirstByte(HeaderOf(sources[0]));
    var mediaSize := MediaSizeFor(KindOf(HeaderOf(sources[0])).value, st.totalSize, ChunkCount(lazy, st), st.chunkSize);
    r := Ok(Opened(segments, st, mediaSize));
    assert OpenedAs(lazy, sources, segments, r);
  }
}
