/** What each section does to an open, told from the bytes, and which tables a segment is opened by. */
module OpeningLaws {
  import opened Bytes
  import opened Errors
  import opened Sections
  import opened Walkers
  import opened LazyTables
  import opened Opening

  /** The list with every `table2` section called a `table`. */
  function Promoted(list: seq<Section>): (r: seq<Section>)
    ensures |r| == |list|
  {
    if list == [] then []
    else [if list[0].typeName == "table2" then list[0].(typeName := "table") else list[0]] + Promoted(list[1..])
  }

  /** The list without its `table2` sections. */
  function WithoutTable2(list: seq<Section>): seq<Section> {
    if list == [] then []
    else (if list[0].typeName == "table2" then [] else [list[0]]) + WithoutTable2(list[1..])
  }

  lemma NameIgnored(lazy: bool, st: OpenState, segments: seq<Segment>, segIdx: nat, s: Section, end: Option<U64>)
    requires segIdx < |segments|
    ensures OpenTable(lazy, st, segments, segIdx, s, end) ==
            OpenTable(lazy, st, segments, segIdx, s.(typeName := "table"), end)
  {
    hide ParseTableHeader, EntriesPresent, SectionChunks;
  }

  lemma {:induction false} OpenPromoted(lazy: bool, st: OpenState, segments: seq<Segment>, segIdx: nat,
                                        end: Option<U64>, list: seq<Section>)
    requires segIdx < |segments| && forall s :: s in list ==> s.typeName != "table"
    ensures OpenSections(lazy, st, segments, segIdx, "table2", end, list) ==
            OpenSections(lazy, st, segments, segIdx, "table", end, Promoted(list))
    decreases |list|
  {
    hide OpenVolume, OpenTable;
    if list != [] {
      var s, p := list[0], Promoted(list);
      assert s in list && p[1..] == Promoted(list[1..]);
      var r := OpenSection(lazy, st, segments, segIdx, "table2", end, s);
      NameIgnored(lazy, st, segments, segIdx, s, end);
      assert r == OpenSection(lazy, st, segments, segIdx, "table", end, p[0]);
      if r.Ok? {
        OpenPromoted(lazy, r.value, segments, segIdx, end, list[1..]);
      }
    }
  }

  lemma {:induction false} OpenWithoutTable2(lazy: bool, st: OpenState, segments: seq<Segment>, segIdx: nat,
                                             end: Option<U64>, list: seq<Section>)
    requires segIdx < |segments|
    ensures OpenSections(lazy, st, segments, segIdx, "table", end, list) ==
            OpenSections(lazy, st, segments, segIdx, "table", end, WithoutTable2(list))
    decreases |list|
  {
    hide OpenVolume, OpenTable;
    if list != [] {
      var s, w := list[0], WithoutTable2(list);
      var r := OpenSection(lazy, st, segments, segIdx, "table", end, s);
      if s.typeName == "table2" {
        assert w == WithoutTable2(list[1..]);
        OpenWithoutTable2(lazy, st, segments, segIdx, end, list[1..]);
      } else {
        assert w[0] == s && w[1..] == WithoutTable2(list[1..]);
        if r.Ok? {
          OpenWithoutTable2(lazy, r.value, segments, segIdx, end, list[1..]);
        }
      }
    }
  }

  /** A segment with a `table` opens as if it had no `table2`; a segment without opens as if every `table2` were
      a `table`. */
  lemma TablesUsed(lazy: bool, st: OpenState, segments: seq<Segment>, segIdx: nat)
    requires segIdx < |segments|
    ensures var list := StrictWalk(segments[segIdx], FILE_HEADER_SIZE);
            OpenSegment(lazy, st, segments, segIdx) ==
            OpenSections(lazy, st, segments, segIdx, "table", SectorsEnd(list),
                         if exists s :: s in list && s.typeName == "table" then WithoutTable2(list)
                         else Promoted(list))
  {
    hide StrictWalk, OpenSections, SectorsEnd;
    var list := StrictWalk(segments[segIdx], FILE_HEADER_SIZE);
    if exists s :: s in list && s.typeName == "table" {
      OpenWithoutTable2(lazy, st, segments, segIdx, SectorsEnd(list), list);
    } else {
      OpenPromoted(lazy, st, segments, segIdx, SectorsEnd(list), list);
    }
  }

  // ----- One section -----

  /** The volume arm: 94 bytes must be there, and chunks are at most 128 MiB; the media size is the sectors' or, when
      that is zero, that of the declared chunks. */
  lemma VolumeRead(st: OpenState, seg: Segment, s: Section)
    ensures var off, r := s.offset + DESCRIPTOR_SIZE, OpenVolume(st, seg, s);
            if off + 94 > |seg| then r == Err(UnexpectedEof)
            else
              var cs := Le32(seg, off + 8) * Le32(seg, off + 12);
              var declared := SatMul(Le32(seg, off + 12), Le64(seg, off + 16));
              if cs > 0x800_0000 then r == Err(InvalidChunkSize)
              else
                && r.Ok? && r.value.chunkSize == cs
                && r.value.totalSize == (if declared != 0 then declared else cs * Le32(seg, off + 4))
                && r.value == st.(chunkSize := r.value.chunkSize, totalSize := r.value.totalSize)
  {
    hide Le32, Le64, ParseVolume;
    var off := s.offset + DESCRIPTOR_SIZE;
    if off + 94 <= |seg| {
      VolumeFieldsAre(seg, off);
    }
  }

  lemma VolumeFieldsAre(seg: Segment, off: nat)
    requires off + 94 <= |seg|
    ensures ParseVolume(seg[off..off + 94]) ==
            Some(Volume(Le32(seg, off + 4), Le32(seg, off + 8), Le32(seg, off + 12), Le64(seg, off + 16)))
  {
    var b := seg[off..off + 94];
    assert Le32(b, 4) == Le32(seg, off + 4) && Le32(b, 8) == Le32(seg, off + 8);
    assert Le32(b, 12) == Le32(seg, off + 12) && Le64(b, 16) == Le64(seg, off + 16);
  }

  /** The table arm: the header must be there and declare at most four million entries; read eagerly, the entries
      must be there too. */
  lemma TableRead(lazy: bool, st: OpenState, segments: seq<Segment>, k: nat, s: Section, end: Option<U64>)
    requires k < |segments|
    ensures var seg, off, r := segments[k], s.offset + DESCRIPTOR_SIZE, OpenTable(lazy, st, segments, k, s, end);
            if off + 24 > |seg| then r == Err(UnexpectedEof)
            else
              var n := Le32(seg, off);
              var m := SectionMeta(st.nextChunkId, n, off + 24, Le64(seg, off + 8), k, end);
              if n > 4_000_000 then r == Err(TooManyTableEntries)
              else if lazy then r.Ok? && r.value.index == st.index + [m] && r.value.nextChunkId == st.nextChunkId + n
              else if off + 24 + 4 * n > |seg| then r == Err(UnexpectedEof)
              else
                && EntriesPresent(m, segments)
                && r == Ok(st.(chunks := st.chunks + SectionChunks(m, segments, st.chunkSize)))
  {
    hide Le32, Le64, ParseTableHeader, SectionChunks;
    var off := s.offset + DESCRIPTOR_SIZE;
    if off + 24 <= |segments[k]| {
      HeaderFieldsAre(segments[k], off);
    }
  }

  lemma HeaderFieldsAre(seg: Segment, off: nat)
    requires off + 24 <= |seg|
    ensures ParseTableHeader(seg[off..off + 24]) == Some(TableHeader(Le32(seg, off), Le64(seg, off + 8)))
  {
    var h := seg[off..off + 24];
    assert Le32(h, 0) == Le32(seg, off) && Le64(h, 8) == Le64(seg, off + 8);
  }

  /** Of the other sections only a stored digest or an error list that is cut off has any effect: it fails the open. */
  lemma OtherSection(lazy: bool, st: OpenState, segments: seq<Segment>, k: nat, tableType: string, end: Option<U64>,
                     s: Section)
    requires k < |segments| && s.typeName != "volume" && s.typeName != "disk" && s.typeName != tableType
    ensures var seg, off, r := segments[k], s.offset + DESCRIPTOR_SIZE,
              OpenSection(lazy, st, segments, k, tableType, end, s);
            var cutOff := || (s.typeName == "hash" && off + 16 > |seg|)
                          || (s.typeName == "digest" && off + 36 > |seg|)
                          || (s.typeName == "error2" && 76 < s.size < 1_000_076 && off + s.size - 76 > |seg|);
            r == if cutOff then Err(UnexpectedEof) else Ok(st)
  {
  }

  // ----- No volume at all -----

  lemma {:induction false} NoGeometryRead(lazy: bool, st: OpenState, segments: seq<Segment>, k: nat, tableType: string,
                                          end: Option<U64>, list: seq<Section>)
    requires k < |segments| && forall s :: s in list ==> s.typeName != "volume" && s.typeName != "disk"
    ensures var r := OpenSections(lazy, st, segments, k, tableType, end, list);
            r.Ok? ==> r.value.chunkSize == st.chunkSize
    decreases |list|
  {
    hide ReadHeader;
    if list != [] {
      assert list[0] in list;
      var r := OpenSection(lazy, st, segments, k, tableType, end, list[0]);
      if r.Ok? {
        NoGeometryRead(lazy, r.value, segments, k, tableType, end, list[1..]);
      }
    }
  }

  lemma {:induction false} NoneRead(lazy: bool, st: OpenState, segments: seq<Segment>, from: nat)
    requires from <= |segments|
    requires forall k :: 0 <= k < |segments| ==> NoVolumeIn(segments[k])
    ensures var r := OpenSegments(lazy, st, segments, from);
            r.Ok? ==> r.value.chunkSize == st.chunkSize
    decreases |segments| - from
  {
    hide OpenSections, StrictWalk;
    if from < |segments| {
      var list := StrictWalk(segments[from], FILE_HEADER_SIZE);
      assert NoVolumeIn(segments[from]);
      NoGeometryRead(lazy, st, segments, from, TableType(list), SectorsEnd(list), list);
      var r := OpenSegment(lazy, st, segments, from);
      if r.Ok? {
        NoneRead(lazy, r.value, segments, from + 1);
      }
    }
  }

  predicate NoVolumeIn(seg: Segment) {
    forall s :: s in StrictWalk(seg, FILE_HEADER_SIZE) ==> s.typeName != "volume" && s.typeName != "disk"
  }

  /** An image without a volume section is not opened. */
  lemma VolumeNeeded(lazy: bool, segments: seq<Segment>)
    requires forall k :: 0 <= k < |segments| ==> NoVolumeIn(segments[k])
    ensures OpenAll(lazy, segments).Err?
    ensures OpenSegments(lazy, Initial(), segments, 0).Ok? ==> OpenAll(lazy, segments) == Err(MissingVolume)
  {
    hide NoVolumeIn, OpenSegments;
    NoneRead(lazy, Initial(), segments, 0);
  }
}
