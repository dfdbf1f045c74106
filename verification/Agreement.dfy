/** On a well-formed image the tolerant recovery writes exactly what the strict reader serves. */
module Agreement {
  import opened Bytes
  import opened Errors
  import opened Sections
  import opened Walkers
  import opened ChunkTables
  import opened LazyTables
  import opened Media
  import opened Images
  import opened Opening
  import opened Recover
  import opened RecoverLoop
  import opened WellFormed

  // ----- The two chunk ranges -----

  /** A table as the recovery sees it. */
  function RefOf(m: SectionMeta): TableRef {
    TableRef(m.entryCount, m.baseOffset, m.entriesOffset)
  }

  /** When no entry overflows, both sides read the same flag and the same absolute offset. */
  lemma EntryAgrees(m: SectionMeta, segments: seq<Segment>, i: nat)
    requires EntriesPresent(m, segments) && |SectionKept(m, segments)| == m.entryCount && i < m.entryCount
    ensures var l := SectionKept(m, segments)[i];
            EntryOf(segments[m.segmentIdx], RefOf(m), i) == Some(Entry(l.compressed, l.offset))
  {
    hide Kept;
    var entries := EntryBytes(m, segments);
    AllKeptIff(entries, m.entryCount, m.baseOffset);
    KeptAt(entries, m.entryCount, m.baseOffset, i);
    var off := m.entriesOffset + 4 * i;
    SliceOfSlice(segments[m.segmentIdx], m.entriesOffset, m.entriesOffset + 4 * m.entryCount, 4 * i, 4 * i + 4);
    assert entries[4 * i..4 * i + 4] == segments[m.segmentIdx][off..off + 4];
    assert Fits(EntryAt(entries, i), m.baseOffset);
  }

  lemma RangeAgrees(m: SectionMeta, segments: seq<Segment>, l: nat, end: nat)
    requires EntriesPresent(m, segments) && |SectionKept(m, segments)| == m.entryCount && l < m.entryCount
    requires var kept := SectionKept(m, segments);
             kept[l].offset < RangeEnd(kept, l, end) <= |segments[m.segmentIdx]|
    ensures var kept := SectionKept(m, segments);
            ChunkRange(segments[m.segmentIdx], RefOf(m), l, Some(end)) ==
            Some(Range(kept[l].offset, RangeEnd(kept, l, end), kept[l].compressed))
  {
    hide SectionKept, EntryOf;
    EntryAgrees(m, segments, l);
    if l + 1 < m.entryCount {
      EntryAgrees(m, segments, l + 1);
    }
  }

  // ----- The two decoders -----

  /** A good chunk decodes on both sides: the recovery's bytes, zero-padded, are the reader's page. */
  lemma ChunkAgrees(img: Image, kept: seq<Located>, l: nat, segIdx: nat, end: U64)
    requires segIdx < |img.segments| < U32_LIMIT && l < |kept| && 0 < img.chunkSize < U32_LIMIT
    requires GoodChunk(img.z, img.segments[segIdx], kept, l, end, img.chunkSize)
    ensures var raw := img.segments[segIdx][kept[l].offset..RangeEnd(kept, l, end)];
            var d := DecodeChunk(img.z, raw, kept[l].compressed, img.chunkSize);
            && d.Some? && d.value.crcOk
            && PageOf(img, TableChunk(kept, l, segIdx, img.chunkSize, Some(end))) ==
               Ok(Padded(d.value.bytes, img.chunkSize))
  {
    hide ReadInflated;
    var lo, hi := kept[l].offset, RangeEnd(kept, l, end);
    var seg, cs := img.segments[segIdx], img.chunkSize;
    var c := TableChunk(kept, l, segIdx, cs, Some(end));
    if kept[l].compressed {
      assert c.size == hi - lo;
      assert ReadSlice(seg, c.Offset(), c.size) == seg[lo..hi];
      BothInflate(img.z, seg[lo..hi], cs);
    } else {
      assert ReadSlice(seg, c.Offset(), cs) == seg[lo..hi][..cs];
    }
  }

  lemma BothInflate(z: Inflate, raw: Data, cs: nat)
    requires cs > 0 && GoodStream(z(raw), cs)
    ensures var a, b := ReadInflated(z, raw, cs + 1), ReadInflated(z, raw, cs);
            && a.Some? && b.Some? && a.value != [] && b.value == a.value[..Min(|a.value|, cs)]
  {
  }

  // ----- The evidence -----

  /** What recovery gathers from a well-formed segment is its table and its sectors end. */
  lemma EvidenceAgrees(z: Inflate, segments: seq<Segment>, chunkSize: nat, k: nat)
    requires k < |segments| && GoodTables(z, segments, chunkSize)
    ensures var m, e := MetaAt(z, segments, chunkSize, k), EvidenceOf(segments[k]);
            e.data == segments[k] && e.primary == Some(RefOf(m)) && e.Entries() == m.entryCount
              && e.sectorsEnd == m.sectorsEnd
  {
    hide GoodTables, StrictWalk, Walk, ParseTableHeader, SectionKept, EntriesPresent, GoodChunk, Relevant;
    var seg, m := segments[k], MetaAt(z, segments, chunkSize, k);
    var w := StrictWalk(seg, FILE_HEADER_SIZE);
    TolerantIsStrictPrefix(seg, FILE_HEADER_SIZE);
    TableFound(seg, k == 0);
    TableRefAgrees(seg, k, w, TableSection(seg, k == 0));
  }

  lemma TableFound(seg: Segment, first: bool)
    requires GoodShape(seg, first)
    ensures Find(StrictWalk(seg, FILE_HEADER_SIZE), {"table"}) == Some(TableSection(seg, first))
  {
    hide StrictWalk, Relevant;
    var w := StrictWalk(seg, FILE_HEADER_SIZE);
    var r := Relevant(w);
    FindRelevant(w, {"table"});
    if first {
      assert r[1..][0] == r[1];
      assert Find(r, {"table"}) == Find(r[1..], {"table"});
    }
  }

  lemma TableRefAgrees(seg: Segment, k: nat, w: seq<Section>, s: Section)
    requires Find(w, {"table"}) == Some(s) && ReadHeader(seg, k, s, 0, SectorsEnd(w)).Ok?
    ensures TableRefOf(seg, w, "table") == Some(RefOf(ReadHeader(seg, k, s, 0, SectorsEnd(w)).value))
  {
  }

  /** One chunk, through both paths. */
  lemma CopyAgrees(z: Inflate, segments: seq<Segment>, chunkSize: U64, k: nat, l: nat, img: Image)
    requires k < |segments| < U32_LIMIT && GoodTables(z, segments, chunkSize) && 0 < chunkSize < U32_LIMIT
    requires l < MetaAt(z, segments, chunkSize, k).entryCount
    requires img.z == z && img.segments == segments && img.chunkSize == chunkSize
    ensures var e := EvidenceOf(segments[k]);
            var d := e.DecodeFrom(z, e.primary, l, chunkSize);
            && d.Some? && d.value.crcOk
            && PageOf(img, SectionChunks(MetaAt(z, segments, chunkSize, k), segments, chunkSize)[l]) ==
               Ok(Padded(d.value.bytes, chunkSize))
  {
    hide GoodTables, TableMeta, GoodShape, SectionKept, PageOf, DecodeChunk, EvidenceOf, Evidence.Entries, TableChunk;
    var m := MetaAt(z, segments, chunkSize, k);
    EvidenceAgrees(z, segments, chunkSize, k);
    var kept, end := SectionKept(m, segments), m.sectorsEnd.value;
    assert GoodChunk(z, segments[k], kept, l, end, chunkSize);
    RangeAgrees(m, segments, l, end);
    ChunkAgrees(img, kept, l, k, end);
  }

  // ----- The geometry -----

  /** The volume section, as both sides read it. */
  ghost predicate VolumeIs(seg: Segment, v: Volume)
    requires GoodShape(seg, true)
  {
    var s := Relevant(StrictWalk(seg, FILE_HEADER_SIZE))[0];
    var off := s.offset + DESCRIPTOR_SIZE;
    && s.size >= DESCRIPTOR_SIZE + VOLUME_MIN && off + VOLUME_READ <= |seg|
    && ParseVolume(seg[off..off + VOLUME_READ]) == Some(v)
  }

  lemma SameVolume(seg: Segment, off: nat, a: nat, b: nat)
    requires off + VOLUME_MIN <= a <= |seg| && off + VOLUME_MIN <= b <= |seg|
    ensures ParseVolume(seg[off..a]) == ParseVolume(seg[off..b])
  {
    var x, y := seg[off..a], seg[off..b];
    forall i | 0 <= i < VOLUME_MIN
      ensures x[i] == y[i]
    {
    }
  }

  lemma GeometryAgrees(seg: Segment, v: Volume)
    requires GoodShape(seg, true) && VolumeIs(seg, v) && v.sectorsPerChunk > 0 && v.bytesPerSector > 0
    ensures ReadGeometry(seg, Walk(seg, FILE_HEADER_SIZE)) == Some(v)
    ensures v.ChunkSize() <= MAX_CHUNK_SIZE && v.TotalSize() > 0 ==>
      var st := OpenVolume(Initial(), seg, Relevant(StrictWalk(seg, FILE_HEADER_SIZE))[0]);
      st.Ok? && st.value == Initial().(chunkSize := v.ChunkSize(), totalSize := v.TotalSize())
  {
    hide StrictWalk, Walk, Relevant, ParseVolume;
    var w := StrictWalk(seg, FILE_HEADER_SIZE);
    var s := Relevant(w)[0];
    TolerantIsStrictPrefix(seg, FILE_HEADER_SIZE);
    FindRelevant(w, {"volume", "disk"});
    var off := s.offset + DESCRIPTOR_SIZE;
    var end := Min(SatAdd(off, s.size - DESCRIPTOR_SIZE), |seg|);
    SameVolume(seg, off, off + VOLUME_READ, end);
  }

  // ----- Well-formed images -----

  /** Some segment's table has an entry for chunk `idx`. */
  ghost predicate Tabled(z: Inflate, segments: seq<Segment>, chunkSize: nat, idx: nat)
    requires GoodTables(z, segments, chunkSize)
  {
    PlaceOf(EntryCounts(z, segments, chunkSize), idx).Some?
  }

  /** Byte `p` of the media lies in a chunk that is declared and tabled. */
  ghost predicate InChunk(z: Inflate, segments: seq<Segment>, v: Volume, p: nat)
    requires GoodTables(z, segments, v.ChunkSize()) && v.ChunkSize() > 0
  {
    Div(p, v.ChunkSize()) < v.chunkCount && Tabled(z, segments, v.ChunkSize(), Div(p, v.ChunkSize()))
  }

  /** Segment `k + 1` of the set is at position `k`. */
  predicate InOrder(segments: seq<Segment>) {
    forall k :: 0 <= k < |segments| ==> SegmentNumber(segments[k]) == k + 1
  }

  /** Signed segments in order, one table per segment; one volume section with usable geometry, before
      the first table; every claimed chunk present and decoding; and every byte of the media in a declared
      and tabled chunk. */
  ghost predicate WellFormedImage(z: Inflate, segments: seq<Segment>, v: Volume) {
    && 0 < |segments| < U32_LIMIT
    && Signed(segments) && InOrder(segments)
    && |segments[0]| >= FILE_HEADER_SIZE && KindOf(segments[0]) == Some(Physical)
    && GoodShape(segments[0], true) && VolumeIs(segments[0], v)
    && 0 < v.sectorsPerChunk && 0 < v.bytesPerSector && 0 < v.ChunkSize() <= MAX_RECOVERED_CHUNK
    && 0 < v.TotalSize()
    && GoodTables(z, segments, v.ChunkSize())
    && forall p: nat :: p < v.TotalSize() ==> InChunk(z, segments, v, p)
  }

  /** A well-formed image declares and tables every chunk its media needs. */
  lemma ChunksSuffice(z: Inflate, segments: seq<Segment>, v: Volume)
    requires WellFormedImage(z, segments, v)
    ensures CeilDiv(v.TotalSize(), v.ChunkSize()) <= v.chunkCount
    ensures forall idx: nat :: idx < CeilDiv(v.TotalSize(), v.ChunkSize()) ==> Tabled(z, segments, v.ChunkSize(), idx)
  {
    hide GoodTables, GoodShape, VolumeIs, Tabled, CeilDiv, Div;
    var cs, total := v.ChunkSize(), v.TotalSize();
    forall idx: nat | idx < CeilDiv(total, cs)
      ensures Tabled(z, segments, cs, idx) && idx < v.chunkCount
    {
      ChunkHasByte(total, cs, idx);
      assert InChunk(z, segments, v, idx * cs);
    }
    var n := CeilDiv(total, cs);
    if n > 0 {
      ChunkHasByte(total, cs, n - 1);
      assert InChunk(z, segments, v, (n - 1) * cs);
    }
  }

  lemma ChunkHasByte(total: nat, cs: nat, idx: nat)
    requires cs > 0 && idx < CeilDiv(total, cs)
    ensures idx * cs < total && Div(idx * cs, cs) == idx
  {
    BeforeCeil(total, cs, idx + 1);
    DivModUnique(idx * cs, cs, idx, 0);
  }

  /** The image the strict reader opens. */
  ghost function StrictImage(z: Inflate, segments: seq<Segment>, v: Volume): (img: Image)
    requires WellFormedImage(z, segments, v)
  {
    Image(z, segments, EagerTable(ChunksOf(z, segments, v.ChunkSize(), |segments|)), v.ChunkSize(), v.TotalSize())
  }

  ghost function JobOf(z: Inflate, segments: seq<Segment>, v: Volume): Job {
    Job(z, AllEvidence(segments), v.ChunkSize(), v.TotalSize(), v.chunkCount)
  }

  ghost function LedgerOf(z: Inflate, segments: seq<Segment>, v: Volume): (l: Ledger)
    ensures l.chunkSize == v.ChunkSize() && l.imageSize == v.TotalSize() && l.chunkCount == v.chunkCount
  {
    JobOf(z, segments, v).AsLedger()
  }

  /** Both programs accept the image. */
  lemma BothOpen(z: Inflate, segments: seq<Segment>, v: Volume)
    requires WellFormedImage(z, segments, v)
    ensures Setup(z, segments) == Ok(JobOf(z, segments, v))
    ensures var st, img := OpenAll(false, segments), StrictImage(z, segments, v);
            && st.Ok? && img.table == EagerTable(st.value.chunks) && img.chunkSize == st.value.chunkSize
            && img.totalSize == MediaSizeFor(Physical, st.value.totalSize, |st.value.chunks|, st.value.chunkSize)
  {
    hide GoodTables, GoodShape, VolumeIs, ReadGeometry, Walk, OpenAll, OpenVolume, CeilDiv, EntriesBefore;
    GeometryAgrees(segments[0], v);
    var st := Initial().(chunkSize := v.ChunkSize(), totalSize := v.TotalSize());
    EagerTableIs(z, segments, st);
  }

  lemma GoodParts(z: Inflate, segments: seq<Segment>, v: Volume)
    requires WellFormedImage(z, segments, v)
    ensures GoodTables(z, segments, v.ChunkSize()) && |segments| < U32_LIMIT && 0 < v.ChunkSize() < U32_LIMIT
  {
    hide GoodTables, GoodShape, VolumeIs;
  }

  /** Every chunk the recovery looks at comes, whole and good, from its primary table, and is the
      reader's page. */
  lemma OutcomeAgrees(z: Inflate, segments: seq<Segment>, v: Volume, idx: nat)
    requires WellFormedImage(z, segments, v) && idx < CeilDiv(v.TotalSize(), v.ChunkSize())
    ensures var o, page := JobOf(z, segments, v).OutcomeOf(idx), Page(StrictImage(z, segments, v), idx);
            && o.Saved? && !o.viaTable2 && o.crcOk && |o.bytes| <= v.ChunkSize()
            && page == Ok(Padded(o.bytes, v.ChunkSize()))
  {
    hide WellFormedImage, GoodTables, GoodTable, TableMeta, EntriesPresent, SectionKept, CeilDiv, EntriesBefore,
         EvidenceOf, PageOf, Evidence.DecodeFrom, Evidence.Entries, SectionChunks, PlaceOf, ChunksOf;
    GoodParts(z, segments, v);
    var cs, job := v.ChunkSize(), JobOf(z, segments, v);
    CountsAgree(z, segments, v);
    ChunksSuffice(z, segments, v);
    assert Tabled(z, segments, cs, idx);
    var place := PlaceOf(job.Counts(), idx).value;
    ChunkOfPlace(z, segments, cs, |segments|, place.segment, place.local);
    CopyAgrees(z, segments, cs, place.segment, place.local, StrictImage(z, segments, v));
  }

  lemma CountsAgree(z: Inflate, segments: seq<Segment>, v: Volume)
    requires WellFormedImage(z, segments, v)
    ensures JobOf(z, segments, v).Counts() == EntryCounts(z, segments, v.ChunkSize())
  {
    hide GoodTables, GoodShape, VolumeIs, CeilDiv, EntriesBefore, EvidenceOf, Evidence.Entries;
    forall k | 0 <= k < |segments|
      ensures EvidenceOf(segments[k]).Entries() == MetaAt(z, segments, v.ChunkSize(), k).entryCount
    {
      EvidenceAgrees(z, segments, v.ChunkSize(), k);
    }
  }

  // ----- The agreement -----

  /** Chunk `idx` is saved, and its bytes, zero-padded, are page `idx` of the media. */
  predicate PageAgrees(ledger: Ledger, m: PagedMedia, idx: nat) {
    var o := ledger.outcome(idx);
    && o.Saved? && o.crcOk && |o.bytes| <= m.chunkSize
    && m.page(idx) == Ok(Padded(o.bytes, m.chunkSize))
  }

  /** The recovery's ledger and the reader's media are of the same shape and agree chunk by chunk. */
  ghost predicate PagesAgree(ledger: Ledger, m: PagedMedia) {
    && m.Served() && m.chunkSize == ledger.chunkSize && m.total == ledger.imageSize
    && forall idx: nat :: idx < ledger.Processed() ==> PageAgrees(ledger, m, idx)
  }

  lemma FitIsPaddedPrefix(d: Data, n: nat, cs: nat)
    requires |d| <= cs && n <= cs
    ensures Fit(d, n) == Padded(d, cs)[..n]
  {
  }

  lemma WrittenAgrees(ledger: Ledger, m: PagedMedia, idx: nat)
    requires PagesAgree(ledger, m) && idx < ledger.Processed()
    ensures var at := ledger.At(idx);
            m.Readable(at, at + ledger.Logical(idx)) && ledger.Written(idx) == m.Slice(at, at + ledger.Logical(idx))
  {
    hide Ledger.Processed, Fit, PagedMedia.Slice, CeilDiv;
    assert PageAgrees(ledger, m, idx);
    var cs, n := m.chunkSize, ledger.Logical(idx);
    FitIsPaddedPrefix(ledger.outcome(idx).bytes, n, cs);
    TallyBytes(ledger, idx + 1);
    DivModUnique(ledger.At(idx), cs, idx, 0);
    PageCovers(m, ledger.At(idx), n, idx, 0);
  }

  /** After `k` chunks the output is the media up to there. */
  lemma {:induction false} OutputAgrees(ledger: Ledger, m: PagedMedia, k: nat)
    requires PagesAgree(ledger, m) && k <= ledger.Processed()
    ensures var n := |ledger.Output(k)|; m.Readable(0, n) && ledger.Output(k) == m.Slice(0, n)
    decreases k
  {
    hide PageAgrees, Ledger.Processed, Ledger.Written, Ledger.At, Ledger.Logical, Ledger.Output, CeilDiv,
         PagedMedia.Slice, PagedMedia.Readable;
    if k > 0 {
      OutputAgrees(ledger, m, k - 1);
      WrittenAgrees(ledger, m, k - 1);
      OutputLast(ledger, k - 1);
      SliceJoin(m, 0, ledger.At(k - 1), ledger.At(k - 1) + ledger.Logical(k - 1));
    } else {
      NothingOutput(ledger, m);
    }
  }

  lemma NothingOutput(ledger: Ledger, m: PagedMedia)
    requires m.chunkSize > 0
    ensures ledger.Output(0) == [] && m.Readable(0, 0) && m.Slice(0, 0) == []
  {
  }

  /** A covered image whose chunks all agree is recovered as the reader serves it, without loss. */
  lemma AccountAgrees(ledger: Ledger, m: PagedMedia, report: Report, bytes: Data)
    requires PagesAgree(ledger, m) && ledger.Processed() == CeilDiv(ledger.imageSize, ledger.chunkSize)
    requires Accounts(ledger, report, bytes)
    ensures m.Readable(0, m.total) && bytes == m.Slice(0, m.total)
    ensures var t := report.tally; t.zeroFilled == 0 && t.crcFlagged == 0 && t.bytesZeroFilled == 0
  {
    var k := ledger.Processed();
    OutputAgrees(ledger, m, k);
    TallyBytes(ledger, k);
    assert bytes == ledger.Output(k);
    NothingLost(ledger, m, k);
  }

  lemma {:induction false} NothingLost(ledger: Ledger, m: PagedMedia, k: nat)
    requires PagesAgree(ledger, m) && k <= ledger.Processed()
    ensures var t := TallyAt(ledger, k); t.zeroFilled == 0 && t.crcFlagged == 0 && t.bytesZeroFilled == 0
  {
    hide Ledger.Processed, Ledger.Logical, CeilDiv;
    if k > 0 {
      NothingLost(ledger, m, k - 1);
      assert PageAgrees(ledger, m, k - 1);
    }
  }

  /** Every chunk looked at is saved, from the redundant table if `via2` and from the primary one if not. */
  ghost predicate AllFrom(ledger: Ledger, via2: bool, k: nat) {
    forall idx: nat :: idx < k ==> ledger.outcome(idx).Saved? && ledger.outcome(idx).viaTable2 == via2
  }

  /** Chunks that all come from one table are all counted under it. */
  lemma {:induction false} CountedUnder(ledger: Ledger, via2: bool, k: nat)
    requires AllFrom(ledger, via2, k)
    ensures var t := TallyAt(ledger, k);
            t.table2 == (if via2 then k else 0) && t.primary == (if via2 then 0 else k)
  {
    hide Ledger.Logical;
    if k > 0 {
      CountedUnder(ledger, via2, k - 1);
      assert ledger.outcome(k - 1).viaTable2 == via2;
    }
  }

  lemma AllPagesAgree(z: Inflate, segments: seq<Segment>, v: Volume)
    requires WellFormedImage(z, segments, v)
    ensures PagesAgree(LedgerOf(z, segments, v), MediaOf(StrictImage(z, segments, v)))
    ensures var ledger := LedgerOf(z, segments, v);
            && ledger.Processed() == CeilDiv(ledger.imageSize, ledger.chunkSize)
            && AllFrom(ledger, false, ledger.Processed())
  {
    hide GoodTables, GoodShape, VolumeIs, Page, ChunksOf, EntriesBefore, EntryCounts, CeilDiv;
    var ledger, m := LedgerOf(z, segments, v), MediaOf(StrictImage(z, segments, v));
    ChunksSuffice(z, segments, v);
    forall idx: nat | idx < ledger.Processed()
      ensures PageAgrees(ledger, m, idx) && !ledger.outcome(idx).viaTable2
    {
      OutcomeAgrees(z, segments, v, idx);
    }
  }

  /** The chunks of a well-formed image give its whole media. */
  lemma WholeOutput(z: Inflate, segments: seq<Segment>, v: Volume)
    requires WellFormedImage(z, segments, v)
    ensures var m, ledger := MediaOf(StrictImage(z, segments, v)), LedgerOf(z, segments, v);
            m.chunkSize > 0 && m.Readable(0, m.total) && ledger.Output(ledger.Processed()) == m.Slice(0, m.total)
  {
    hide WellFormedImage, Ledger.Output, Page, PagedMedia.Slice, PagedMedia.Readable, CeilDiv;
    var m, ledger := MediaOf(StrictImage(z, segments, v)), LedgerOf(z, segments, v);
    AllPagesAgree(z, segments, v);
    OutputAgrees(ledger, m, ledger.Processed());
    TallyBytes(ledger, ledger.Processed());
  }

  /** Recovering a well-formed image loses nothing, flags nothing, and writes byte for byte what the
      strict reader returns for the whole media. */
  lemma RecoveredIsStrict(z: Inflate, segments: seq<Segment>, v: Volume, report: Report, bytes: Data)
    requires WellFormedImage(z, segments, v)
    requires Accounts(LedgerOf(z, segments, v), report, bytes)
    ensures var m := MediaOf(StrictImage(z, segments, v));
            m.chunkSize > 0 && m.Readable(0, m.total) && bytes == m.Slice(0, m.total)
    ensures var t := report.tally; t.zeroFilled == 0 && t.table2 == 0 && t.crcFlagged == 0 && t.bytesZeroFilled == 0
  {
    hide WellFormedImage, PagesAgree, AllFrom, Page, Accounts, CeilDiv;
    var ledger := LedgerOf(z, segments, v);
    AllPagesAgree(z, segments, v);
    AccountAgrees(ledger, MediaOf(StrictImage(z, segments, v)), report, bytes);
    CountedUnder(ledger, false, ledger.Processed());
    TallyReported(ledger, report, bytes);
  }

  lemma TallyReported(ledger: Ledger, report: Report, bytes: Data)
    requires ledger.chunkSize > 0 && Accounts(ledger, report, bytes)
    ensures report.tally.table2 == TallyAt(ledger, ledger.Processed()).table2
    ensures report.tally.primary == TallyAt(ledger, ledger.Processed()).primary
  {
  }
}
