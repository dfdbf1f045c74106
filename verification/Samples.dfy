/** Concrete one-segment images, for the properties the code does not meet on every image and for the
    conditions under which it does. */
module Samples {
  import opened Bytes
  import opened Errors
  import opened Sections
  import opened Walkers
  import opened SegmentWriter
  import opened ChunkTables
  import opened LazyTables
  import opened Images
  import opened Opening
  import opened WellFormed
  import opened LazyEager
  import opened LazyReads
  import opened Recover
  import opened RecoverLoop
  import opened Agreement
  import opened Fallback
  import opened Integrity
  import opened HashAgreement
  import opened Media
  import opened Reader
  import opened Search

  // ----- A volume that declares more chunks than its sectors need -----

  /** Two chunks of one sector each, over media of a single sector. */
  function OverDeclaredVolume(): Volume {
    Volume(2, 1, 512, 1)
  }

  function OverDeclaredParts(): (parts: seq<Part>)
    ensures |parts| == 1 && Writable(parts) && LengthOf(parts) == 170
  {
    hide VolumeBytes, TableBytes;
    var parts := [Part("volume", VolumeBytes(OverDeclaredVolume()))];
    assert parts[1..] == [];
    parts
  }

  function OverDeclaredImage(): Segment {
    Write(Physical, 1, OverDeclaredParts())
  }

  lemma OverDeclaredGeometry()
    ensures var seg := OverDeclaredImage();
            && |seg| == 183 && KindOf(seg) == Some(Physical)
            && ReadGeometry(seg, Walk(seg, FILE_HEADER_SIZE)) == Some(OverDeclaredVolume())
  {
    hide ChainBytes, StrictWalk, Walk, VolumeBytes, HeaderBytes, ParseVolume, KindOf;
    var parts, seg := OverDeclaredParts(), OverDeclaredImage();
    WrittenReads(Physical, 1, parts);
    var w := Layout(parts, FILE_HEADER_SIZE);
    assert w[0] == Section("volume", 13, 170);
    TolerantIsStrictPrefix(seg, FILE_HEADER_SIZE);
    BodyWritten(seg, parts, FILE_HEADER_SIZE, 0);
    VolumeParses(OverDeclaredVolume(), VolumeBytes(OverDeclaredVolume()));
  }

  /** Recovery accepts that image, and counts one chunk where the volume declares two. */
  lemma OverDeclaredCounts(z: Inflate, report: Report, bytes: Data)
    ensures Setup(z, [OverDeclaredImage()]).Ok?
    ensures Accounts(Setup(z, [OverDeclaredImage()]).value.AsLedger(), report, bytes) ==>
      && report.chunksTotal == 2
      && report.tally.primary + report.tally.table2 + report.tally.zeroFilled == 1
  {
    hide OverDeclaredImage, ReadGeometry, Walk, KindOf, Accounts;
    OverDeclaredGeometry();
    var ledger := Setup(z, [OverDeclaredImage()]).value.AsLedger();
    if Accounts(ledger, report, bytes) {
      OverDeclaredChunks(ledger.outcome, report, bytes);
    }
  }

  /** The recovery run on that image. */
  method RecoverOverDeclared(z: Inflate, out: Sink) returns (report: Report)
    requires out.bytes == []
    modifies out
    ensures report.chunksTotal == 2 && |out.bytes| == 512
    ensures report.tally.primary + report.tally.table2 + report.tally.zeroFilled == 1
  {
    hide OverDeclaredImage, Accounts, Setup;
    var segments := [OverDeclaredImage()];
    ghost var none: Report := Report(0, 0, 0, Tally(0, 0, 0, 0, 0, 0, [], []), None);
    OverDeclaredCounts(z, none, []);
    var r := RecoverSegments(z, segments, out);
    report := r.value;
    OverDeclaredCounts(z, report, out.bytes);
    OverDeclaredSize(z, report, out.bytes);
  }

  lemma OverDeclaredSize(z: Inflate, report: Report, bytes: Data)
    requires Setup(z, [OverDeclaredImage()]).Ok?
    requires Accounts(Setup(z, [OverDeclaredImage()]).value.AsLedger(), report, bytes)
    ensures |bytes| == 512
  {
    hide OverDeclaredImage, ReadGeometry, Walk, KindOf, Accounts;
    OverDeclaredGeometry();
    RecoveryConserves(Setup(z, [OverDeclaredImage()]).value.AsLedger(), report, bytes);
  }

  // ----- A table that comes before its volume -----

  function OneSectorVolume(): Volume {
    Volume(1, 1, 512, 1)
  }

  /** An uncompressed chunk at the start of the segment. */
  function FirstBytesEntry(): TableEntry {
    TableEntry(false, 0)
  }

  function TableFirstParts(): (parts: seq<Part>)
    ensures |parts| == 2 && Writable(parts) && LengthOf(parts) == 274
    ensures parts[0] == Part("table", TableBytes(0, [FirstBytesEntry()]))
    ensures parts[1] == Part("volume", VolumeBytes(OneSectorVolume()))
  {
    hide VolumeBytes, TableBytes;
    var parts := [Part("table", TableBytes(0, [FirstBytesEntry()])), Part("volume", VolumeBytes(OneSectorVolume()))];
    assert parts[1..] == [parts[1]] && parts[1..][1..] == [];
    parts
  }

  function TableFirstImage(): Segment {
    Write(Physical, 1, TableFirstParts())
  }

  function TableFirstLayout(): seq<Section> {
    [Section("table", 13, 104), Section("volume", 117, 170)]
  }

  lemma TableFirstReads()
    ensures var seg := TableFirstImage();
            && |seg| == 287 && StrictWalk(seg, FILE_HEADER_SIZE) == TableFirstLayout()
            && seg[89..117] == TableBytes(0, [FirstBytesEntry()]) && seg[193..287] == VolumeBytes(OneSectorVolume())
  {
    hide ChainBytes, StrictWalk, VolumeBytes, TableBytes, HeaderBytes, KindOf;
    var parts, seg := TableFirstParts(), TableFirstImage();
    WrittenReads(Physical, 1, parts);
    LayoutOfTwo(parts, FILE_HEADER_SIZE);
    BodyWritten(seg, parts, FILE_HEADER_SIZE, 0);
    BodyWritten(seg, parts, FILE_HEADER_SIZE, 1);
  }

  lemma LayoutOfTwo(parts: seq<Part>, pos: nat)
    requires |parts| == 2 && pos + LengthOf(parts) < U63_LIMIT
    ensures var a := DESCRIPTOR_SIZE + |parts[0].body|;
            Layout(parts, pos) ==
            [Section(parts[0].name, pos, a), Section(parts[1].name, pos + a, DESCRIPTOR_SIZE + |parts[1].body|)]
  {
    var rest := parts[1..];
    assert rest[0] == parts[1] && rest[1..] == [];
  }

  /** The one table of that image, as both opens index it. */
  function TableFirstMeta(): SectionMeta {
    SectionMeta(0, 1, 113, 0, 0, None)
  }

  lemma TableFirstHeader()
    ensures var seg := TableFirstImage();
            && ReadHeader(seg, 0, Section("table", 13, 104), 0, None) == Ok(TableFirstMeta())
            && EntriesPresent(TableFirstMeta(), [seg])
            && SectionKept(TableFirstMeta(), [seg]) == [Located(false, 0)]
  {
    hide StrictWalk, VolumeBytes, TableBytes, ParseTableHeader, ParseEntry, TableFirstImage, WrittenEntry;
    var seg, body := TableFirstImage(), TableBytes(0, [FirstBytesEntry()]);
    TableFirstReads();
    TableParses(0, [FirstBytesEntry()]);
    EntryParses(FirstBytesEntry());
    SliceOfSlice(seg, 89, 117, 0, 24);
    SliceOfSlice(seg, 89, 117, 24, 28);
    assert seg[89..113] == body[..24] && seg[113..117] == body[24..];
    OneEntryKept(seg[113..117], 0);
  }

  /** The entries of a table with one entry that does not overflow. */
  lemma OneEntryKept(entries: Data, base: U64)
    requires |entries| == 4 && Fits(EntryAt(entries, 0), base)
    ensures Kept(entries, 1, base) == [Locate(EntryAt(entries, 0), base)]
    ensures EntryAt(entries, 0) == ParseEntry(entries).value
  {
    assert entries[0..4] == entries;
    assert Kept(entries, 0, base) == [];
  }

  lemma FoundFirst()
    ensures TableType(TableFirstLayout()) == "table" && SectorsEnd(TableFirstLayout()) == None
  {
    var l := TableFirstLayout();
    assert l[1..] == [l[1]] && l[1..][1..] == [];
  }

  /** The state after the table, which met a chunk size that was still zero. */
  function AfterTable(lazy: bool): OpenState {
    if lazy then OpenState(0, 0, [], [TableFirstMeta()], 1, [0])
    else OpenState(0, 0, [NewChunk(0, false, 0, 0)], [], 0, [])
  }

  lemma TableFirstStep(lazy: bool)
    ensures OpenSection(lazy, Initial(), [TableFirstImage()], 0, "table", None, Section("table", 13, 104)) ==
            Ok(AfterTable(lazy))
  {
    hide TableFirstImage, ReadHeader, EntriesPresent, SectionKept, NewChunk;
    var segments := [TableFirstImage()];
    TableFirstHeader();
    var chunks := SectionChunks(TableFirstMeta(), segments, 0);
    assert chunks == [NewChunk(0, false, 0, 0)];
    assert [] + chunks == chunks && [] + [TableFirstMeta()] == [TableFirstMeta()];
    assert Initial().index == [] && Initial().seen + [0] == [0];
  }

  lemma VolumeStep(st: OpenState, seg: Segment, s: Section, v: Volume)
    requires s.offset + DESCRIPTOR_SIZE + VOLUME_READ <= |seg|
    requires ParseVolume(seg[s.offset + DESCRIPTOR_SIZE..s.offset + DESCRIPTOR_SIZE + VOLUME_READ]) == Some(v)
    requires v.ChunkSize() <= MAX_CHUNK_SIZE && v.TotalSize() > 0
    ensures OpenVolume(st, seg, s) == Ok(st.(chunkSize := v.ChunkSize(), totalSize := v.TotalSize()))
  {
    hide ParseVolume;
  }

  /** What each open makes of that image: the eager one sized the chunk with the chunk size in force at the
      table, which was still zero. */
  lemma TableFirstOpens(lazy: bool)
    ensures OpenAll(lazy, [TableFirstImage()]) == Ok(AfterTable(lazy).(chunkSize := 512, totalSize := 512))
  {
    hide TableFirstImage, StrictWalk, OpenVolume, OpenTable, ParseVolume, VolumeBytes;
    var segments, layout := [TableFirstImage()], TableFirstLayout();
    TableFirstReads();
    FoundFirst();
    TableFirstStep(lazy);
    VolumeParses(OneSectorVolume(), VolumeBytes(OneSectorVolume()));
    VolumeStep(AfterTable(lazy), segments[0], layout[1], OneSectorVolume());
    OpenTwo(lazy, Initial(), segments, 0, None, layout);
    OneSegment(lazy, segments);
  }

  lemma OneSegment(lazy: bool, segments: seq<Segment>)
    requires |segments| == 1 && OpenSegment(lazy, Initial(), segments, 0).Ok?
    requires OpenSegment(lazy, Initial(), segments, 0).value.chunkSize != 0
    ensures OpenAll(lazy, segments) == OpenSegment(lazy, Initial(), segments, 0)
  {
    hide OpenSegment;
    var st := OpenSegment(lazy, Initial(), segments, 0).value;
    assert OpenSegments(lazy, st, segments, 1) == Ok(st);
  }

  /** Both opens accept that image, yet its chunk tables differ: the eager one gives the chunk no bytes and
      the lazy one a whole sector. The eager reader serves zeros where the lazy one fails. */
  lemma TablesDiffer(z: Inflate)
    ensures var segments := [TableFirstImage()];
            var e, l := OpenAll(false, segments), OpenAll(true, segments);
            && e.Ok? && l.Ok?
            && e.value.chunks == [NewChunk(0, false, 0, 0)]
            && Lookup(l.value.index, l.value.chunkSize, segments, 0) == Ok(NewChunk(0, false, 0, 512))
            && !Interchangeable(e.value.chunks, l.value.index, l.value.chunkSize, segments)
            && Page(EagerImage(z, segments, e.value, 512), 0) == Ok(Zeros(512))
            && Page(LazyImage(z, segments, l.value, 512), 0) == Err(UnexpectedEof)
  {
    hide TableFirstImage, OpenAll, EntriesPresent, SectionKept, ReadSlice;
    var segments := [TableFirstImage()];
    TableFirstReads();
    TableFirstHeader();
    TableFirstOpens(false);
    TableFirstOpens(true);
    var index := [TableFirstMeta()];
    assert SectionOfChunk(index, 0) == Some(0) by {
      assert Holds(index, 0, 0);
    }
    assert SectionChunks(TableFirstMeta(), segments, 512) == [NewChunk(0, false, 0, 512)];
    assert Lookup(index, 512, segments, 0) == Ok(NewChunk(0, false, 0, 512));
    assert Zeros(0) + Zeros(512) == Zeros(512);
  }

  // ----- A well-formed image, whose one chunk may fall short -----

  /** The one byte of compressed data the image stores. */
  function StoredByte(): Data {
    [0x78]
  }

  /** The compressed chunk at the table's base offset. */
  function CompressedEntry(): TableEntry {
    TableEntry(true, 0)
  }

  function OneChunkParts(): (parts: seq<Part>)
    ensures |parts| == 3 && Writable(parts) && LengthOf(parts) == 351
    ensures parts[0] == Part("volume", VolumeBytes(OneSectorVolume())) && parts[1] == Part("sectors", StoredByte())
    ensures parts[2] == Part("table", TableBytes(259, [CompressedEntry()]))
  {
    hide VolumeBytes, TableBytes;
    var parts := [Part("volume", VolumeBytes(OneSectorVolume())), Part("sectors", StoredByte()),
                  Part("table", TableBytes(259, [CompressedEntry()]))];
    assert parts[1..] == [parts[1], parts[2]] && parts[1..][1..] == [parts[2]] && parts[1..][1..][1..] == [];
    parts
  }

  /** A volume of one sector in one chunk, its single stored byte, and the table that locates it. */
  function OneChunkImage(): Segment {
    Write(Physical, 1, OneChunkParts())
  }

  function OneChunkLayout(): seq<Section> {
    [Section("volume", 13, 170), Section("sectors", 183, 77), Section("table", 260, 104)]
  }

  lemma LayoutOfThree(parts: seq<Part>, pos: nat)
    requires |parts| == 3 && pos + LengthOf(parts) < U63_LIMIT && forall k :: 0 <= k < 3 ==> |parts[k].body| < U32_LIMIT
    ensures var a, b := DESCRIPTOR_SIZE + |parts[0].body|, DESCRIPTOR_SIZE + |parts[1].body|;
            Layout(parts, pos) ==
            [Section(parts[0].name, pos, a), Section(parts[1].name, pos + a, b),
             Section(parts[2].name, pos + a + b, DESCRIPTOR_SIZE + |parts[2].body|)]
  {
    var rest := parts[1..];
    assert rest[0] == parts[1] && rest[1] == parts[2];
    LayoutOfTwo(rest, pos + DESCRIPTOR_SIZE + |parts[0].body|);
  }

  lemma OneChunkReads()
    ensures var seg := OneChunkImage();
            && |seg| == 364 && StrictWalk(seg, FILE_HEADER_SIZE) == OneChunkLayout()
            && seg[89..183] == VolumeBytes(OneSectorVolume()) && seg[259..260] == StoredByte()
            && seg[336..364] == TableBytes(259, [CompressedEntry()])
            && KindOf(seg) == Some(Physical) && KindOf(HeaderOf(seg)) == Some(Physical) && SegmentNumber(seg) == 1
  {
    hide ChainBytes, StrictWalk, VolumeBytes, TableBytes, HeaderBytes, KindOf, StoredByte;
    var parts, seg := OneChunkParts(), OneChunkImage();
    WrittenReads(Physical, 1, parts);
    LayoutOfThree(parts, FILE_HEADER_SIZE);
    BodyWritten(seg, parts, FILE_HEADER_SIZE, 0);
    BodyWritten(seg, parts, FILE_HEADER_SIZE, 1);
    BodyWritten(seg, parts, FILE_HEADER_SIZE, 2);
  }

  lemma OneChunkShape()
    ensures GoodShape(OneChunkImage(), true) && TableSection(OneChunkImage(), true) == Section("table", 260, 104)
    ensures Relevant(StrictWalk(OneChunkImage(), FILE_HEADER_SIZE))[0] == Section("volume", 13, 170)
    ensures SectorsEnd(StrictWalk(OneChunkImage(), FILE_HEADER_SIZE)) == Some(260)
  {
    hide StrictWalk, OneChunkImage;
    OneChunkReads();
    var w := OneChunkLayout();
    assert w[1..] == [w[1], w[2]] && w[1..][1..] == [w[2]] && w[1..][1..][1..] == [];
    assert Relevant([w[2]]) == [w[2]];
    assert Relevant([w[1], w[2]]) == [w[2]];
    assert Relevant(w) == [w[0], w[2]];
    assert Find([w[1], w[2]], {"sectors"}) == Some(w[1]);
  }

  function OneChunkMeta(): SectionMeta {
    SectionMeta(0, 1, 360, 259, 0, Some(260))
  }

  lemma OneChunkTable()
    ensures GoodShape(OneChunkImage(), true) && TableMeta([OneChunkImage()], 0) == Ok(OneChunkMeta())
    ensures EntriesPresent(OneChunkMeta(), [OneChunkImage()])
    ensures SectionKept(OneChunkMeta(), [OneChunkImage()]) == [Located(true, 259)]
  {
    hide StrictWalk, VolumeBytes, TableBytes, ParseTableHeader, ParseEntry, OneChunkImage, WrittenEntry, GoodShape,
         TableSection, SectorsEnd;
    var seg, body := OneChunkImage(), TableBytes(259, [CompressedEntry()]);
    OneChunkReads();
    OneChunkShape();
    TableParses(259, [CompressedEntry()]);
    EntryParses(CompressedEntry());
    SliceOfSlice(seg, 336, 364, 0, 24);
    SliceOfSlice(seg, 336, 364, 24, 28);
    assert seg[336..360] == body[..24] && seg[360..364] == body[24..];
    OneEntryKept(seg[360..364], 259);
  }

  lemma OneChunkGood(z: Inflate)
    requires z(StoredByte()).clean && z(StoredByte()).out != []
    ensures GoodTables(z, [OneChunkImage()], 512)
  {
    hide StrictWalk, OneChunkImage, GoodShape, TableMeta, EntriesPresent, SectionKept, VolumeBytes, TableBytes,
         KindOf, HeaderOf, SegmentNumber;
    OneChunkReads();
    OneChunkTable();
    var segments := [OneChunkImage()];
    assert GoodChunk(z, segments[0], [Located(true, 259)], 0, 260, 512);
    assert GoodTable(z, segments, 0, 512);
  }

  lemma OneChunkVolume()
    ensures GoodShape(OneChunkImage(), true) && VolumeIs(OneChunkImage(), OneSectorVolume())
  {
    hide StrictWalk, OneChunkImage, GoodShape, Relevant, VolumeBytes, TableBytes, ParseVolume, KindOf, HeaderOf,
         SegmentNumber;
    OneChunkReads();
    OneChunkShape();
    VolumeParses(OneSectorVolume(), VolumeBytes(OneSectorVolume()));
  }

  lemma OneChunkTabled(z: Inflate)
    requires GoodTables(z, [OneChunkImage()], 512)
    ensures EntryCounts(z, [OneChunkImage()], 512) == [1] && Tabled(z, [OneChunkImage()], 512, 0)
    ensures MetaAt(z, [OneChunkImage()], 512, 0) == OneChunkMeta()
  {
    hide GoodTables, GoodTable, TableMeta, EntriesPresent, SectionKept, OneChunkImage, GoodShape;
    OneChunkTable();
    assert MetaAt(z, [OneChunkImage()], 512, 0) == OneChunkMeta();
    assert EntriesBefore([1], 0) == 0 && EntriesBefore([1], 1) == 1;
  }

  /** That image is well formed as soon as its stored byte inflates cleanly to something. */
  lemma OneChunkWellFormed(z: Inflate)
    requires z(StoredByte()).clean && z(StoredByte()).out != []
    ensures WellFormedImage(z, [OneChunkImage()], OneSectorVolume())
  {
    hide GoodTables, GoodShape, VolumeIs, OneChunkImage, StrictWalk, Tabled, KindOf, HeaderOf, SegmentNumber,
         VolumeBytes, TableBytes;
    OneChunkReads();
    OneChunkGood(z);
    OneChunkVolume();
    OneChunkTabled(z);
    var segments, v := [OneChunkImage()], OneSectorVolume();
    forall p: nat | p < v.TotalSize()
      ensures InChunk(z, segments, v, p)
    {
      DivModUnique(p, 512, 0, p);
    }
  }

  /** Its chunk is saved with as much of the inflated stream as fills a chunk. */
  lemma OneChunkOutcome(z: Inflate)
    requires WellFormedImage(z, [OneChunkImage()], OneSectorVolume())
    ensures var out := z(StoredByte()).out;
            LedgerOf(z, [OneChunkImage()], OneSectorVolume()).outcome(0) == Saved(out[..Min(|out|, 512)], false, true)
  {
    hide WellFormedImage, GoodTables, GoodTable, TableMeta, GoodShape, OneChunkImage, StrictWalk, EvidenceOf,
         ChunkRange, EntriesPresent, SectionKept, StoredByte, VolumeBytes, TableBytes, KindOf, HeaderOf,
         SegmentNumber, Tabled, LedgerOf;
    var segments, v := [OneChunkImage()], OneSectorVolume();
    OneChunkReads();
    OneChunkTable();
    GoodParts(z, segments, v);
    OneChunkTabled(z);
    assert EntriesBefore([1], 0) == 0;
    OutcomeAtPlace(z, segments, v, 0, 0, 0);
    EvidenceAgrees(z, segments, 512, 0);
    RangeAgrees(OneChunkMeta(), segments, 0, 260);
  }

  lemma OneChunkFull(ledger: Ledger, out: Data)
    requires ledger.chunkSize == 512 && ledger.imageSize == 512 && ledger.chunkCount == 1
    requires ledger.outcome(0) == Saved(out[..Min(|out|, 512)], false, true)
    ensures AllFull(ledger, ledger.Processed()) <==> |out| >= 512
  {
    AtCeil(512, 512, 1);
    assert AllFull(ledger, 1) <==> Full(ledger, 0);
  }

  /** What the digests of that image are digests of depends on how much the stored byte inflates to: the
      media, exactly when it fills the sector. */
  lemma OneChunkHashedIff(z: Inflate)
    requires z(StoredByte()).clean && z(StoredByte()).out != []
    ensures var segments, v := [OneChunkImage()], OneSectorVolume();
            && WellFormedImage(z, segments, v)
            && var m := MediaOf(StrictImage(z, segments, v));
               && m.chunkSize > 0 && m.Readable(0, m.total)
               && (MediaStream(z, segments, v) == m.Slice(0, m.total) <==> |z(StoredByte()).out| >= 512)
  {
    hide WellFormedImage, OneChunkImage, MediaOf, StrictImage, LedgerOf, AllFull, MediaStream, PagedMedia.Slice,
         PagedMedia.Readable, StoredByte;
    var segments, v := [OneChunkImage()], OneSectorVolume();
    OneChunkWellFormed(z);
    OneChunkOutcome(z);
    OneChunkFull(LedgerOf(z, segments, v), z(StoredByte()).out);
    HashedIsMediaIff(z, segments, v);
  }

  /** A decompressor that yields a single byte and ends cleanly. */
  function OneByteOnly(): Inflate {
    (d: Data) => Inflated([7], true)
  }

  /** With it the image is well formed, recovered whole and served whole, and yet what is digested is not
      its media. */
  lemma DigestsDiffer()
    ensures var z, segments, v := OneByteOnly(), [OneChunkImage()], OneSectorVolume();
            && WellFormedImage(z, segments, v)
            && var m := MediaOf(StrictImage(z, segments, v));
               m.chunkSize > 0 && m.Readable(0, m.total) && MediaStream(z, segments, v) != m.Slice(0, m.total)
  {
    hide WellFormedImage, OneChunkImage, MediaOf, StrictImage, MediaStream, PagedMedia.Slice, PagedMedia.Readable;
    OneChunkHashedIff(OneByteOnly());
  }

  // ----- Its table lost, and only the redundant one left -----

  function Table2OnlyParts(): (parts: seq<Part>)
    ensures |parts| == 3 && Writable(parts) && LengthOf(parts) == 351
    ensures parts[0] == Part("volume", VolumeBytes(OneSectorVolume())) && parts[1] == Part("sectors", StoredByte())
    ensures parts[2] == Part("table2", TableBytes(259, [CompressedEntry()]))
  {
    hide VolumeBytes, TableBytes;
    var parts := [Part("volume", VolumeBytes(OneSectorVolume())), Part("sectors", StoredByte()),
                  Part("table2", TableBytes(259, [CompressedEntry()]))];
    assert parts[1..] == [parts[1], parts[2]] && parts[1..][1..] == [parts[2]] && parts[1..][1..][1..] == [];
    parts
  }

  /** The same volume and stored byte, but the only table is called `table2`. */
  function Table2OnlyImage(): Segment {
    Write(Physical, 1, Table2OnlyParts())
  }

  function Table2OnlyLayout(): seq<Section> {
    [Section("volume", 13, 170), Section("sectors", 183, 77), Section("table2", 260, 104)]
  }

  lemma Table2OnlyReads()
    ensures var seg := Table2OnlyImage();
            && |seg| == 364 && Walk(seg, FILE_HEADER_SIZE) == Table2OnlyLayout()
            && seg[89..183] == VolumeBytes(OneSectorVolume()) && seg[259..260] == StoredByte()
            && seg[336..364] == TableBytes(259, [CompressedEntry()]) && KindOf(seg) == Some(Physical)
  {
    hide ChainBytes, StrictWalk, Walk, VolumeBytes, TableBytes, HeaderBytes, KindOf, StoredByte;
    var parts, seg := Table2OnlyParts(), Table2OnlyImage();
    WrittenReads(Physical, 1, parts);
    LayoutOfThree(parts, FILE_HEADER_SIZE);
    BodyWritten(seg, parts, FILE_HEADER_SIZE, 0);
    BodyWritten(seg, parts, FILE_HEADER_SIZE, 1);
    BodyWritten(seg, parts, FILE_HEADER_SIZE, 2);
    TolerantIsStrictPrefix(seg, FILE_HEADER_SIZE);
  }

  lemma Table2OnlyFinds()
    ensures var w := Table2OnlyLayout();
            && Find(w, {"table"}) == None && Find(w, {"table2"}) == Some(w[2]) && Find(w, {"sectors"}) == Some(w[1])
            && Find(w, {"volume", "disk"}) == Some(w[0])
  {
    var w := Table2OnlyLayout();
    assert w[1..] == [w[1], w[2]] && w[1..][1..] == [w[2]];
    assert Find([w[2]], {"table2"}) == Some(w[2]);
    assert Find([w[1], w[2]], {"table2"}) == Some(w[2]);
  }

  /** It can be recovered in full all the same. */
  lemma Table2OnlyRecoverable(z: Inflate)
    requires z(StoredByte()).clean && z(StoredByte()).out != []
    ensures var segments, v, damaged := [OneChunkImage()], OneSectorVolume(), [Table2OnlyImage()];
            && WellFormedImage(z, segments, v) && Recoverable(z, segments, v, damaged)
            && AllGone(z, segments, v, damaged)
  {
    hide WellFormedImage, GoodTables, OneChunkImage, Table2OnlyImage, StrictWalk, Walk, KindOf, VolumeBytes, TableBytes,
         TableMeta, GoodShape, TableSection, SectionKept, StoredByte, EntriesPresent, Find;
    var segments, v, damaged := [OneChunkImage()], OneSectorVolume(), [Table2OnlyImage()];
    OneChunkWellFormed(z);
    GoodParts(z, segments, v);
    OneChunkTabled(z);
    OneChunkReads();
    OneChunkShape();
    OneChunkTable();
    Table2OnlyReads();
    Table2OnlyFinds();
    VolumeFields(Table2OnlyImage(), 89, v);
  }

  /** A table whose one entry points far past the file, and a `table2` that is right. */
  function BadTableParts(): (parts: seq<Part>)
    ensures |parts| == 4 && Writable(parts) && LengthOf(parts) == 455
    ensures parts[0] == Part("volume", VolumeBytes(OneSectorVolume())) && parts[1] == Part("sectors", StoredByte())
    ensures parts[2] == Part("table", TableBytes(0xffff, [CompressedEntry()]))
    ensures parts[3] == Part("table2", TableBytes(259, [CompressedEntry()]))
  {
    hide VolumeBytes, TableBytes;
    var parts := [Part("volume", VolumeBytes(OneSectorVolume())), Part("sectors", StoredByte()),
                  Part("table", TableBytes(0xffff, [CompressedEntry()])),
                  Part("table2", TableBytes(259, [CompressedEntry()]))];
    assert parts[1..] == [parts[1], parts[2], parts[3]] && parts[1..][1..] == [parts[2], parts[3]];
    assert parts[1..][1..][1..] == [parts[3]] && parts[1..][1..][1..][1..] == [];
    parts
  }

  function BadTableImage(): Segment {
    Write(Physical, 1, BadTableParts())
  }

  function BadTableLayout(): seq<Section> {
    [Section("volume", 13, 170), Section("sectors", 183, 77), Section("table", 260, 104), Section("table2", 364, 104)]
  }

  lemma BadTableReads()
    ensures var seg := BadTableImage();
            && |seg| == 468 && Walk(seg, FILE_HEADER_SIZE) == BadTableLayout()
            && seg[89..183] == VolumeBytes(OneSectorVolume()) && seg[259..260] == StoredByte()
            && seg[336..364] == TableBytes(0xffff, [CompressedEntry()])
            && seg[440..468] == TableBytes(259, [CompressedEntry()]) && KindOf(seg) == Some(Physical)
  {
    hide ChainBytes, StrictWalk, Walk, VolumeBytes, TableBytes, HeaderBytes, KindOf, StoredByte;
    var parts, seg := BadTableParts(), BadTableImage();
    WrittenReads(Physical, 1, parts);
    var rest := parts[1..];
    LayoutOfThree(rest, FILE_HEADER_SIZE + 170);
    assert Layout(parts, FILE_HEADER_SIZE) == [Section("volume", 13, 170)] + Layout(rest, FILE_HEADER_SIZE + 170);
    BodyWritten(seg, parts, FILE_HEADER_SIZE, 0);
    BodyWritten(seg, parts, FILE_HEADER_SIZE, 1);
    BodyWritten(seg, parts, FILE_HEADER_SIZE, 2);
    BodyWritten(seg, parts, FILE_HEADER_SIZE, 3);
    TolerantIsStrictPrefix(seg, FILE_HEADER_SIZE);
  }

  lemma BadTableFinds()
    ensures var w := BadTableLayout();
            && Find(w, {"table"}) == Some(w[2]) && Find(w, {"table2"}) == Some(w[3])
            && Find(w, {"sectors"}) == Some(w[1]) && Find(w, {"volume", "disk"}) == Some(w[0])
  {
    var w := BadTableLayout();
    assert w[1..] == [w[1], w[2], w[3]] && w[1..][1..] == [w[2], w[3]] && w[1..][1..][1..] == [w[3]];
    assert Find([w[3]], {"table2"}) == Some(w[3]);
    assert Find([w[2], w[3]], {"table2"}) == Some(w[3]);
    assert Find([w[1], w[2], w[3]], {"table2"}) == Some(w[3]);
    assert Find([w[2], w[3]], {"table"}) == Some(w[2]);
    assert Find([w[1], w[2], w[3]], {"table"}) == Some(w[2]);
  }

  /** Its entry is no use. */
  lemma BadEntry(z: Inflate)
    ensures var seg := BadTableImage();
            && 364 <= |seg| && Le32(seg, 336) == 1 && !Usable(z, seg, 336, 1, 0, 260, 512)
  {
    hide BadTableImage, TableBytes, Le32, ParseEntry, WrittenEntry;
    var seg, body := BadTableImage(), TableBytes(0xffff, [CompressedEntry()]);
    BadTableReads();
    TableParses(0xffff, [CompressedEntry()]);
    assert body[0..28] == body;
    HeaderIs(seg, 336);
    SliceOfSlice(seg, 336, 364, 0, 24);
    assert seg[336..360] == body[..24];
  }

  lemma BadTableRecoverable(z: Inflate)
    requires z(StoredByte()).clean && z(StoredByte()).out != []
    ensures var segments, v, damaged := [OneChunkImage()], OneSectorVolume(), [BadTableImage()];
            && WellFormedImage(z, segments, v) && Recoverable(z, segments, v, damaged)
            && AllGone(z, segments, v, damaged)
  {
    hide WellFormedImage, GoodTables, OneChunkImage, BadTableImage, StrictWalk, Walk, KindOf, VolumeBytes, TableBytes,
         TableMeta, GoodShape, TableSection, SectionKept, StoredByte, EntriesPresent, Find, Usable, Le32, Le64;
    var segments, v, damaged := [OneChunkImage()], OneSectorVolume(), [BadTableImage()];
    OneChunkWellFormed(z);
    GoodParts(z, segments, v);
    OneChunkTabled(z);
    OneChunkReads();
    OneChunkShape();
    OneChunkTable();
    BadTableReads();
    BadTableFinds();
    BadEntry(z);
    VolumeFields(BadTableImage(), 89, v);
  }

  /** Recovering either of the two finds the chunk through `table2`, and loses nothing. */
  method RecoverFromTable2(z: Inflate, noTable: bool, out: Sink) returns (report: Report)
    requires z(StoredByte()).clean && z(StoredByte()).out != [] && out.bytes == []
    modifies out
    ensures report.tally.table2 == 1 && report.tally.primary == 0 && report.tally.zeroFilled == 0
    ensures |out.bytes| == 512
  {
    hide WellFormedImage, Recoverable, AllGone, OneChunkImage, BadTableImage, Table2OnlyImage, StoredByte, MediaOf,
         StrictImage, PagedMedia.Slice, PagedMedia.Readable;
    var damaged := if noTable then Table2OnlyImage() else BadTableImage();
    ghost var segments := [OneChunkImage()];
    if noTable {
      Table2OnlyRecoverable(z);
    } else {
      BadTableRecoverable(z);
    }
    OneChunkSize(z);
    AtCeil(512, 512, 1);
    report := RecoverDamaged(z, segments, OneSectorVolume(), [damaged], out);
  }

  lemma OneChunkSize(z: Inflate)
    requires WellFormedImage(z, [OneChunkImage()], OneSectorVolume())
    ensures MediaOf(StrictImage(z, [OneChunkImage()], OneSectorVolume())).total == 512
  {
    hide WellFormedImage, OneChunkImage;
  }

  /** The geometry, field by field, where a volume body was written. */
  lemma VolumeFields(data: Segment, off: nat, v: Volume)
    requires off + 94 <= |data| && data[off..off + 94] == VolumeBytes(v)
    ensures Le32(data, off + 4) == v.chunkCount && Le32(data, off + 8) == v.sectorsPerChunk
    ensures Le32(data, off + 12) == v.bytesPerSector && Le64(data, off + 16) == v.sectorCount
  {
    hide Le32, Le64, VolumeBytes;
    var b := VolumeBytes(v);
    assert b[..94] == b;
    VolumeParses(v, b);
    SameFields(data, off, b);
  }

  lemma SameFields(data: Segment, off: nat, b: Data)
    requires |b| == 94 && off + 94 <= |data| && data[off..off + 94] == b
    ensures Le32(data, off + 4) == Le32(b, 4) && Le32(data, off + 8) == Le32(b, 8)
    ensures Le32(data, off + 12) == Le32(b, 12) && Le64(data, off + 16) == Le64(b, 16)
  {
    assert b[0..94] == b;
    SameLe32(data, off, b, 0, 94, 4);
    SameLe32(data, off, b, 0, 94, 8);
    SameLe32(data, off, b, 0, 94, 12);
    SameLe32(data, off, b, 0, 94, 16);
    SameLe32(data, off, b, 0, 94, 20);
  }

  // ----- A pattern that is too long to be found -----

  /** One byte more than the search can find. */
  function LongPattern(): (d: Data)
    ensures |d| == 65538
  {
    Zeros(65538)
  }

  /** An image of one compressed chunk that inflates to exactly the pattern. */
  function LongPatternImage(): (img: Image)
    ensures Sound(img) && img.totalSize == img.chunkSize == 65538
  {
    Image((d: Data) => Inflated(LongPattern(), true), [[]], EagerTable([NewChunk(0, true, 0, 0)]), 65538, 65538)
  }

  lemma LongPatternPage(m: PagedMedia)
    requires Serves(m, LongPatternImage())
    ensures m.Readable(0, m.total) && m.Slice(0, m.total) == LongPattern()
  {
    hide LongPattern, PagedMedia.Slice;
    assert LongPattern()[..65538] == LongPattern() && LongPattern() + Zeros(0) == LongPattern();
    assert m.page(0) == Ok(LongPattern());
    DivModUnique(0, 65538, 0, 0);
    PageCovers(m, 0, 65538, 0, 0);
    assert LongPattern()[0..65538] == LongPattern();
  }

  /** The search for that pattern in that image answers that there are no matches, although the media is
      the pattern. */
  method SearchInVain(maxResults: nat) returns (r: Result<seq<nat>>)
    requires maxResults > 0
    ensures r == Ok([])
    ensures forall m :: Serves(m, LongPatternImage()) ==>
      && m.Readable(0, m.total)
      && Hit(m.Slice(0, m.total), LongPattern(), 0) && Naive(m.Slice(0, m.total), LongPattern(), maxResults) != []
  {
    hide LongPattern, LongPatternImage, Page, PagedMedia.Slice, PagedMedia.Readable, EwfReader.Valid, Hit, Hits, Naive;
    var reader := new EwfReader(LongPatternImage(), 0, 0, None, None);
    r := HandleSearch(reader, LongPattern(), maxResults);
    forall m | Serves(m, LongPatternImage())
      ensures m.Readable(0, m.total)
      ensures Hit(m.Slice(0, m.total), LongPattern(), 0) && Naive(m.Slice(0, m.total), LongPattern(), maxResults) != []
    {
      LongPatternHit(m, maxResults);
    }
    LongPatternPage(reader.media);
    if r.Err? {
      ghost var p: nat :| Fails(reader.media, 0, p, reader.media.total, r.error);
      FailsUnreadable(reader.media, 0, p, reader.media.total, r.error);
      assert false;
    }
  }

  lemma LongPatternHit(m: PagedMedia, max: nat)
    requires Serves(m, LongPatternImage()) && max > 0
    ensures m.Readable(0, m.total)
    ensures Hit(m.Slice(0, m.total), LongPattern(), 0) && Naive(m.Slice(0, m.total), LongPattern(), max) != []
  {
    hide LongPatternImage, LongPattern, PagedMedia.Slice, Page;
    LongPatternPage(m);
    var d := LongPattern();
    assert d[0..|d|] == d;
    HitsAreAll(d, d, |d|);
    assert 0 in Hits(d, d, |d|);
  }
}
