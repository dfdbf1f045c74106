/** Recovery through the redundant table: an image whose primary tables are damaged or gone is still
    recovered as the undamaged image would be read. */
module Fallback {
  import opened Bytes
  import opened Adler
  import opened Errors
  import opened Sections
  import opened Walkers
  import opened ChunkTables
  import opened LazyTables
  import opened Media
  import opened Images
  import opened Recover
  import opened RecoverLoop
  import opened WellFormed
  import opened Agreement

  // ----- A table entry, read from the bytes -----

  /** Is entry `l` of the table whose header is at `at` inside the segment? */
  predicate HasEntry(data: Segment, at: nat, l: nat) {
    at + TABLE_HEADER_SIZE + 4 * l + 4 <= |data|
  }

  /** Where the entry's chunk starts: the base offset plus the low 31 bits of the entry. */
  function EntryStart(data: Segment, at: nat, l: nat): U64
    requires HasEntry(data, at, l)
  {
    SatAdd(Le64(data, at + 8), Le32(data, at + TABLE_HEADER_SIZE + 4 * l) % 0x8000_0000)
  }

  /** The top bit of the entry. */
  predicate EntryCompressed(data: Segment, at: nat, l: nat)
    requires HasEntry(data, at, l)
  {
    Le32(data, at + TABLE_HEADER_SIZE + 4 * l) >= 0x8000_0000
  }

  /** Where the chunk of entry `l` of `n` ends: where the next one starts, or at the end of the sectors data. */
  function EntryEnd(data: Segment, at: nat, n: nat, l: nat, end: nat): nat
    requires l + 1 < n ==> HasEntry(data, at, l + 1)
  {
    if l + 1 < n then EntryStart(data, at, l + 1) else end
  }

  /** The entry and the one that ends it are inside the segment. */
  predicate Whole(data: Segment, at: nat, n: nat, l: nat) {
    HasEntry(data, at, l) && (l + 1 < n ==> HasEntry(data, at, l + 1))
  }

  /** Entry `l` leads to a good copy of some chunk: bytes inside the segment that inflate, or that agree
      with their trailing checksum if they have one. */
  predicate Usable(z: Inflate, data: Segment, at: nat, n: nat, l: nat, end: nat, chunkSize: nat) {
    && Whole(data, at, n, l)
    && var lo, hi := EntryStart(data, at, l), EntryEnd(data, at, n, l, end);
       && lo < hi <= |data|
       && if EntryCompressed(data, at, l) then GoodStream(z(data[lo..hi]), chunkSize)
          else hi - lo >= chunkSize + 4 ==>
                 Adler32(data[lo..lo + chunkSize]) == Le32(data, lo + chunkSize)
  }

  /** The reference recovery takes of the table whose header is at `at`. */
  function RefAt(data: Segment, at: nat, n: nat): TableRef
    requires at + TABLE_HEADER_SIZE <= |data|
  {
    TableRef(n, Le64(data, at + 8), at + TABLE_HEADER_SIZE)
  }

  lemma EntryIs(data: Segment, at: nat, n: nat, l: nat)
    requires at + TABLE_HEADER_SIZE <= |data|
    ensures EntryOf(data, RefAt(data, at, n), l) ==
            if HasEntry(data, at, l) then Some(Entry(EntryCompressed(data, at, l), EntryStart(data, at, l))) else None
  {
    var off := at + TABLE_HEADER_SIZE + 4 * l;
    if HasEntry(data, at, l) {
      assert Le32(data[off..off + 4], 0) == Le32(data, off);
    }
  }

  /** The range recovery works out is the one the bytes name. */
  lemma RangeIs(data: Segment, at: nat, n: nat, l: nat, end: nat)
    requires at + TABLE_HEADER_SIZE <= |data| && end <= |data|
    ensures ChunkRange(data, RefAt(data, at, n), l, Some(end)) ==
            if Whole(data, at, n, l) && EntryStart(data, at, l) < EntryEnd(data, at, n, l, end) <= |data|
            then Some(Range(EntryStart(data, at, l), EntryEnd(data, at, n, l, end), EntryCompressed(data, at, l)))
            else None
  {
    hide EntryOf, EntryStart, EntryCompressed;
    EntryIs(data, at, n, l);
    EntryIs(data, at, n, l + 1);
  }

  lemma RawTrailer(data: Segment, lo: nat, hi: nat, chunkSize: nat)
    requires lo <= hi <= |data|
    ensures TrailerOk(data[lo..hi], chunkSize) <==>
            (hi - lo >= chunkSize + 4 ==> Adler32(data[lo..lo + chunkSize]) == Le32(data, lo + chunkSize))
  {
    if hi - lo >= chunkSize + 4 {
      SliceOfSlice(data, lo, hi, 0, chunkSize);
    }
  }

  /** Recovery takes a good copy from a table exactly where an entry is usable. */
  lemma UsableIff(z: Inflate, data: Segment, at: nat, n: nat, l: nat, end: nat, chunkSize: nat)
    requires at + TABLE_HEADER_SIZE <= |data| && end <= |data|
    ensures var r := ChunkRange(data, RefAt(data, at, n), l, Some(end));
            Usable(z, data, at, n, l, end, chunkSize) <==>
            r.Some? && Good(DecodeChunk(z, data[r.value.start..r.value.end], r.value.compressed, chunkSize))
  {
    hide ChunkRange, EntryStart, EntryCompressed, TrailerOk, Adler32;
    RangeIs(data, at, n, l, end);
    if Whole(data, at, n, l) && EntryStart(data, at, l) < EntryEnd(data, at, n, l, end) <= |data| {
      RawTrailer(data, EntryStart(data, at, l), EntryEnd(data, at, n, l, end), chunkSize);
    }
  }

  // ----- A damaged segment beside the undamaged one -----

  /** The header and entries of two tables of `n` entries are the same bytes. */
  predicate SameTable(a: Segment, x: nat, b: Segment, y: nat, n: nat) {
    && x + TABLE_HEADER_SIZE + 4 * n <= |a| && y + TABLE_HEADER_SIZE + 4 * n <= |b|
    && a[x..x + TABLE_HEADER_SIZE + 4 * n] == b[y..y + TABLE_HEADER_SIZE + 4 * n]
  }

  predicate SameBytes(a: Segment, b: Segment, lo: nat, hi: nat) {
    lo <= hi <= |a| && hi <= |b| && a[lo..hi] == b[lo..hi]
  }

  /** Where the table header of a segment of a well-formed image is. */
  ghost function TableAt(z: Inflate, segments: seq<Segment>, chunkSize: nat, k: nat): nat
    requires k < |segments| && GoodTables(z, segments, chunkSize)
  {
    hide GoodTables, GoodShape, TableMeta, EntriesPresent, SectionKept, GoodChunk;
    var m := MetaAt(z, segments, chunkSize, k);
    TableSection(segments[k], k == 0).offset + DESCRIPTOR_SIZE
  }

  /** `damaged` still holds what segment `k` needs: its first `table2` section is a copy of the segment's table,
      its sectors section ends at the same place, and the chunks' bytes are where they were. */
  ghost predicate Mirrors(z: Inflate, segments: seq<Segment>, chunkSize: nat, k: nat, damaged: Segment)
    requires k < |segments| && GoodTables(z, segments, chunkSize)
  {
    var m, w := MetaAt(z, segments, chunkSize, k), Walk(damaged, FILE_HEADER_SIZE);
    var copy, sectors := Find(w, {"table2"}), Find(w, {"sectors"});
    && copy.Some? && sectors.Some?
    && SameTable(segments[k], TableAt(z, segments, chunkSize, k), damaged, copy.value.offset + DESCRIPTOR_SIZE,
                 m.entryCount)
    && SatAdd(sectors.value.offset, sectors.value.size) == m.sectorsEnd.value <= |damaged|
    && forall l :: 0 <= l < m.entryCount ==>
         var kept := SectionKept(m, segments);
         SameBytes(segments[k], damaged, kept[l].offset, RangeEnd(kept, l, m.sectorsEnd.value))
  }

  /** Nothing good can be had from the primary table: there is none, or it is cut off, or it still declares as
      many entries as it should and none of them is usable. */
  ghost predicate PrimaryGone(z: Inflate, damaged: Segment, n: nat, end: nat, chunkSize: nat) {
    var table := Find(Walk(damaged, FILE_HEADER_SIZE), {"table"});
    table.Some? ==>
      var at := table.value.offset + DESCRIPTOR_SIZE;
      at + TABLE_HEADER_SIZE <= |damaged| ==>
        Le32(damaged, at) == n && forall l :: 0 <= l < n ==> !Usable(z, damaged, at, n, l, end, chunkSize)
  }

  /** Entry by entry, the primary table is either unusable or still says what it should. */
  ghost predicate PrimaryPartial(z: Inflate, segments: seq<Segment>, chunkSize: nat, k: nat, damaged: Segment)
    requires k < |segments| && GoodTables(z, segments, chunkSize)
  {
    var m := MetaAt(z, segments, chunkSize, k);
    var n, end, table := m.entryCount, m.sectorsEnd.value, Find(Walk(damaged, FILE_HEADER_SIZE), {"table"});
    table.Some? ==>
      var at := table.value.offset + DESCRIPTOR_SIZE;
      at + TABLE_HEADER_SIZE <= |damaged| ==>
        && Le32(damaged, at) == n
        && forall l :: 0 <= l < n && Usable(z, damaged, at, n, l, end, chunkSize) ==>
             var kept := SectionKept(m, segments);
             && EntryStart(damaged, at, l) == kept[l].offset && EntryCompressed(damaged, at, l) == kept[l].compressed
             && EntryEnd(damaged, at, n, l, end) == RangeEnd(kept, l, end)
  }

  // ----- What recovery makes of it -----

  /** A table section, as recovery refers to it. */
  lemma TableRefIs(data: Segment, name: string)
    ensures var w := Walk(data, FILE_HEADER_SIZE);
            var s := Find(w, {name});
            && (s.Some? ==> s.value.offset + DESCRIPTOR_SIZE <= |data|)
            && TableRefOf(data, w, name) ==
               if s.None? || s.value.offset + DESCRIPTOR_SIZE + TABLE_HEADER_SIZE > |data| then None
               else
                 var at := s.value.offset + DESCRIPTOR_SIZE;
                 Some(RefAt(data, at, Le32(data, at)))
  {
    hide Walk, TableRefOf, RefAt, Find;
    WalkAscending(data, FILE_HEADER_SIZE);
    var s := Find(Walk(data, FILE_HEADER_SIZE), {name});
    if s.Some? {
      FoundRef(data, Walk(data, FILE_HEADER_SIZE), name, s.value);
    } else {
      NoRef(data, Walk(data, FILE_HEADER_SIZE), name);
    }
  }

  lemma NoRef(data: Segment, w: seq<Section>, name: string)
    requires Find(w, {name}).None?
    ensures TableRefOf(data, w, name) == None
  {
  }

  lemma FoundRef(data: Segment, w: seq<Section>, name: string, s: Section)
    requires Find(w, {name}) == Some(s) && s.offset + DESCRIPTOR_SIZE <= |data|
    ensures TableRefOf(data, w, name) ==
            var at := s.offset + DESCRIPTOR_SIZE;
            if at + TABLE_HEADER_SIZE > |data| then None else Some(RefAt(data, at, Le32(data, at)))
  {
    hide ParseTableHeader, Le32, Le64, Find;
    if s.offset + DESCRIPTOR_SIZE + TABLE_HEADER_SIZE <= |data| {
      HeaderIs(data, s.offset + DESCRIPTOR_SIZE);
    }
  }

  lemma HeaderIs(data: Segment, at: nat)
    requires at + TABLE_HEADER_SIZE <= |data|
    ensures ParseTableHeader(data[at..at + TABLE_HEADER_SIZE]) == Some(TableHeader(Le32(data, at), Le64(data, at + 8)))
  {
    var h := data[at..at + TABLE_HEADER_SIZE];
    assert Le32(h, 0) == Le32(data, at) && Le64(h, 8) == Le64(data, at + 8);
  }

  /** What entry `l` of a table yields, from the bytes: nothing when its bytes are not all in the segment or do
      not inflate to anything usable; otherwise up to a chunk of them, suspect only when an uncompressed chunk
      disagrees with the checksum behind it. */
  ghost predicate Yields(z: Inflate, data: Segment, at: nat, n: nat, l: nat, end: nat, chunkSize: nat,
                         copy: Option<Decoded>) {
    if !Whole(data, at, n, l) || EntryStart(data, at, l) >= EntryEnd(data, at, n, l, end)
       || EntryEnd(data, at, n, l, end) > |data| then copy == None
    else
      var raw := data[EntryStart(data, at, l)..EntryEnd(data, at, n, l, end)];
      var out := if EntryCompressed(data, at, l) then z(raw).out else raw;
      && (copy.None? <==> EntryCompressed(data, at, l) && |out| <= chunkSize && (!z(raw).clean || out == []))
      && (copy.Some? ==>
           && |copy.value.bytes| == Min(|out|, chunkSize)
           && (forall i :: 0 <= i < |copy.value.bytes| ==> copy.value.bytes[i] == out[i])
           && (copy.value.crcOk <==> EntryCompressed(data, at, l) || |raw| < chunkSize + 4
                                     || Adler32(raw[..chunkSize]) == Le32(raw, chunkSize)))
  }

  /** Where the last chunk of a segment ends: with the sectors section, or with the segment if it has none. */
  function DataEnd(data: Segment): nat {
    var s := Find(Walk(data, FILE_HEADER_SIZE), {"sectors"});
    if s.None? then |data| else Min(SatAdd(s.value.offset, s.value.size), |data|)
  }

  /** Of any segment at all: recovery's primary copy of a chunk is what the first `table` section on the walk
      yields, and its redundant copy what the first `table2` section does. */
  lemma CopiesAre(z: Inflate, data: Segment, redundant: bool, l: nat, chunkSize: nat)
    ensures var s := Find(Walk(data, FILE_HEADER_SIZE), {if redundant then "table2" else "table"});
            var e := EvidenceOf(data);
            var copy := e.DecodeFrom(z, if redundant then e.fallback else e.primary, l, chunkSize);
            if s.None? || s.value.offset + DESCRIPTOR_SIZE + TABLE_HEADER_SIZE > |data| then copy == None
            else
              var at := s.value.offset + DESCRIPTOR_SIZE;
              Yields(z, data, at, Le32(data, at), l, DataEnd(data), chunkSize, copy)
  {
    hide Walk, Find, TableRefOf, RefAt, ChunkRange, DecodeChunk, EntryStart, EntryEnd, EntryCompressed, Whole, Yields,
         Le32;
    TableRefIs(data, if redundant then "table2" else "table");
    var s := Find(Walk(data, FILE_HEADER_SIZE), {if redundant then "table2" else "table"});
    if s.Some? && s.value.offset + DESCRIPTOR_SIZE + TABLE_HEADER_SIZE <= |data| {
      var at := s.value.offset + DESCRIPTOR_SIZE;
      YieldsDecoded(z, data, at, Le32(data, at), l, EvidenceOf(data).sectorsEnd, chunkSize);
    }
  }

  lemma YieldsDecoded(z: Inflate, data: Segment, at: nat, n: nat, l: nat, sectorsEnd: Option<nat>, chunkSize: nat)
    requires at + TABLE_HEADER_SIZE <= |data| && (sectorsEnd.Some? ==> sectorsEnd.value <= |data|)
    ensures var end := if sectorsEnd.None? then |data| else sectorsEnd.value;
            var r := ChunkRange(data, RefAt(data, at, n), l, sectorsEnd);
            Yields(z, data, at, n, l, end, chunkSize,
                   if r.None? then None
                   else DecodeChunk(z, data[r.value.start..r.value.end], r.value.compressed, chunkSize))
  {
    hide EntryStart, EntryCompressed, RefAt, EntryOf, Adler32, Le32;
    RangeIs(data, at, n, l, if sectorsEnd.None? then |data| else sectorsEnd.value);
  }

  /** How many chunks a segment counts for: as many as its `table` declares, or else its `table2`. */
  lemma EntriesCounted(data: Segment)
    ensures var w := Walk(data, FILE_HEADER_SIZE);
            var t, t2 := Find(w, {"table"}), Find(w, {"table2"});
            EvidenceOf(data).Entries() ==
            if t.Some? && t.value.offset + DESCRIPTOR_SIZE + TABLE_HEADER_SIZE <= |data| then
              Le32(data, t.value.offset + DESCRIPTOR_SIZE)
            else if t2.Some? && t2.value.offset + DESCRIPTOR_SIZE + TABLE_HEADER_SIZE <= |data| then
              Le32(data, t2.value.offset + DESCRIPTOR_SIZE)
            else 0
  {
    hide Walk, Find, TableRefOf, Le32, SectorsDataEnd;
    TableRefIs(data, "table");
    TableRefIs(data, "table2");
  }

  /** Equal table bytes give equal entries. */
  lemma SameEntries(a: Segment, x: nat, b: Segment, y: nat, n: nat, l: nat)
    requires SameTable(a, x, b, y, n) && l < n
    ensures HasEntry(a, x, l) && HasEntry(b, y, l)
    ensures EntryStart(a, x, l) == EntryStart(b, y, l) && EntryCompressed(a, x, l) == EntryCompressed(b, y, l)
    ensures Le32(a, x) == Le32(b, y) && Le64(a, x + 8) == Le64(b, y + 8)
  {
    hide Le32;
    var i, len := TABLE_HEADER_SIZE + 4 * l, TABLE_HEADER_SIZE + 4 * n;
    SameLe32(a, x, b, y, len, 0);
    SameLe32(a, x, b, y, len, 8);
    SameLe32(a, x, b, y, len, 12);
    SameLe32(a, x, b, y, len, i);
  }

  lemma SameLe32(a: Data, x: nat, b: Data, y: nat, n: nat, i: nat)
    requires x + n <= |a| && y + n <= |b| && a[x..x + n] == b[y..y + n] && i + 4 <= n
    ensures Le32(a, x + i) == Le32(b, y + i)
  {
    var s := a[x..x + n];
    assert s[i] == a[x + i] && s[i + 1] == a[x + i + 1] && s[i + 2] == a[x + i + 2] && s[i + 3] == a[x + i + 3];
    assert s[i] == b[y + i] && s[i + 1] == b[y + i + 1] && s[i + 2] == b[y + i + 2] && s[i + 3] == b[y + i + 3];
  }

  /** The index entry of a segment's table, read from the bytes. */
  lemma MetaIs(z: Inflate, segments: seq<Segment>, chunkSize: nat, k: nat)
    requires k < |segments| && GoodTables(z, segments, chunkSize)
    ensures var m, at := MetaAt(z, segments, chunkSize, k), TableAt(z, segments, chunkSize, k);
            && at + TABLE_HEADER_SIZE + 4 * m.entryCount <= |segments[k]|
            && RefOf(m) == RefAt(segments[k], at, m.entryCount) && m.entryCount == Le32(segments[k], at)
            && m.sectorsEnd.Some? && m.sectorsEnd.value <= |segments[k]|
  {
    hide GoodTables, GoodShape, SectionKept, GoodChunk, Le32, Le64, ParseTableHeader;
    var m, at := MetaAt(z, segments, chunkSize, k), TableAt(z, segments, chunkSize, k);
    HeaderIs(segments[k], at);
  }

  /** Where the chunk of entry `l` is, on the undamaged segment. */
  lemma EntryLeads(z: Inflate, segments: seq<Segment>, chunkSize: nat, k: nat, l: nat)
    requires k < |segments| && GoodTables(z, segments, chunkSize) && l < MetaAt(z, segments, chunkSize, k).entryCount
    ensures var m, at := MetaAt(z, segments, chunkSize, k), TableAt(z, segments, chunkSize, k);
            var n, kept, end := m.entryCount, SectionKept(m, segments), m.sectorsEnd.value;
            && end <= |segments[k]| && Whole(segments[k], at, n, l)
            && ChunkRange(segments[k], RefOf(m), l, Some(end)) ==
               Some(Range(kept[l].offset, RangeEnd(kept, l, end), kept[l].compressed))
            && EntryStart(segments[k], at, l) == kept[l].offset
            && EntryCompressed(segments[k], at, l) == kept[l].compressed
            && EntryEnd(segments[k], at, n, l, end) == RangeEnd(kept, l, end)
  {
    hide GoodTables, GoodShape, SectionKept, TableMeta, EntriesPresent, EntryStart, EntryCompressed, RangeEnd,
         ChunkRange, TableAt, RefAt, RefOf;
    var m, at := MetaAt(z, segments, chunkSize, k), TableAt(z, segments, chunkSize, k);
    MetaIs(z, segments, chunkSize, k);
    assert GoodChunk(z, segments[k], SectionKept(m, segments), l, m.sectorsEnd.value, chunkSize);
    RangeAgrees(m, segments, l, m.sectorsEnd.value);
    RangeIs(segments[k], at, m.entryCount, l, m.sectorsEnd.value);
  }

  /** The copy of chunk `l` that recovery takes from the undamaged segment. */
  ghost function IntactCopy(z: Inflate, segments: seq<Segment>, chunkSize: nat, k: nat, l: nat): Option<Decoded>
    requires k < |segments|
  {
    var e := EvidenceOf(segments[k]);
    e.DecodeFrom(z, e.primary, l, chunkSize)
  }

  lemma IntactIs(z: Inflate, segments: seq<Segment>, chunkSize: nat, k: nat, l: nat)
    requires k < |segments| && GoodTables(z, segments, chunkSize) && l < MetaAt(z, segments, chunkSize, k).entryCount
    ensures var m := MetaAt(z, segments, chunkSize, k);
            var kept := SectionKept(m, segments);
            var lo, hi := kept[l].offset, RangeEnd(kept, l, m.sectorsEnd.value);
            && lo <= hi <= |segments[k]|
            && IntactCopy(z, segments, chunkSize, k, l) ==
               DecodeChunk(z, segments[k][lo..hi], kept[l].compressed, chunkSize)
  {
    hide GoodTables, GoodShape, SectionKept, TableMeta, EntriesPresent, EntryStart, EntryCompressed, RangeEnd,
         ChunkRange, TableAt, RefOf, EvidenceOf, DecodeChunk;
    EvidenceAgrees(z, segments, chunkSize, k);
    EntryLeads(z, segments, chunkSize, k, l);
  }

  lemma DamagedEnd(z: Inflate, segments: seq<Segment>, chunkSize: nat, k: nat, damaged: Segment)
    requires k < |segments| && GoodTables(z, segments, chunkSize) && Mirrors(z, segments, chunkSize, k, damaged)
    ensures EvidenceOf(damaged).data == damaged
    ensures EvidenceOf(damaged).sectorsEnd == MetaAt(z, segments, chunkSize, k).sectorsEnd
  {
    hide GoodTables, GoodShape, SectionKept, TableMeta, EntriesPresent, Walk, TableRefOf, SameTable, SameBytes,
         TableAt;
  }

  /** The redundant table gives the very copy the primary one gave. */
  lemma MirrorCopy(z: Inflate, segments: seq<Segment>, chunkSize: nat, k: nat, damaged: Segment, l: nat)
    requires k < |segments| && GoodTables(z, segments, chunkSize) && Mirrors(z, segments, chunkSize, k, damaged)
    requires l < MetaAt(z, segments, chunkSize, k).entryCount
    ensures var e := EvidenceOf(damaged);
            e.DecodeFrom(z, e.fallback, l, chunkSize) == IntactCopy(z, segments, chunkSize, k, l)
  {
    hide GoodTables, GoodShape, SectionKept, TableMeta, EntriesPresent, EntryStart, EntryCompressed, RangeEnd,
         ChunkRange, TableAt, RefOf, RefAt, DecodeChunk, IntactCopy, Walk, TableRefOf, SectorsDataEnd, SameTable;
    var m, at := MetaAt(z, segments, chunkSize, k), TableAt(z, segments, chunkSize, k);
    var copy := Find(Walk(damaged, FILE_HEADER_SIZE), {"table2"}).value;
    var at', n, end := copy.offset + DESCRIPTOR_SIZE, m.entryCount, m.sectorsEnd.value;
    IntactIs(z, segments, chunkSize, k, l);
    EntryLeads(z, segments, chunkSize, k, l);
    MetaIs(z, segments, chunkSize, k);
    DamagedEnd(z, segments, chunkSize, k, damaged);
    TableRefIs(damaged, "table2");
    SameRanges(segments[k], at, damaged, at', n, l, end);
  }

  lemma SameRanges(a: Segment, x: nat, b: Segment, y: nat, n: nat, l: nat, end: nat)
    requires SameTable(a, x, b, y, n) && l < n && end <= |a| && end <= |b|
    requires EntryStart(a, x, l) < EntryEnd(a, x, n, l, end) <= |b|
    ensures y + TABLE_HEADER_SIZE <= |b| && Le32(a, x) == Le32(b, y)
    ensures ChunkRange(b, RefAt(b, y, n), l, Some(end)) ==
            Some(Range(EntryStart(a, x, l), EntryEnd(a, x, n, l, end), EntryCompressed(a, x, l)))
  {
    hide EntryStart, EntryCompressed, ChunkRange;
    SameEntries(a, x, b, y, n, l);
    if l + 1 < n {
      SameEntries(a, x, b, y, n, l + 1);
    }
    RangeIs(b, y, n, l, end);
  }

  /** The primary table gives that copy or no good one; none at all when nothing good is left in it. */
  lemma PrimaryGives(z: Inflate, segments: seq<Segment>, chunkSize: nat, k: nat, damaged: Segment, l: nat)
    requires k < |segments| && GoodTables(z, segments, chunkSize) && Mirrors(z, segments, chunkSize, k, damaged)
    requires l < MetaAt(z, segments, chunkSize, k).entryCount
    requires PrimaryPartial(z, segments, chunkSize, k, damaged)
    ensures var e := EvidenceOf(damaged);
            var p := e.DecodeFrom(z, e.primary, l, chunkSize);
            Good(p) ==> p == IntactCopy(z, segments, chunkSize, k, l)
    ensures var m, e := MetaAt(z, segments, chunkSize, k), EvidenceOf(damaged);
            PrimaryGone(z, damaged, m.entryCount, m.sectorsEnd.value, chunkSize) ==>
              !Good(e.DecodeFrom(z, e.primary, l, chunkSize))
  {
    hide GoodTables, GoodShape, SectionKept, TableMeta, EntriesPresent, EntryStart, EntryCompressed, RangeEnd,
         ChunkRange, TableAt, RefOf, RefAt, DecodeChunk, IntactCopy, Walk, TableRefOf, SectorsDataEnd, SameTable,
         Usable;
    var m := MetaAt(z, segments, chunkSize, k);
    var n, end := m.entryCount, m.sectorsEnd.value;
    IntactIs(z, segments, chunkSize, k, l);
    DamagedEnd(z, segments, chunkSize, k, damaged);
    TableRefIs(damaged, "table");
    var table := Find(Walk(damaged, FILE_HEADER_SIZE), {"table"});
    if table.Some? {
      var at := table.value.offset + DESCRIPTOR_SIZE;
      if at + TABLE_HEADER_SIZE <= |damaged| {
        UsableIff(z, damaged, at, n, l, end, chunkSize);
        if Usable(z, damaged, at, n, l, end, chunkSize) {
          UsableRange(z, damaged, at, n, l, end, chunkSize);
        }
      }
    }
  }

  lemma UsableRange(z: Inflate, data: Segment, at: nat, n: nat, l: nat, end: nat, chunkSize: nat)
    requires at + TABLE_HEADER_SIZE <= |data| && end <= |data| && Usable(z, data, at, n, l, end, chunkSize)
    ensures ChunkRange(data, RefAt(data, at, n), l, Some(end)) ==
            Some(Range(EntryStart(data, at, l), EntryEnd(data, at, n, l, end), EntryCompressed(data, at, l)))
  {
    hide EntryStart, EntryCompressed, ChunkRange, RefAt;
    RangeIs(data, at, n, l, end);
  }

  // ----- The whole image -----

  /** A damaged copy of a well-formed image that can still be recovered in full: it announces the same kind and
      geometry, every segment mirrors its table, and no primary table leads to a good copy of the wrong bytes. */
  ghost predicate Recoverable(z: Inflate, segments: seq<Segment>, v: Volume, damaged: seq<Segment>)
    requires WellFormedImage(z, segments, v)
  {
    && |damaged| == |segments|
    && |damaged[0]| >= FILE_HEADER_SIZE && KindOf(damaged[0]) == Some(Physical)
    && HoldsGeometry(damaged[0], v)
    && forall k :: 0 <= k < |segments| ==>
         && Mirrors(z, segments, v.ChunkSize(), k, damaged[k])
         && PrimaryPartial(z, segments, v.ChunkSize(), k, damaged[k])
  }

  /** The first volume section on the walk holds that geometry. */
  ghost predicate HoldsGeometry(data: Segment, v: Volume) {
    var s := Find(Walk(data, FILE_HEADER_SIZE), {"volume", "disk"});
    && s.Some? && s.value.size >= DESCRIPTOR_SIZE + VOLUME_MIN
    && var off := s.value.offset + DESCRIPTOR_SIZE;
       && off + VOLUME_MIN <= |data|
       && Le32(data, off + 4) == v.chunkCount && Le32(data, off + 8) == v.sectorsPerChunk
       && Le32(data, off + 12) == v.bytesPerSector && Le64(data, off + 16) == v.sectorCount
  }

  /** And no primary table leads to anything good at all. */
  ghost predicate AllGone(z: Inflate, segments: seq<Segment>, v: Volume, damaged: seq<Segment>)
    requires WellFormedImage(z, segments, v) && |damaged| == |segments|
  {
    forall k :: 0 <= k < |segments| ==>
      var m := MetaAt(z, segments, v.ChunkSize(), k);
      PrimaryGone(z, damaged[k], m.entryCount, m.sectorsEnd.value, v.ChunkSize())
  }

  lemma GeometryIs(data: Segment, v: Volume)
    requires HoldsGeometry(data, v) && 0 < v.sectorsPerChunk && 0 < v.bytesPerSector
    ensures ReadGeometry(data, Walk(data, FILE_HEADER_SIZE)) == Some(v)
  {
    hide Walk, ParseVolume, Find;
    var s := Find(Walk(data, FILE_HEADER_SIZE), {"volume", "disk"}).value;
    var off := s.offset + DESCRIPTOR_SIZE;
    var end := Min(SatAdd(off, SatSub(s.size, DESCRIPTOR_SIZE)), |data|);
    VolumeBytesAre(data, off, end, v);
  }

  lemma VolumeBytesAre(data: Segment, off: nat, end: nat, v: Volume)
    requires off + VOLUME_MIN <= end <= |data|
    requires Le32(data, off + 4) == v.chunkCount && Le32(data, off + 8) == v.sectorsPerChunk
    requires Le32(data, off + 12) == v.bytesPerSector && Le64(data, off + 16) == v.sectorCount
    ensures ParseVolume(data[off..end]) == Some(v)
  {
    var b := data[off..end];
    assert Le32(b, 4) == Le32(data, off + 4) && Le32(b, 8) == Le32(data, off + 8);
    assert Le32(b, 12) == Le32(data, off + 12) && Le64(b, 16) == Le64(data, off + 16);
  }

  /** Recovery starts exactly on a physical image whose first segment holds usable geometry, chunks of at most 64 MiB,
      and then with that geometry. */
  lemma StartsIff(z: Inflate, segments: seq<Segment>, v: Volume)
    ensures Setup(z, segments).Ok? && ReadGeometry(segments[0], Walk(segments[0], FILE_HEADER_SIZE)) == Some(v) <==>
            && segments != [] && |segments[0]| >= 13
            && segments[0][..8] == ['E' as int, 'V' as int, 'F' as int, 0x09, 0x0d, 0x0a, 0xff, 0x00]
            && HoldsGeometry(segments[0], v)
            && v.sectorsPerChunk > 0 && v.bytesPerSector > 0 && v.sectorsPerChunk * v.bytesPerSector <= 0x400_0000
    ensures Setup(z, segments).Ok? ==>
              exists u :: ReadGeometry(segments[0], Walk(segments[0], FILE_HEADER_SIZE)) == Some(u)
    ensures Setup(z, segments).Ok? && HoldsGeometry(segments[0], v) ==>
              Setup(z, segments) == Ok(DamagedJob(z, v, segments))
  {
    hide Walk, AllEvidence, ReadGeometry;
    if segments != [] {
      GeometryOnly(segments[0], v);
      KindIs(segments[0]);
    }
  }

  lemma KindIs(data: Segment)
    ensures KindOf(data) == Some(Physical) <==>
            |data| >= 8 && data[..8] == ['E' as int, 'V' as int, 'F' as int, 0x09, 0x0d, 0x0a, 0xff, 0x00]
  {
  }

  lemma GeometryOnly(data: Segment, v: Volume)
    ensures var g := ReadGeometry(data, Walk(data, FILE_HEADER_SIZE));
            && (g == Some(v) <==> HoldsGeometry(data, v) && 0 < v.sectorsPerChunk && 0 < v.bytesPerSector)
            && (g.Some? && HoldsGeometry(data, v) ==> g == Some(v))
  {
    hide Walk, ParseVolume, Find, Le32, Le64;
    WalkAscending(data, FILE_HEADER_SIZE);
    var s := Find(Walk(data, FILE_HEADER_SIZE), {"volume", "disk"});
    if s.Some? && s.value.size >= DESCRIPTOR_SIZE + VOLUME_MIN
       && s.value.offset + DESCRIPTOR_SIZE + VOLUME_MIN <= |data| {
      var off := s.value.offset + DESCRIPTOR_SIZE;
      var end := Min(SatAdd(off, SatSub(s.value.size, DESCRIPTOR_SIZE)), |data|);
      var u := Volume(Le32(data, off + 4), Le32(data, off + 8), Le32(data, off + 12), Le64(data, off + 16));
      VolumeBytesAre(data, off, end, u);
    }
  }

  ghost function DamagedJob(z: Inflate, v: Volume, damaged: seq<Segment>): Job {
    Job(z, AllEvidence(damaged), v.ChunkSize(), v.TotalSize(), v.chunkCount)
  }

  lemma DamagedOpens(z: Inflate, segments: seq<Segment>, v: Volume, damaged: seq<Segment>)
    requires WellFormedImage(z, segments, v) && Recoverable(z, segments, v, damaged)
    ensures |damaged| == |segments| && Setup(z, damaged) == Ok(DamagedJob(z, v, damaged))
  {
    hide GoodTables, GoodShape, VolumeIs, ReadGeometry, Walk, Mirrors, PrimaryPartial, HoldsGeometry, InChunk,
         InOrder, KindOf;
    GeometryIs(damaged[0], v);
  }

  lemma SameCounts(z: Inflate, segments: seq<Segment>, v: Volume, damaged: seq<Segment>)
    requires WellFormedImage(z, segments, v) && Recoverable(z, segments, v, damaged)
    ensures DamagedJob(z, v, damaged).Counts() == JobOf(z, segments, v).Counts()
  {
    hide WellFormedImage, Mirrors, PrimaryPartial, GoodTables, HoldsGeometry, EvidenceOf, Evidence.Entries, KindOf;
    GoodParts(z, segments, v);
    CountsAgree(z, segments, v);
    forall k | 0 <= k < |segments|
      ensures EvidenceOf(damaged[k]).Entries() == MetaAt(z, segments, v.ChunkSize(), k).entryCount
    {
      EntriesAre(z, segments, v.ChunkSize(), k, damaged[k]);
    }
  }

  lemma EntriesAre(z: Inflate, segments: seq<Segment>, chunkSize: nat, k: nat, damaged: Segment)
    requires k < |segments| && GoodTables(z, segments, chunkSize) && Mirrors(z, segments, chunkSize, k, damaged)
    requires PrimaryPartial(z, segments, chunkSize, k, damaged)
    ensures EvidenceOf(damaged).Entries() == MetaAt(z, segments, chunkSize, k).entryCount
  {
    hide GoodTables, GoodShape, SectionKept, TableMeta, EntriesPresent, Walk, TableRefOf, SectorsDataEnd, TableAt,
         Usable, EntryStart, EntryEnd, EntryCompressed, Le32, Le64, SameBytes;
    var m := MetaAt(z, segments, chunkSize, k);
    MetaIs(z, segments, chunkSize, k);
    TableRefIs(damaged, "table");
    TableRefIs(damaged, "table2");
    var y := Find(Walk(damaged, FILE_HEADER_SIZE), {"table2"}).value.offset + DESCRIPTOR_SIZE;
    SameHeader(segments[k], TableAt(z, segments, chunkSize, k), damaged, y, m.entryCount);
  }

  lemma SameHeader(a: Segment, x: nat, b: Segment, y: nat, n: nat)
    requires SameTable(a, x, b, y, n)
    ensures Le32(a, x) == Le32(b, y)
  {
    SameLe32(a, x, b, y, TABLE_HEADER_SIZE + 4 * n, 0);
  }

  /** Every chunk comes out with the bytes it has on the undamaged image. */
  lemma DamagedOutcome(z: Inflate, segments: seq<Segment>, v: Volume, damaged: seq<Segment>, idx: nat)
    requires WellFormedImage(z, segments, v) && Recoverable(z, segments, v, damaged)
    requires idx < CeilDiv(v.TotalSize(), v.ChunkSize())
    ensures var o, o' := JobOf(z, segments, v).OutcomeOf(idx), DamagedJob(z, v, damaged).OutcomeOf(idx);
            && o.Saved? && o.crcOk && o'.Saved? && o'.crcOk && o'.bytes == o.bytes
            && (AllGone(z, segments, v, damaged) ==> o'.viaTable2)
  {
    hide WellFormedImage, Mirrors, PrimaryPartial, PrimaryGone, GoodTables, HoldsGeometry, EvidenceOf,
         Evidence.Entries, KindOf, CeilDiv, Evidence.DecodeFrom, EntriesBefore, PlaceOf;
    GoodParts(z, segments, v);
    OutcomeAgrees(z, segments, v, idx);
    SameCounts(z, segments, v, damaged);
    CountsAgree(z, segments, v);
    var cs, job, job' := v.ChunkSize(), JobOf(z, segments, v), DamagedJob(z, v, damaged);
    var place := PlaceOf(job.Counts(), idx).value;
    var k, l := place.segment, place.local;
    MirrorCopy(z, segments, cs, k, damaged[k], l);
    PrimaryGives(z, segments, cs, k, damaged[k], l);
    CopiesOf(job, idx, place);
    CopiesOf(job', idx, place);
    ChosenFrom(job.PrimaryCopy(idx), job.Table2Copy(idx), job'.PrimaryCopy(idx), job'.Table2Copy(idx));
  }

  lemma CopiesOf(job: Job, idx: nat, place: Place)
    requires PlaceOf(job.Counts(), idx) == Some(place)
    ensures place.segment < |job.evidence|
    ensures var e := job.evidence[place.segment];
            && job.PrimaryCopy(idx) == e.DecodeFrom(job.z, e.primary, place.local, job.chunkSize)
            && job.Table2Copy(idx) == e.DecodeFrom(job.z, e.fallback, place.local, job.chunkSize)
  {
    hide PlaceFrom, Evidence.DecodeFrom;
  }

  /** A chunk that came good from its primary copy still comes out the same when the redundant copy is that copy and
      the primary one is that copy or not good. */
  lemma ChosenFrom(p: Option<Decoded>, t: Option<Decoded>, p': Option<Decoded>, t': Option<Decoded>)
    requires Choose(p, t).Saved? && Choose(p, t).crcOk && !Choose(p, t).viaTable2
    requires t' == p && (Good(p') ==> p' == p)
    ensures Choose(p', t').Saved? && Choose(p', t').crcOk && Choose(p', t').bytes == Choose(p, t).bytes
    ensures !Good(p') ==> Choose(p', t').viaTable2
  {
  }

  lemma DamagedPage(z: Inflate, segments: seq<Segment>, v: Volume, damaged: seq<Segment>, idx: nat)
    requires WellFormedImage(z, segments, v) && Recoverable(z, segments, v, damaged)
    requires idx < CeilDiv(v.TotalSize(), v.ChunkSize())
    requires PageAgrees(LedgerOf(z, segments, v), MediaOf(StrictImage(z, segments, v)), idx)
    ensures PageAgrees(DamagedJob(z, v, damaged).AsLedger(), MediaOf(StrictImage(z, segments, v)), idx)
    ensures |damaged| == |segments|
    ensures AllGone(z, segments, v, damaged) ==> DamagedJob(z, v, damaged).OutcomeOf(idx).viaTable2
  {
    hide WellFormedImage, Recoverable, AllGone, StrictImage, CeilDiv, Job.OutcomeOf, MediaOf;
    DamagedOpens(z, segments, v, damaged);
    DamagedOutcome(z, segments, v, damaged, idx);
  }

  lemma DamagedPagesAgree(z: Inflate, segments: seq<Segment>, v: Volume, damaged: seq<Segment>)
    requires WellFormedImage(z, segments, v) && Recoverable(z, segments, v, damaged)
    ensures |damaged| == |segments| && MediaOf(StrictImage(z, segments, v)).chunkSize > 0
    ensures var ledger := DamagedJob(z, v, damaged).AsLedger();
            && PagesAgree(ledger, MediaOf(StrictImage(z, segments, v)))
            && ledger.Processed() == CeilDiv(ledger.imageSize, ledger.chunkSize)
            && (AllGone(z, segments, v, damaged) ==> AllFrom(ledger, true, ledger.Processed()))
  {
    hide WellFormedImage, Recoverable, AllGone, StrictImage, CeilDiv, Job.OutcomeOf, Page, PageAgrees, MediaOf;
    var ledger, intact := DamagedJob(z, v, damaged).AsLedger(), LedgerOf(z, segments, v);
    var m := MediaOf(StrictImage(z, segments, v));
    DamagedOpens(z, segments, v, damaged);
    AllPagesAgree(z, segments, v);
    forall idx: nat | idx < ledger.Processed()
      ensures PageAgrees(ledger, m, idx) && ledger.outcome(idx).Saved?
      ensures AllGone(z, segments, v, damaged) ==> ledger.outcome(idx).viaTable2
    {
      assert PageAgrees(intact, m, idx);
      DamagedPage(z, segments, v, damaged, idx);
      PageSaved(ledger, m, idx);
    }
  }

  lemma PageSaved(ledger: Ledger, m: PagedMedia, idx: nat)
    requires PageAgrees(ledger, m, idx)
    ensures ledger.outcome(idx).Saved?
  {
  }

  /** Of a well-formed image whose redundant tables mirror the primary ones, any primary entries or whole primary
      tables may be gone or useless: recovery loses and flags nothing and writes what the strict reader serves of the
      undamaged image. When nothing good is left in the primary tables every chunk is counted under `table2`. */
  lemma RecoveredDespiteDamage(z: Inflate, segments: seq<Segment>, v: Volume, damaged: seq<Segment>, report: Report,
                               bytes: Data)
    requires WellFormedImage(z, segments, v) && Recoverable(z, segments, v, damaged)
    requires Setup(z, damaged).Ok? ==> Accounts(Setup(z, damaged).value.AsLedger(), report, bytes)
    ensures Setup(z, damaged).Ok?
    ensures var m := MediaOf(StrictImage(z, segments, v));
            m.chunkSize > 0 && m.Readable(0, m.total) && bytes == m.Slice(0, m.total)
    ensures var t := report.tally; t.zeroFilled == 0 && t.crcFlagged == 0 && t.bytesZeroFilled == 0
    ensures AllGone(z, segments, v, damaged) ==>
              report.tally.table2 == CeilDiv(v.TotalSize(), v.ChunkSize()) && report.tally.primary == 0
  {
    hide WellFormedImage, Recoverable, AllGone, StrictImage, CeilDiv, Job.OutcomeOf, Page, PagesAgree, AllFrom,
         Setup, Accounts, PagedMedia.Slice, PagedMedia.Readable;
    DamagedOpens(z, segments, v, damaged);
    DamagedPagesAgree(z, segments, v, damaged);
    var ledger := DamagedJob(z, v, damaged).AsLedger();
    AccountAgrees(ledger, MediaOf(StrictImage(z, segments, v)), report, bytes);
    TallyReported(ledger, report, bytes);
    if AllGone(z, segments, v, damaged) {
      CountedUnder(ledger, true, ledger.Processed());
    }
  }

  /** The recovery of such a damaged image. */
  method RecoverDamaged(z: Inflate, ghost segments: seq<Segment>, ghost v: Volume, damaged: seq<Segment>, out: Sink)
    returns (report: Report)
    requires WellFormedImage(z, segments, v) && Recoverable(z, segments, v, damaged) && out.bytes == []
    modifies out
    ensures var m := MediaOf(StrictImage(z, segments, v));
            m.chunkSize > 0 && m.Readable(0, m.total) && out.bytes == m.Slice(0, m.total)
    ensures report.tally.zeroFilled == 0 && report.tally.crcFlagged == 0
    ensures AllGone(z, segments, v, damaged) ==>
              report.tally.table2 == CeilDiv(v.TotalSize(), v.ChunkSize()) && report.tally.primary == 0
  {
    hide WellFormedImage, Recoverable, AllGone, StrictImage, CeilDiv, Setup, Accounts, PagedMedia.Slice,
         PagedMedia.Readable, MediaOf;
    DamagedOpens(z, segments, v, damaged);
    var r := RecoverSegments(z, damaged, out);
    report := r.value;
    RecoveredDespiteDamage(z, segments, v, damaged, report, out.bytes);
  }
}
