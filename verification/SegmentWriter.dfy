/** Writing an EWF v1 segment, section by section, and reading it back: the inverse of the parsers and of
    the section walks. */
module SegmentWriter {
  import opened Bytes
  import opened Adler
  import opened Sections
  import opened Walkers
  import opened Opening

  // ----- Integers -----

  function Enc16(n: nat): (d: Data)
    requires n < 0x1_0000
    ensures |d| == 2
  {
    [n % 0x100, n / 0x100]
  }

  function Enc32(n: U32): (d: Data)
    ensures |d| == 4
  {
    Enc16(n % 0x1_0000) + Enc16(n / 0x1_0000)
  }

  function Enc64(n: U64): (d: Data)
    ensures |d| == 8
  {
    Enc32(n % U32_LIMIT) + Enc32(n / U32_LIMIT)
  }

  lemma DecodeEnc32(d: Data, off: nat, n: U32)
    requires off + 4 <= |d| && d[off..off + 4] == Enc32(n)
    ensures Le32(d, off) == n
  {
    var e := Enc32(n);
    assert e[0] == d[off] && e[1] == d[off + 1] && e[2] == d[off + 2] && e[3] == d[off + 3];
  }

  lemma DecodeEnc64(d: Data, off: nat, n: U64)
    requires off + 8 <= |d| && d[off..off + 8] == Enc64(n)
    ensures Le64(d, off) == n
  {
    var e := Enc64(n);
    assert d[off..off + 4] == e[..4] && d[off + 4..off + 8] == e[4..];
    DecodeEnc32(d, off, n % U32_LIMIT);
    DecodeEnc32(d, off + 4, n / U32_LIMIT);
  }

  // ----- Section descriptor -----

  /** A section type that fits its field: no NUL, and every character one byte. */
  predicate TypeName(name: string) {
    |name| <= 16 && forall i :: 0 <= i < |name| ==> 0 < name[i] as int < 256
  }

  function NameBytes(name: string): (d: Data)
    requires TypeName(name)
    ensures |d| == |name|
    ensures forall i :: 0 <= i < |name| ==> d[i] == name[i] as int
  {
    seq(|name|, i requires 0 <= i < |name| => name[i] as int)
  }

  lemma {:induction false} NameParses(name: string, n: nat)
    requires TypeName(name)
    ensures NulTerminated(NameBytes(name) + Zeros(n)) == name
    decreases |name|
  {
    var d := NameBytes(name) + Zeros(n);
    if name != "" {
      assert d[1..] == NameBytes(name[1..]) + Zeros(n);
      NameParses(name[1..], n);
      assert [name[0]] + name[1..] == name;
    }
  }

  /** The 72 bytes a descriptor's checksum covers. */
  function CoveredBytes(name: string, next: U64, size: U64): (d: Data)
    requires TypeName(name)
    ensures |d| == DESCRIPTOR_CRC_OFFSET
  {
    NameBytes(name) + Zeros(16 - |name|) + Enc64(next) + Enc64(size) + Zeros(40)
  }

  function DescriptorBytes(name: string, next: U64, size: U64): (d: Data)
    requires TypeName(name)
    ensures |d| == DESCRIPTOR_SIZE
  {
    CoveredBytes(name, next, size) + Enc32(Adler32(CoveredBytes(name, next, size)))
  }

  /** A written descriptor parses to what was written, and its checksum verifies. */
  lemma DescriptorParses(name: string, next: U64, size: U64, offset: nat)
    requires TypeName(name)
    ensures var raw, d := DescriptorBytes(name, next, size), ParseDescriptor(DescriptorBytes(name, next, size), offset);
            && d == Some(Descriptor(name, next, size, offset, Adler32(CoveredBytes(name, next, size))))
            && d.value.VerifyCrc(raw)
  {
    hide Adler32, Le64, Le32, Enc64, Enc32, NulTerminated;
    var covered := CoveredBytes(name, next, size);
    var raw := DescriptorBytes(name, next, size);
    var field := NameBytes(name) + Zeros(16 - |name|);
    NameParses(name, 16 - |name|);
    assert covered[..16] == field && covered[16..24] == Enc64(next) && covered[24..32] == Enc64(size);
    assert raw[..DESCRIPTOR_CRC_OFFSET] == covered && raw[72..76] == Enc32(Adler32(covered));
    assert raw[..16] == covered[..16] && raw[16..24] == covered[16..24] && raw[24..32] == covered[24..32];
    DecodeEnc64(raw, 16, next);
    DecodeEnc64(raw, 24, size);
    DecodeEnc32(raw, 72, Adler32(covered));
  }

  // ----- Section bodies -----

  function VolumeBytes(v: Volume): (d: Data)
    ensures |d| == 94
  {
    Enc32(1) + Enc32(v.chunkCount) + Enc32(v.sectorsPerChunk) + Enc32(v.bytesPerSector) + Enc64(v.sectorCount)
    + Zeros(70)
  }

  lemma VolumeParses(v: Volume, d: Data)
    requires VOLUME_MIN <= |d| <= 94 && d == VolumeBytes(v)[..|d|]
    ensures ParseVolume(d) == Some(v)
  {
    hide Le64, Le32, Enc64, Enc32;
    var b := VolumeBytes(v);
    assert b[4..8] == Enc32(v.chunkCount) && b[8..12] == Enc32(v.sectorsPerChunk);
    assert b[12..16] == Enc32(v.bytesPerSector) && b[16..24] == Enc64(v.sectorCount);
    assert d[4..8] == b[4..8] && d[8..12] == b[8..12] && d[12..16] == b[12..16] && d[16..24] == b[16..24];
    DecodeEnc32(d, 4, v.chunkCount);
    DecodeEnc32(d, 8, v.sectorsPerChunk);
    DecodeEnc32(d, 12, v.bytesPerSector);
    DecodeEnc64(d, 16, v.sectorCount);
  }

  function WrittenEntry(e: TableEntry): (d: Data)
    requires e.chunkOffset < ENTRY_FLAG
    ensures |d| == 4
  {
    Enc32(e.chunkOffset + if e.compressed then ENTRY_FLAG else 0)
  }

  lemma EntryParses(e: TableEntry)
    requires e.chunkOffset < ENTRY_FLAG
    ensures ParseEntry(WrittenEntry(e)) == Some(e)
  {
    hide Le32, Enc32;
    var raw := e.chunkOffset + if e.compressed then ENTRY_FLAG else 0;
    assert WrittenEntry(e)[0..4] == Enc32(raw);
    DecodeEnc32(WrittenEntry(e), 0, raw);
  }

  /** Entries that fit a table. */
  predicate Tableable(entries: seq<TableEntry>) {
    |entries| < U32_LIMIT && forall i :: 0 <= i < |entries| ==> entries[i].chunkOffset < ENTRY_FLAG
  }

  function WrittenEntries(entries: seq<TableEntry>): (d: Data)
    requires Tableable(entries)
    ensures |d| == 4 * |entries|
  {
    if entries == [] then [] else WrittenEntry(entries[0]) + WrittenEntries(entries[1..])
  }

  lemma {:induction false} EntriesParse(entries: seq<TableEntry>, i: nat)
    requires Tableable(entries) && i < |entries|
    ensures WrittenEntries(entries)[4 * i..4 * i + 4] == WrittenEntry(entries[i])
    ensures ParseEntry(WrittenEntries(entries)[4 * i..4 * i + 4]) == Some(entries[i])
    decreases |entries|
  {
    hide WrittenEntry;
    var rest := WrittenEntries(entries[1..]);
    if i > 0 {
      EntriesParse(entries[1..], i - 1);
      assert WrittenEntries(entries)[4 * i..4 * i + 4] == rest[4 * (i - 1)..4 * (i - 1) + 4];
    }
    EntryParses(entries[i]);
  }

  /** The header and entries of a table. */
  function TableBytes(base: U64, entries: seq<TableEntry>): (d: Data)
    requires Tableable(entries)
    ensures |d| == TABLE_HEADER_SIZE + 4 * |entries|
  {
    Enc32(|entries|) + Zeros(4) + Enc64(base) + Zeros(8) + WrittenEntries(entries)
  }

  /** A written table parses to its base offset and to as many entries as were written, one behind the other. */
  lemma TableParses(base: U64, entries: seq<TableEntry>)
    requires Tableable(entries)
    ensures ParseTableHeader(TableBytes(base, entries)[..TABLE_HEADER_SIZE]) == Some(TableHeader(|entries|, base))
    ensures TableBytes(base, entries)[TABLE_HEADER_SIZE..] == WrittenEntries(entries)
    ensures |entries| == 1 ==> WrittenEntries(entries) == WrittenEntry(entries[0])
  {
    hide Le64, Le32, Enc64, Enc32, ParseEntry, WrittenEntry, WrittenEntries;
    var h := TableBytes(base, entries)[..TABLE_HEADER_SIZE];
    TableSlices(Enc32(|entries|), Enc64(base), WrittenEntries(entries));
    DecodeEnc32(h, 0, |entries|);
    DecodeEnc64(h, 8, base);
    if |entries| == 1 {
      OneEntry(entries);
    }
  }

  lemma TableSlices(count: Data, base: Data, entries: Data)
    requires |count| == 4 && |base| == 8
    ensures var all := count + Zeros(4) + base + Zeros(8) + entries;
            && |all[..TABLE_HEADER_SIZE]| == TABLE_HEADER_SIZE && all[..TABLE_HEADER_SIZE][0..4] == count
            && all[..TABLE_HEADER_SIZE][8..16] == base && all[TABLE_HEADER_SIZE..] == entries
  {
  }

  lemma OneEntry(entries: seq<TableEntry>)
    requires |entries| == 1 && Tableable(entries)
    ensures WrittenEntries(entries) == WrittenEntry(entries[0])
  {
    assert entries[1..] == [] && WrittenEntries(entries[1..]) == [];
  }

  // ----- The chain -----

  datatype Part = Part(name: string, body: Data)

  predicate Writable(parts: seq<Part>) {
    forall k :: 0 <= k < |parts| ==> TypeName(parts[k].name)
  }

  function LengthOf(parts: seq<Part>): nat {
    if parts == [] then 0 else DESCRIPTOR_SIZE + |parts[0].body| + LengthOf(parts[1..])
  }

  /** The sections from offset `pos` on, each linked to the next and the last one to nothing. */
  function ChainBytes(parts: seq<Part>, pos: nat): (d: Data)
    requires Writable(parts) && pos + LengthOf(parts) < U63_LIMIT
    ensures |d| == LengthOf(parts)
  {
    if parts == [] then []
    else
      var end := pos + DESCRIPTOR_SIZE + |parts[0].body|;
      DescriptorBytes(parts[0].name, if |parts| == 1 then 0 else end, DESCRIPTOR_SIZE + |parts[0].body|)
      + parts[0].body + ChainBytes(parts[1..], end)
  }

  /** Where those sections are. */
  function Layout(parts: seq<Part>, pos: nat): (s: seq<Section>)
    requires pos + LengthOf(parts) < U63_LIMIT
    ensures |s| == |parts|
  {
    if parts == [] then []
    else
      [Section(parts[0].name, pos, DESCRIPTOR_SIZE + |parts[0].body|)]
      + Layout(parts[1..], pos + DESCRIPTOR_SIZE + |parts[0].body|)
  }

  /** Walking a written chain finds every section that was written, and nothing else. */
  lemma {:induction false} WalkWritten(data: Segment, parts: seq<Part>, pos: nat)
    requires Writable(parts) && pos + LengthOf(parts) == |data| && data[pos..] == ChainBytes(parts, pos)
    ensures StrictWalk(data, pos) == Layout(parts, pos)
    decreases |parts|
  {
    hide DescriptorBytes, DescriptorAt;
    if parts != [] {
      var end := pos + DESCRIPTOR_SIZE + |parts[0].body|;
      FirstPart(data, parts, pos);
      if |parts| > 1 {
        WalkWritten(data, parts[1..], end);
      } else {
        assert parts[1..] == [];
      }
    }
  }

  lemma FirstPart(data: Segment, parts: seq<Part>, pos: nat)
    requires parts != [] && Writable(parts) && pos + LengthOf(parts) == |data| && data[pos..] == ChainBytes(parts, pos)
    ensures var p, end := parts[0], pos + DESCRIPTOR_SIZE + |parts[0].body|;
            && end <= |data| && SectionOf(DescriptorAt(data, pos)) == Section(p.name, pos, DESCRIPTOR_SIZE + |p.body|)
            && DescriptorAt(data, pos).next == (if |parts| == 1 then 0 else end)
            && data[pos + DESCRIPTOR_SIZE..end] == p.body && data[end..] == ChainBytes(parts[1..], end)
  {
    hide DescriptorBytes, ParseDescriptor, CoveredBytes, Descriptor.VerifyCrc;
    var p, end := parts[0], pos + DESCRIPTOR_SIZE + |parts[0].body|;
    var next := if |parts| == 1 then 0 else end;
    var d := DescriptorBytes(p.name, next, DESCRIPTOR_SIZE + |p.body|);
    FirstSlices(data, pos, d, p.body, ChainBytes(parts[1..], end));
    DescriptorParses(p.name, next, DESCRIPTOR_SIZE + |p.body|, pos);
  }

  lemma FirstSlices(data: Data, pos: nat, d: Data, body: Data, rest: Data)
    requires pos + |d| + |body| + |rest| == |data| && data[pos..] == d + body + rest
    ensures data[pos..pos + |d|] == d && data[pos + |d|..pos + |d| + |body|] == body
    ensures data[pos + |d| + |body|..] == rest
  {
    var all, a, b := data[pos..], |d|, |d| + |body|;
    assert data[pos..|data|] == all;
    assert all[0..a] == d && all[a..b] == body && all[b..|data| - pos] == rest;
    SliceOfSlice(data, pos, |data|, 0, a);
    SliceOfSlice(data, pos, |data|, a, b);
    SliceOfSlice(data, pos, |data|, b, |data| - pos);
  }

  /** The body of every section is where its descriptor says. */
  lemma {:induction false} BodyWritten(data: Segment, parts: seq<Part>, pos: nat, k: nat)
    requires Writable(parts) && pos + LengthOf(parts) == |data| && data[pos..] == ChainBytes(parts, pos) && k < |parts|
    ensures var s := Layout(parts, pos)[k];
            && pos <= s.offset && s.size == DESCRIPTOR_SIZE + |parts[k].body| && s.End() <= |data|
            && data[s.offset + DESCRIPTOR_SIZE..s.End()] == parts[k].body
    decreases |parts|
  {
    hide DescriptorBytes, DescriptorAt;
    FirstPart(data, parts, pos);
    if k > 0 {
      BodyWritten(data, parts[1..], pos + DESCRIPTOR_SIZE + |parts[0].body|, k - 1);
    }
  }

  // ----- The segment -----

  /** The signature: "EVF" or "LVF", and five bytes that are always the same. */
  function Signature(kind: Kind): (d: Data)
    ensures |d| == 8
  {
    [if kind == Physical then 'E' as int else 'L' as int, 'V' as int, 'F' as int, 0x09, 0x0d, 0x0a, 0xff, 0x00]
  }

  /** The file header of segment `number`. */
  function HeaderBytes(kind: Kind, number: nat): (d: Data)
    requires number < 0x1_0000
    ensures |d| == FILE_HEADER_SIZE
  {
    Signature(kind) + [1] + Enc16(number) + [0, 0]
  }

  function Write(kind: Kind, number: nat, parts: seq<Part>): (d: Segment)
    requires number < 0x1_0000 && Writable(parts) && FILE_HEADER_SIZE + LengthOf(parts) < U63_LIMIT
    ensures |d| == FILE_HEADER_SIZE + LengthOf(parts)
  {
    HeaderBytes(kind, number) + ChainBytes(parts, FILE_HEADER_SIZE)
  }

  /** What was written is read back: signature, segment number, sections and bodies. */
  lemma WrittenReads(kind: Kind, number: nat, parts: seq<Part>)
    requires number < 0x1_0000 && Writable(parts) && FILE_HEADER_SIZE + LengthOf(parts) < U63_LIMIT
    ensures var data := Write(kind, number, parts);
            && KindOf(data) == Some(kind) && KindOf(HeaderOf(data)) == Some(kind) && SegmentNumber(data) == number
            && data[FILE_HEADER_SIZE..] == ChainBytes(parts, FILE_HEADER_SIZE)
            && StrictWalk(data, FILE_HEADER_SIZE) == Layout(parts, FILE_HEADER_SIZE)
  {
    hide ChainBytes, StrictWalk, Layout;
    var data, h := Write(kind, number, parts), HeaderBytes(kind, number);
    assert data[FILE_HEADER_SIZE..] == ChainBytes(parts, FILE_HEADER_SIZE) && data[..FILE_HEADER_SIZE] == h;
    assert h[..8] == Signature(kind) && data[..8] == h[..8];
    assert Signature(Physical)[0] == 0x45 && Signature(Logical)[0] == 0x4c;
    assert h[9..11] == Enc16(number) && h[9] == Enc16(number)[0] && h[10] == Enc16(number)[1];
    WalkWritten(data, parts, FILE_HEADER_SIZE);
  }
}
