/** The EWF v1 on-disk structures: section descriptors, volume geometry and chunk tables. */
module Sections {
  import opened Bytes
  import opened Adler

  const FILE_HEADER_SIZE := 13
  const DESCRIPTOR_SIZE := 76
  const DESCRIPTOR_CRC_OFFSET := 72
  const TABLE_HEADER_SIZE := 24
  const VOLUME_MIN := 24

  datatype Kind = Physical | Logical

  /** Which container the eight signature bytes announce. */
  function KindOf(header: Data): Option<Kind> {
    if |header| < 8 then None
    else if header[..8] == [0x45, 0x56, 0x46, 0x09, 0x0d, 0x0a, 0xff, 0x00] then Some(Physical)
    else if header[..8] == [0x4c, 0x56, 0x46, 0x09, 0x0d, 0x0a, 0xff, 0x00] then Some(Logical)
    else None
  }

  // ----- Section descriptor -----

  datatype Descriptor = Descriptor(
    sectionType: string,
    next: U64,
    sectionSize: U64,
    offset: nat,
    storedCrc: U32)
  {
    /** Recompute the checksum over the covered prefix of `raw` and compare with the stored one. */
    predicate VerifyCrc(raw: Data) {
      |raw| >= DESCRIPTOR_CRC_OFFSET && Adler32(raw[..DESCRIPTOR_CRC_OFFSET]) == storedCrc
    }
  }

  /** The characters before the first NUL. */
  function NulTerminated(b: Data): string {
    if b == [] || b[0] == 0 then "" else [b[0] as char] + NulTerminated(b[1..])
  }

  function ParseDescriptor(raw: Data, offset: nat): Option<Descriptor> {
    if |raw| < DESCRIPTOR_SIZE then None
    else Some(Descriptor(NulTerminated(raw[..16]), Le64(raw, 16), Le64(raw, 24), offset,
                         Le32(raw, DESCRIPTOR_CRC_OFFSET)))
  }

  /** The descriptor stored at `pos`. */
  function DescriptorAt(data: Segment, pos: nat): (d: Descriptor)
    requires pos + DESCRIPTOR_SIZE <= |data|
    ensures d.offset == pos
  {
    ParseDescriptor(data[pos..pos + DESCRIPTOR_SIZE], pos).value
  }

  /** What every walker keeps of a descriptor. */
  datatype Section = Section(typeName: string, offset: nat, size: U64) {
    function End(): nat { offset + size }
  }

  function SectionOf(d: Descriptor): Section {
    Section(d.sectionType, d.offset, d.sectionSize)
  }

  /** The first section of the list whose type is one of `names`. */
  function Find(sections: seq<Section>, names: set<string>): (r: Option<Section>)
    ensures r.None? <==> forall s :: s in sections ==> s.typeName !in names
    ensures r.Some? ==> r.value in sections && r.value.typeName in names
  {
    if sections == [] then None
    else if sections[0].typeName in names then Some(sections[0])
    else Find(sections[1..], names)
  }

  // ----- Volume geometry -----

  datatype Volume = Volume(chunkCount: U32, sectorsPerChunk: U32, bytesPerSector: U32, sectorCount: U64) {
    function ChunkSize(): (cs: U64) {
      MulMonotone(sectorsPerChunk, U32_LIMIT - 1, bytesPerSector);
      MulMonotone(bytesPerSector, U32_LIMIT - 1, U32_LIMIT - 1);
      sectorsPerChunk * bytesPerSector
    }

    function TotalSize(): U64 { SatMul(bytesPerSector, sectorCount) }
  }

  function ParseVolume(body: Data): (v: Option<Volume>)
    ensures v.Some? <==> |body| >= VOLUME_MIN
  {
    if |body| < VOLUME_MIN then None
    else Some(Volume(Le32(body, 4), Le32(body, 8), Le32(body, 12), Le64(body, 16)))
  }

  // ----- Chunk table -----

  datatype TableEntry = TableEntry(compressed: bool, chunkOffset: U32)

  const ENTRY_FLAG := 0x8000_0000

  function ParseEntry(buf: Data): Option<TableEntry> {
    if |buf| < 4 then None
    else var raw := Le32(buf, 0); Some(TableEntry(raw / ENTRY_FLAG != 0, raw % ENTRY_FLAG))
  }

  datatype TableHeader = TableHeader(entryCount: U32, baseOffset: U64)

  function ParseTableHeader(buf: Data): Option<TableHeader> {
    if |buf| < 16 then None else Some(TableHeader(Le32(buf, 0), Le64(buf, 8)))
  }
}
