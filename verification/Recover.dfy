/** Tolerant recovery: every readable chunk is exported, falling back from the primary table to the
    redundant one and then to zeros, with a full account of what was saved. */
module Recover {
  import opened Bytes
  import opened Adler
  import opened Errors
  import opened Sections
  import opened Walkers
  import opened Images

  const MAX_RECOVERED_CHUNK := 0x400_0000

  // ----- Locating a chunk's bytes -----

  datatype TableRef = TableRef(entryCount: nat, baseOffset: U64, entriesOffset: nat)

  function TableRefOf(data: Segment, sections: seq<Section>, name: string): Option<TableRef> {
    var sec := Find(sections, {name});
    if sec.None? then None
    else
      var start := SatAdd(sec.value.offset, DESCRIPTOR_SIZE);
      var hdr := GetRange(data, start, SatAdd(start, TABLE_HEADER_SIZE));
      if hdr.None? then None
      else
        var h := ParseTableHeader(hdr.value);
        if h.None? then None
        else Some(TableRef(h.value.entryCount, h.value.baseOffset, SatAdd(start, TABLE_HEADER_SIZE)))
  }

  function SectorsDataEnd(sections: seq<Section>, len: nat): Option<nat> {
    var sec := Find(sections, {"sectors"});
    if sec.None? then None else Some(Min(SatAdd(sec.value.offset, sec.value.size), len))
  }

  datatype Entry = Entry(compressed: bool, offset: U64)

  /** Table entry `i`, when its four bytes are inside the segment. */
  function EntryOf(data: Segment, t: TableRef, i: nat): Option<Entry> {
    var off := SatAdd(t.entriesOffset, SatMul(i, 4));
    var bytes := GetRange(data, off, SatAdd(off, 4));
    if bytes.None? then None
    else
      var e := ParseEntry(bytes.value);
      if e.None? then None
      else Some(Entry(e.value.compressed, SatAdd(t.baseOffset, e.value.chunkOffset)))
  }

  datatype Range = Range(start: nat, end: nat, compressed: bool)

  /** The bytes entry `i` claims: up to the next entry or, for the last one, the end of the sectors
      data. Nothing when the entry or the range is out of bounds. */
  function ChunkRange(data: Segment, t: TableRef, i: nat, sectorsEnd: Option<nat>): (r: Option<Range>)
    ensures r.Some? ==> r.value.start < r.value.end <= |data|
  {
    var e := EntryOf(data, t, i);
    if e.None? then None
    else
      var end := if i + 1 < t.entryCount then NextStart(data, t, i) else LastEnd(data, sectorsEnd);
      if end.None? || e.value.offset >= end.value || end.value > |data| then None
      else Some(Range(e.value.offset, end.value, e.value.compressed))
  }

  function NextStart(data: Segment, t: TableRef, i: nat): Option<nat> {
    var e := EntryOf(data, t, i + 1);
    if e.None? then None else Some(e.value.offset)
  }

  function LastEnd(data: Segment, sectorsEnd: Option<nat>): Option<nat> {
    if sectorsEnd.Some? then sectorsEnd else Some(|data|)
  }

  // ----- Decoding -----

  datatype Decoded = Decoded(bytes: Data, crcOk: bool)

  /** Up to `chunkSize` logical bytes of a chunk, flagged when its trailing checksum disagrees; nothing
      only when a compressed stream yields nothing usable. */
  function DecodeChunk(z: Inflate, raw: Data, compressed: bool, chunkSize: nat): (r: Option<Decoded>)
    ensures r.Some? ==> |r.value.bytes| <= chunkSize
  {
    if compressed then
      var out := ReadInflated(z, raw, chunkSize + 1);
      if out.None? || out.value == [] then None
      else Some(Decoded(out.value[..Min(|out.value|, chunkSize)], true))
    else
      Some(Decoded(raw[..Min(|raw|, chunkSize)], TrailerOk(raw, chunkSize)))
  }

  /** An uncompressed chunk may carry an Adler-32 after its sector bytes; with none there is nothing
      to disagree with. */
  predicate TrailerOk(raw: Data, chunkSize: nat) {
    |raw| >= chunkSize + 4 ==> Adler32(raw[..chunkSize]) == Le32(raw, chunkSize)
  }

  // ----- What the segments offer -----

  datatype Evidence = Evidence(
    data: Segment,
    primary: Option<TableRef>,
    fallback: Option<TableRef>,
    sectorsEnd: Option<nat>)
  {
    /** How many chunks the segment contributes. */
    function Entries(): nat {
      if primary.Some? then primary.value.entryCount
      else if fallback.Some? then fallback.value.entryCount
      else 0
    }

    function DecodeFrom(z: Inflate, t: Option<TableRef>, local: nat, chunkSize: nat): (r: Option<Decoded>)
      ensures r.Some? ==> |r.value.bytes| <= chunkSize
    {
      if t.None? then None
      else
        var range := ChunkRange(data, t.value, local, sectorsEnd);
        if range.None? then None
        else DecodeChunk(z, data[range.value.start..range.value.end], range.value.compressed, chunkSize)
    }
  }

  function EvidenceOf(data: Segment): Evidence {
    var sections := Walk(data, FILE_HEADER_SIZE);
    Evidence(data, TableRefOf(data, sections, "table"), TableRefOf(data, sections, "table2"),
             SectorsDataEnd(sections, |data|))
  }

  // ----- Which segment holds a chunk -----

  /** Entries in the first `k` segments. */
  function EntriesBefore(counts: seq<nat>, k: nat): nat
    requires k <= |counts|
  {
    if k == 0 then 0 else EntriesBefore(counts, k - 1) + counts[k - 1]
  }

  datatype Place = Place(segment: nat, local: nat)

  /** `place` is where chunk `idx` lives when the segments' chunks are numbered one after the other. */
  predicate IsPlace(counts: seq<nat>, idx: nat, place: Place) {
    && place.segment < |counts| && place.local < counts[place.segment]
    && idx == EntriesBefore(counts, place.segment) + place.local
  }

  lemma {:induction false} EntriesBeforeMonotone(counts: seq<nat>, i: nat, j: nat)
    requires i <= j <= |counts|
    ensures EntriesBefore(counts, i) <= EntriesBefore(counts, j)
    decreases j
  {
    if i < j {
      EntriesBeforeMonotone(counts, i, j - 1);
    }
  }

  lemma PlaceUnique(counts: seq<nat>, idx: nat, p: Place, q: Place)
    requires IsPlace(counts, idx, p) && IsPlace(counts, idx, q)
    ensures p == q
  {
    if p.segment < q.segment {
      EntriesBeforeMonotone(counts, p.segment + 1, q.segment);
    } else if q.segment < p.segment {
      EntriesBeforeMonotone(counts, q.segment + 1, p.segment);
    }
  }

  function PlaceOf(counts: seq<nat>, idx: nat): (r: Option<Place>)
    ensures r.Some? ==> IsPlace(counts, idx, r.value)
    ensures r.None? <==> EntriesBefore(counts, |counts|) <= idx
  {
    PlaceFrom(counts, idx, 0)
  }

  function PlaceFrom(counts: seq<nat>, idx: nat, k: nat): (r: Option<Place>)
    requires k <= |counts| && EntriesBefore(counts, k) <= idx
    ensures r.Some? ==> IsPlace(counts, idx, r.value) && idx < EntriesBefore(counts, |counts|)
    ensures r.None? ==> EntriesBefore(counts, |counts|) <= idx
    decreases |counts| - k
  {
    if k == |counts| then None
    else if idx < EntriesBefore(counts, k + 1) then
      EntriesBeforeMonotone(counts, k + 1, |counts|);
      Some(Place(k, idx - EntriesBefore(counts, k)))
    else PlaceFrom(counts, idx, k + 1)
  }

  /** The running-sum search. */
  method LocateChunk(counts: seq<nat>, idx: U32) returns (r: Option<Place>)
    ensures r == PlaceOf(counts, idx)
  {
    var running := 0;
    for k := 0 to |counts|
      invariant running == EntriesBefore(counts, k) <= idx
    {
      EntriesBeforeMonotone(counts, k + 1, |counts|);
      if idx < SatAdd(running, counts[k]) {
        r := Some(Place(k, SatSub(idx, running)));
        PlaceUnique(counts, idx, r.value, PlaceOf(counts, idx).value);
        return;
      }
      running := SatAdd(running, counts[k]);
    }
    r := None;
  }

  // ----- The best copy of a chunk -----

  datatype Outcome = Lost | Saved(bytes: Data, viaTable2: bool, crcOk: bool)

  /** Prefer a good primary copy, then a good redundant one, then whichever is present but suspect. */
  function Choose(primary: Option<Decoded>, table2: Option<Decoded>): Outcome {
    if primary.Some? && primary.value.crcOk then Saved(primary.value.bytes, false, true)
    else if table2.Some? && table2.value.crcOk then Saved(table2.value.bytes, true, true)
    else if primary.Some? then Saved(primary.value.bytes, false, false)
    else if table2.Some? then Saved(table2.value.bytes, true, false)
    else Lost
  }

  datatype Job = Job(z: Inflate, evidence: seq<Evidence>, chunkSize: nat, imageSize: U64, chunkCount: U32) {
    function Counts(): (c: seq<nat>)
      ensures |c| == |evidence|
      ensures forall k :: 0 <= k < |c| ==> c[k] == evidence[k].Entries()
    {
      seq(|evidence|, k requires 0 <= k < |evidence| => evidence[k].Entries())
    }

    function PrimaryCopy(idx: nat): Option<Decoded> {
      var p := PlaceOf(Counts(), idx);
      if p.None? then None
      else
        var e := evidence[p.value.segment];
        e.DecodeFrom(z, e.primary, p.value.local, chunkSize)
    }

    function Table2Copy(idx: nat): Option<Decoded> {
      var p := PlaceOf(Counts(), idx);
      if p.None? then None
      else
        var e := evidence[p.value.segment];
        e.DecodeFrom(z, e.fallback, p.value.local, chunkSize)
    }

    function OutcomeOf(idx: nat): Outcome { Choose(PrimaryCopy(idx), Table2Copy(idx)) }

    /** The same run with nothing left but each chunk's outcome. */
    function AsLedger(): (l: Ledger)
      ensures l.chunkSize == chunkSize && l.imageSize == imageSize && l.chunkCount == chunkCount
      ensures forall idx: nat :: l.outcome(idx) == OutcomeOf(idx)
    {
      Ledger((idx: nat) => OutcomeOf(idx), chunkSize, imageSize, chunkCount)
    }
  }

  /** What the accounting of a run depends on: the outcome of each chunk, whatever decided it, and the
      image's geometry. */
  datatype Ledger = Ledger(outcome: nat -> Outcome, chunkSize: nat, imageSize: U64, chunkCount: U32) {
    /** How many chunks the loop looks at before the image is complete or the chunks run out. */
    function Processed(): nat
      requires chunkSize > 0
    {
      Min(chunkCount, CeilDiv(imageSize, chunkSize))
    }

    /** Where chunk `idx` starts in the image. */
    function At(idx: nat): nat { idx * chunkSize }

    /** The logical bytes chunk `idx` backs. */
    function Logical(idx: nat): nat { Min(chunkSize, SatSub(imageSize, At(idx))) }

    /** What is written for chunk `idx`: its bytes cut or zero-padded to that length, or zeros. */
    function Written(idx: nat): (d: Data)
      ensures |d| == Logical(idx)
    {
      match outcome(idx)
      case Lost => Zeros(Logical(idx))
      case Saved(bytes, _, _) => Fit(bytes, Logical(idx))
    }

    /** The output after the first `k` chunks. */
    function Output(k: nat): Data {
      if k == 0 then [] else Output(k - 1) + Written(k - 1)
    }
  }

  function Fit(bytes: Data, n: nat): (d: Data)
    ensures |d| == n
  {
    if |bytes| > n then bytes[..n] else bytes + Zeros(n - |bytes|)
  }

  /** Is `o` what should become of a chunk with these two copies? It is lost exactly when there is no copy;
      otherwise it is one of the two, with that copy's own verdict, a good one if there is any, and the
      redundant one only where the primary one is worse. */
  predicate IsBest(o: Outcome, primary: Option<Decoded>, table2: Option<Decoded>) {
    && (o.Lost? <==> primary.None? && table2.None?)
    && (o.Saved? ==>
         var copy := if o.viaTable2 then table2 else primary;
         && copy == Some(Decoded(o.bytes, o.crcOk))
         && (!o.crcOk ==> !Good(primary) && !Good(table2))
         && (o.viaTable2 ==> if o.crcOk then !Good(primary) else primary.None?))
  }

  predicate Good(copy: Option<Decoded>) {
    copy.Some? && copy.value.crcOk
  }

  /** A chunk is given up exactly when neither table yields a copy; it is flagged exactly when there is
      a copy but no good one; and the redundant table is used only when the primary copy is not good. */
  lemma BestCopy(job: Job, idx: nat)
    ensures var o, p, t := job.OutcomeOf(idx), job.PrimaryCopy(idx), job.Table2Copy(idx);
            && (o.Lost? <==> p.None? && t.None?)
            && (o.Saved? && !o.crcOk <==>
               (p.Some? || t.Some?) && !(p.Some? && p.value.crcOk) && !(t.Some? && t.value.crcOk))
            && (o.Saved? && o.viaTable2 ==> t.Some? && o.bytes == t.value.bytes && !(p.Some? && p.value.crcOk))
            && (o.Saved? && !o.viaTable2 ==> p.Some? && o.bytes == p.value.bytes)
            && (p.Some? && p.value.crcOk ==> o == Saved(p.value.bytes, false, true))
    ensures forall o :: IsBest(o, job.PrimaryCopy(idx), job.Table2Copy(idx)) <==> o == job.OutcomeOf(idx)
  {
  }

  // ----- Bootstrap -----

  function ReadGeometry(data: Segment, sections: seq<Section>): Option<Volume> {
    var vol := Find(sections, {"volume", "disk"});
    if vol.None? then None
    else
      var start := SatAdd(vol.value.offset, DESCRIPTOR_SIZE);
      var end := Min(SatAdd(start, SatSub(vol.value.size, DESCRIPTOR_SIZE)), |data|);
      var body := GetRange(data, start, end);
      if body.None? then None
      else
        var v := ParseVolume(body.value);
        if v.None? || v.value.sectorsPerChunk == 0 || v.value.bytesPerSector == 0 then None else v
  }

  function AllEvidence(segments: seq<Segment>): (e: seq<Evidence>)
    ensures |e| == |segments|
    ensures forall k :: 0 <= k < |e| ==> e[k] == EvidenceOf(segments[k])
  {
    seq(|segments|, k requires 0 <= k < |segments| => EvidenceOf(segments[k]))
  }

  /** What there is to recover, or why recovery cannot start. */
  function Setup(z: Inflate, segments: seq<Segment>): (r: Result<Job>)
    ensures r.Ok? ==> 0 < r.value.chunkSize <= MAX_RECOVERED_CHUNK
  {
    if segments == [] || |segments[0]| < FILE_HEADER_SIZE || KindOf(segments[0]) != Some(Physical) then Err(NotEwf)
    else
      var geom := ReadGeometry(segments[0], Walk(segments[0], FILE_HEADER_SIZE));
      if geom.None? then Err(NoGeometry)
      else
        var cs := geom.value.ChunkSize();
        if cs == 0 || cs > MAX_RECOVERED_CHUNK then Err(ImplausibleChunkSize)
        else Ok(Job(z, AllEvidence(segments), cs, geom.value.TotalSize(), geom.value.chunkCount))
  }
}
