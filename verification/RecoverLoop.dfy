/** The recovery loop, its output and its accounting. */
module RecoverLoop {
  import opened Bytes
  import opened Errors
  import opened Sections
  import opened Walkers
  import opened VolumeCheck
  import opened Images
  import opened Recover

  /** The running account kept by the loop. */
  datatype Tally = Tally(
    primary: nat,
    table2: nat,
    zeroFilled: nat,
    crcFlagged: nat,
    bytesRecovered: nat,
    bytesZeroFilled: nat,
    lost: seq<nat>,
    flagged: seq<nat>)

  function AddChunk(t: Tally, idx: nat, o: Outcome, logical: nat): Tally {
    match o
    case Lost =>
      t.(zeroFilled := t.zeroFilled + 1, bytesZeroFilled := t.bytesZeroFilled + logical, lost := t.lost + [idx])
    case Saved(_, viaTable2, crcOk) =>
      t.(primary := t.primary + (if viaTable2 then 0 else 1),
         table2 := t.table2 + (if viaTable2 then 1 else 0),
         crcFlagged := t.crcFlagged + (if crcOk then 0 else 1),
         flagged := t.flagged + (if crcOk then [] else [idx]),
         bytesRecovered := t.bytesRecovered + logical)
  }

  function TallyAt(ledger: Ledger, k: nat): Tally {
    if k == 0 then Tally(0, 0, 0, 0, 0, 0, [], [])
    else AddChunk(TallyAt(ledger, k - 1), k - 1, ledger.outcome(k - 1), ledger.Logical(k - 1))
  }

  /** After `k` chunks every chunk is counted once, and the lists are as long as their counters. */
  lemma {:induction false} TallyCounts(ledger: Ledger, k: nat)
    ensures var t := TallyAt(ledger, k);
            && t.primary + t.table2 + t.zeroFilled == k
            && |t.lost| == t.zeroFilled && |t.flagged| == t.crcFlagged
  {
    hide Ledger.Logical;
    if k > 0 {
      TallyCounts(ledger, k - 1);
    }
  }

  predicate Flagged(o: Outcome) { o.Saved? && !o.crcOk }

  ghost predicate ListsLost(ledger: Ledger, lost: seq<nat>, k: nat) {
    Increasing(lost) && forall i: nat :: i in lost <==> i < k && ledger.outcome(i).Lost?
  }

  ghost predicate ListsFlagged(ledger: Ledger, flagged: seq<nat>, k: nat) {
    Increasing(flagged) && forall i: nat :: i in flagged <==> i < k && Flagged(ledger.outcome(i))
  }

  /** The lists are ascending and hold exactly the lost and the flagged chunks. */
  lemma {:induction false} TallyLists(ledger: Ledger, k: nat)
    ensures ListsLost(ledger, TallyAt(ledger, k).lost, k)
    ensures ListsFlagged(ledger, TallyAt(ledger, k).flagged, k)
  {
    hide AddChunk, Flagged, Increasing;
    NothingListed(ledger);
    if k > 0 {
      TallyLists(ledger, k - 1);
      LostStep(ledger, k - 1);
      FlaggedStep(ledger, k - 1);
    }
  }

  lemma NothingListed(ledger: Ledger)
    ensures ListsLost(ledger, [], 0) && ListsFlagged(ledger, [], 0)
  {
  }

  lemma LostStep(ledger: Ledger, k: nat)
    requires ListsLost(ledger, TallyAt(ledger, k).lost, k)
    ensures ListsLost(ledger, TallyAt(ledger, k + 1).lost, k + 1)
  {
    hide Ledger.Logical, Increasing;
    AppendIncreasing(TallyAt(ledger, k).lost, k);
    assert TallyAt(ledger, k + 1).lost == TallyAt(ledger, k).lost + if ledger.outcome(k).Lost? then [k] else [];
  }

  lemma FlaggedStep(ledger: Ledger, k: nat)
    requires ListsFlagged(ledger, TallyAt(ledger, k).flagged, k)
    ensures ListsFlagged(ledger, TallyAt(ledger, k + 1).flagged, k + 1)
  {
    hide Ledger.Logical, Increasing;
    AppendIncreasing(TallyAt(ledger, k).flagged, k);
    assert TallyAt(ledger, k).flagged + [] == TallyAt(ledger, k).flagged;
    assert TallyAt(ledger, k + 1).flagged ==
           TallyAt(ledger, k).flagged + if Flagged(ledger.outcome(k)) then [k] else [];
  }

  /** Every byte written is accounted for, as recovered or as zero-filled, and the output has grown to
      what the chunks so far back. */
  lemma {:induction false} TallyBytes(ledger: Ledger, k: nat)
    requires ledger.chunkSize > 0 && k <= ledger.Processed()
    ensures |ledger.Output(k)| == Min(ledger.imageSize, ledger.At(k))
    ensures TallyAt(ledger, k).bytesRecovered + TallyAt(ledger, k).bytesZeroFilled == |ledger.Output(k)|
    ensures k > 0 ==> ledger.At(k - 1) < ledger.imageSize
  {
    if k > 0 {
      TallyBytes(ledger, k - 1);
      BeforeCeil(ledger.imageSize, ledger.chunkSize, k);
      AtNext(ledger, k - 1);
    }
  }

  /** The logical bytes of the listed chunks. */
  function BytesOf(ledger: Ledger, list: seq<nat>): nat {
    if list == [] then 0 else BytesOf(ledger, list[..|list| - 1]) + ledger.Logical(list[|list| - 1])
  }

  /** The zero-filled bytes are those of the lost chunks. */
  lemma {:induction false} LostBytes(ledger: Ledger, k: nat)
    ensures TallyAt(ledger, k).bytesZeroFilled == BytesOf(ledger, TallyAt(ledger, k).lost)
  {
    hide Ledger.Logical;
    if k > 0 {
      LostBytes(ledger, k - 1);
      var before := TallyAt(ledger, k - 1).lost;
      assert (before + [k - 1])[..|before|] == before;
    }
  }

  lemma AtNext(ledger: Ledger, k: nat)
    ensures ledger.At(k + 1) == ledger.At(k) + ledger.chunkSize
  {
  }

  lemma BeforeCeil(n: nat, d: nat, k: nat)
    requires d > 0 && 0 < k <= CeilDiv(n, d)
    ensures (k - 1) * d < n
  {
    MulMonotone(k, CeilDiv(n, d), d);
    assert k * d == (k - 1) * d + d;
  }

  lemma AtCeil(n: nat, d: nat, k: nat)
    requires d > 0 && k <= CeilDiv(n, d) && n <= k * d
    ensures k == CeilDiv(n, d)
  {
    if k < CeilDiv(n, d) {
      BeforeCeil(n, d, k + 1);
      assert false;
    }
  }

  lemma OutputLast(ledger: Ledger, k: nat)
    requires ledger.chunkSize > 0 && k + 1 <= ledger.Processed()
    ensures ledger.Output(k + 1) == ledger.Output(k) + ledger.Written(k)
    ensures |ledger.Output(k)| == ledger.At(k) && |ledger.Written(k)| == ledger.Logical(k)
  {
    TallyBytes(ledger, k);
    TallyBytes(ledger, k + 1);
  }

  /** The bytes chunk `idx` put into the output. */
  lemma {:induction false} OutputAt(ledger: Ledger, k: nat, idx: nat)
    requires ledger.chunkSize > 0 && idx < k <= ledger.Processed()
    ensures ledger.At(idx) + ledger.Logical(idx) <= |ledger.Output(k)|
    ensures ledger.Output(k)[ledger.At(idx)..ledger.At(idx) + ledger.Logical(idx)] == ledger.Written(idx)
    decreases k
  {
    hide Ledger.Written, Ledger.Processed, Ledger.At, Ledger.Logical, Ledger.Output;
    var front, last := ledger.Output(k - 1), ledger.Written(k - 1);
    OutputLast(ledger, k - 1);
    if idx < k - 1 {
      OutputAt(ledger, k - 1, idx);
      ConcatFront(front, last, ledger.At(idx), ledger.At(idx) + ledger.Logical(idx));
    } else {
      ConcatBack(front, last);
    }
  }

  // ----- The whole run -----

  datatype Report = Report(
    imageSize: U64,
    chunkSize: nat,
    chunksTotal: nat,
    tally: Tally,
    truncationOffset: Option<nat>)

  /** The output file: everything written so far. */
  class Sink {
    var bytes: Data

    constructor ()
      ensures bytes == []
    {
      bytes := [];
    }

    method WriteAll(d: Data)
      modifies this
      ensures bytes == old(bytes) + d
    {
      bytes := bytes + d;
    }
  }

  const ZERO_BLOCK := 8192

  lemma ZerosConcat(a: nat, b: nat)
    ensures Zeros(a) + Zeros(b) == Zeros(a + b)
  {
  }

  /** Zeros in bounded blocks. */
  method WriteZeros(out: Sink, n: nat)
    modifies out
    ensures out.bytes == old(out.bytes) + Zeros(n)
  {
    var left := n;
    ghost var done := 0;
    assert out.bytes + Zeros(0) == out.bytes;
    while left > 0
      invariant done + left == n
      invariant out.bytes == old(out.bytes) + Zeros(done)
    {
      var take := Min(left, ZERO_BLOCK);
      ZerosConcat(done, take);
      ConcatAssoc(old(out.bytes), Zeros(done), Zeros(take));
      out.WriteAll(Zeros(take));
      left := SatSub(left, take);
      done := done + take;
    }
  }

  /** Decode the chunk from the primary table and, unless that copy is good, from the redundant one. */
  method DecodeBest(job: Job, counts: seq<nat>, idx: U32) returns (o: Outcome)
    requires counts == job.Counts()
    ensures o == job.OutcomeOf(idx)
    ensures IsBest(o, job.PrimaryCopy(idx), job.Table2Copy(idx))
  {
    var place := LocateChunk(counts, idx);
    if place.None? {
      return Lost;
    }
    var e, local := job.evidence[place.value.segment], place.value.local;
    var primary := e.DecodeFrom(job.z, e.primary, local, job.chunkSize);
    if primary.Some? && primary.value.crcOk {
      return Saved(primary.value.bytes, false, true);
    }
    var table2 := e.DecodeFrom(job.z, e.fallback, local, job.chunkSize);
    if table2.Some? && table2.value.crcOk {
      return Saved(table2.value.bytes, true, true);
    }
    if primary.Some? {
      return Saved(primary.value.bytes, false, false);
    }
    if table2.Some? {
      return Saved(table2.value.bytes, true, false);
    }
    o := Lost;
  }

  /** Write one chunk's logical span and account for it. */
  method ExportChunk(out: Sink, tally: Tally, idx: nat, o: Outcome, logical: nat) returns (t: Tally)
    modifies out
    ensures t == AddChunk(tally, idx, o, logical)
    ensures out.bytes == old(out.bytes) + (if o.Lost? then Zeros(logical) else Fit(o.bytes, logical))
  {
    t := tally;
    if o.Saved? {
      var bytes := o.bytes;
      if |bytes| > logical {
        bytes := bytes[..logical];
      } else if |bytes| < logical {
        bytes := bytes + Zeros(logical - |bytes|);
      }
      out.WriteAll(bytes);
      t := t.(bytesRecovered := t.bytesRecovered + logical);
      if o.viaTable2 {
        t := t.(table2 := t.table2 + 1);
      } else {
        t := t.(primary := t.primary + 1);
      }
      if !o.crcOk {
        t := t.(crcFlagged := t.crcFlagged + 1, flagged := t.flagged + [idx]);
      }
    } else {
      WriteZeros(out, logical);
      t := t.(zeroFilled := t.zeroFilled + 1, bytesZeroFilled := t.bytesZeroFilled + logical, lost := t.lost + [idx]);
    }
  }

  /** Every segment's truncation point; the report names the first. */
  function FirstTruncation(segments: seq<Segment>): Option<nat> {
    if segments == [] then None
    else
      var w := Walk(segments[0], FILE_HEADER_SIZE);
      WalkAscending(segments[0], FILE_HEADER_SIZE);
      var t := TruncationOf(segments[0], w);
      if t.Some? then t else FirstTruncation(segments[1..])
  }

  /** The truncation reported is that of the first segment that has one. */
  lemma {:induction false} FirstTruncationIff(segments: seq<Segment>, p: nat)
    ensures FirstTruncation(segments) == Some(p) <==>
            exists k: nat :: k < |segments| && TruncatedAt(segments[k]) == Some(p)
              && forall j :: 0 <= j < k ==> TruncatedAt(segments[j]) == None
  {
    if segments != [] {
      FirstTruncationIff(segments[1..], p);
      assert forall j :: 0 < j < |segments| ==> segments[j] == segments[1..][j - 1];
      if TruncatedAt(segments[0]).None? && FirstTruncation(segments[1..]) == Some(p) {
        var k: nat :| k < |segments[1..]| && TruncatedAt(segments[1..][k]) == Some(p)
          && forall j :: 0 <= j < k ==> TruncatedAt(segments[1..][j]) == None;
        assert TruncatedAt(segments[k + 1]) == Some(p);
      }
    }
  }

  function TruncatedAt(data: Segment): Option<nat> {
    WalkAscending(data, FILE_HEADER_SIZE);
    TruncationOf(data, Walk(data, FILE_HEADER_SIZE))
  }

  method GatherEvidence(segments: seq<Segment>) returns (evidence: seq<Evidence>, truncation: Option<nat>)
    ensures evidence == AllEvidence(segments)
    ensures truncation == FirstTruncation(segments)
  {
    hide Walk, TableRefOf, SectorsDataEnd, TruncationOf;
    evidence, truncation := [], None;
    ghost var all := FirstTruncation(segments);
    for k := 0 to |segments|
      invariant |evidence| == k && forall j :: 0 <= j < k ==> evidence[j] == EvidenceOf(segments[j])
      invariant all == if truncation.Some? then truncation else FirstTruncation(segments[k..])
    {
      assert segments[k..][0] == segments[k] && segments[k..][1..] == segments[k + 1..];
      var sections, broken := RecoverWalk(segments[k]);
      if truncation.None? {
        truncation := broken;
      }
      evidence := evidence + [Evidence(segments[k], TableRefOf(segments[k], sections, "table"),
                                       TableRefOf(segments[k], sections, "table2"),
                                       SectorsDataEnd(sections, |segments[k]|))];
    }
    assert segments[|segments|..] == [];
  }

  /** The report is the account of the chunks looked at, plus the tail the chunks never reached. */
  ghost predicate Accounts(ledger: Ledger, report: Report, bytes: Data)
    requires ledger.chunkSize > 0
  {
    var p := ledger.Processed();
    var t := TallyAt(ledger, p);
    && report.imageSize == ledger.imageSize && report.chunkSize == ledger.chunkSize
       && report.chunksTotal == ledger.chunkCount
    && |ledger.Output(p)| <= ledger.imageSize
    && report.tally == t.(bytesZeroFilled := t.bytesZeroFilled + (ledger.imageSize - |ledger.Output(p)|))
    && bytes == ledger.Output(p) + Zeros(ledger.imageSize - |ledger.Output(p)|)
  }

  /** The chunk loop: stop when the image is complete or the chunks run out. */
  method ExportChunks(job: Job, out: Sink) returns (tally: Tally, bytesRemaining: nat)
    requires job.chunkSize > 0 && out.bytes == []
    modifies out
    ensures var ledger := job.AsLedger();
            tally == TallyAt(ledger, ledger.Processed()) && out.bytes == ledger.Output(ledger.Processed())
    ensures |out.bytes| + bytesRemaining == job.imageSize
  {
    hide Job.OutcomeOf, AddChunk, CeilDiv, IsBest, Fit, Zeros, TallyAt, Ledger.Output;
    var counts := job.Counts();
    ghost var ledger := job.AsLedger();
    StartEmpty(ledger);
    tally := Tally(0, 0, 0, 0, 0, 0, [], []);
    bytesRemaining := job.imageSize;
    var idx := 0;
    while idx < job.chunkCount
      invariant idx <= ledger.Processed()
      invariant tally == TallyAt(ledger, idx) && out.bytes == ledger.Output(idx)
      invariant bytesRemaining == SatSub(ledger.imageSize, ledger.At(idx))
    {
      if bytesRemaining == 0 {
        break;
      }
      var logical := Min(bytesRemaining, job.chunkSize);
      var o := DecodeBest(job, counts, idx);
      tally := ExportChunk(out, tally, idx, o, logical);
      bytesRemaining := SatSub(bytesRemaining, logical);
      NextIndex(ledger, idx);
      OneMore(ledger, idx);
      idx := idx + 1;
    }
    if bytesRemaining == 0 {
      AtCeil(job.imageSize, job.chunkSize, if idx <= CeilDiv(job.imageSize, job.chunkSize) then idx else 0);
    }
    TallyBytes(ledger, idx);
  }

  lemma OneMore(ledger: Ledger, idx: nat)
    ensures TallyAt(ledger, idx + 1) ==
            AddChunk(TallyAt(ledger, idx), idx, ledger.outcome(idx), ledger.Logical(idx))
    ensures ledger.Output(idx + 1) ==
            ledger.Output(idx) + if ledger.outcome(idx).Lost? then Zeros(ledger.Logical(idx))
                                 else Fit(ledger.outcome(idx).bytes, ledger.Logical(idx))
  {
    hide AddChunk, Fit, Zeros, Ledger.Logical;
  }

  lemma StartEmpty(ledger: Ledger)
    ensures TallyAt(ledger, 0) == Tally(0, 0, 0, 0, 0, 0, [], []) && ledger.Output(0) == []
  {
  }

  lemma NextIndex(ledger: Ledger, idx: nat)
    requires ledger.chunkSize > 0 && idx < ledger.chunkCount && ledger.At(idx) < ledger.imageSize
    requires idx <= ledger.Processed()
    ensures idx + 1 <= ledger.Processed()
    ensures ledger.At(idx + 1) == ledger.At(idx) + ledger.chunkSize
  {
    if idx >= CeilDiv(ledger.imageSize, ledger.chunkSize) {
      MulMonotone(CeilDiv(ledger.imageSize, ledger.chunkSize), idx, ledger.chunkSize);
      assert false;
    }
  }

  method RecoverSegments(z: Inflate, segments: seq<Segment>, out: Sink) returns (r: Result<Report>)
    requires out.bytes == []
    modifies out
    ensures r.Ok? <==> Setup(z, segments).Ok?
    ensures r.Err? ==> r.error == Setup(z, segments).error && out.bytes == []
    ensures r.Ok? ==> Accounts(Setup(z, segments).value.AsLedger(), r.value, out.bytes)
    ensures r.Ok? ==> r.value.truncationOffset == FirstTruncation(segments)
  {
    hide EvidenceOf, Walk, KindOf, ReadGeometry, TallyAt, FirstTruncation;
    if segments == [] || |segments[0]| < FILE_HEADER_SIZE || KindOf(segments[0]) != Some(Physical) {
      return Err(NotEwf);
    }
    var evidence, truncation := GatherEvidence(segments);
    var firstSections, _ := RecoverWalk(segments[0]);
    var geom := ReadGeometry(segments[0], firstSections);
    if geom.None? {
      return Err(NoGeometry);
    }
    var cs := geom.value.ChunkSize();
    if cs == 0 || cs > MAX_RECOVERED_CHUNK {
      return Err(ImplausibleChunkSize);
    }
    var job := Job(z, evidence, cs, geom.value.TotalSize(), geom.value.chunkCount);
    var tally, bytesRemaining := ExportChunks(job, out);
    tally := FillTail(out, tally, bytesRemaining, cs);
    r := Ok(Report(job.imageSize, cs, job.chunkCount, tally, truncation));
  }

  /** Zero-fill what the chunks never reached. */
  method FillTail(out: Sink, tally: Tally, bytesRemaining: nat, chunkSize: nat) returns (t: Tally)
    requires chunkSize > 0
    modifies out
    ensures out.bytes == old(out.bytes) + Zeros(bytesRemaining)
    ensures t == tally.(bytesZeroFilled := tally.bytesZeroFilled + bytesRemaining)
  {
    t := tally;
    var remaining := bytesRemaining;
    ghost var done := 0;
    assert out.bytes + Zeros(0) == out.bytes;
    while remaining > 0
      invariant done + remaining == bytesRemaining
      invariant out.bytes == old(out.bytes) + Zeros(done)
      invariant t == tally.(bytesZeroFilled := tally.bytesZeroFilled + done)
    {
      var logical := Min(remaining, chunkSize);
      ZerosConcat(done, logical);
      ConcatAssoc(old(out.bytes), Zeros(done), Zeros(logical));
      WriteZeros(out, logical);
      t := t.(bytesZeroFilled := t.bytesZeroFilled + logical);
      remaining := SatSub(remaining, logical);
      done := done + logical;
    }
  }

  // ----- What the account guarantees -----

  /** Recovery conserves bytes and chunks: the output is exactly the image's size, recovered and
      zero-filled bytes add up to it, and the three chunk counts add up to the chunks looked at. */
  lemma RecoveryConserves(ledger: Ledger, report: Report, bytes: Data)
    requires ledger.chunkSize > 0 && Accounts(ledger, report, bytes)
    ensures |bytes| == ledger.imageSize
    ensures report.tally.bytesRecovered + report.tally.bytesZeroFilled == ledger.imageSize
    ensures report.tally.primary + report.tally.table2 + report.tally.zeroFilled ==
            Min(ledger.chunkCount, CeilDiv(ledger.imageSize, ledger.chunkSize))
  {
    TallyBytes(ledger, ledger.Processed());
    TallyCounts(ledger, ledger.Processed());
  }

  /** The three counts are the ledger's chunk count exactly when the image is large enough to need every
      chunk. */
  lemma LedgerCountsAllIff(ledger: Ledger, report: Report, bytes: Data)
    requires ledger.chunkSize > 0 && Accounts(ledger, report, bytes)
    ensures report.tally.primary + report.tally.table2 + report.tally.zeroFilled == report.chunksTotal <==>
            ledger.chunkCount == 0 || ledger.At(ledger.chunkCount - 1) < ledger.imageSize
  {
    hide TallyAt, Ledger.Output, CeilDiv;
    RecoveryConserves(ledger, report, bytes);
    EnoughChunksIff(ledger.imageSize, ledger.chunkSize, ledger.chunkCount);
  }

  /** Of any image recovery accepts, the three counts add up to the chunk count the volume declares
      exactly when the volume's sectors reach into the last chunk it declares. */
  lemma CountsAreTotalIff(z: Inflate, segments: seq<Segment>, report: Report, bytes: Data)
    requires Setup(z, segments).Ok? && Accounts(Setup(z, segments).value.AsLedger(), report, bytes)
    ensures ReadGeometry(segments[0], Walk(segments[0], FILE_HEADER_SIZE)).Some?
    ensures var v := ReadGeometry(segments[0], Walk(segments[0], FILE_HEADER_SIZE)).value;
            && report.chunksTotal == v.chunkCount
            && (report.tally.primary + report.tally.table2 + report.tally.zeroFilled == v.chunkCount <==>
                v.chunkCount == 0 || (v.chunkCount - 1) * v.sectorsPerChunk < v.sectorCount)
  {
    hide Accounts, CeilDiv, Walk, KindOf;
    var v := ReadGeometry(segments[0], Walk(segments[0], FILE_HEADER_SIZE)).value;
    var ledger := Setup(z, segments).value.AsLedger();
    LedgerCountsAllIff(ledger, report, bytes);
    TotalReported(ledger, report, bytes);
    if v.chunkCount > 0 {
      ReachesLastIff(v.chunkCount, v.sectorsPerChunk, v.bytesPerSector, v.sectorCount, v.ChunkSize());
    }
  }

  lemma TotalReported(ledger: Ledger, report: Report, bytes: Data)
    requires ledger.chunkSize > 0 && Accounts(ledger, report, bytes)
    ensures report.chunksTotal == ledger.chunkCount
  {
  }

  lemma ReachesLastIff(count: U32, spc: U32, bps: U32, sectors: U64, cs: nat)
    requires count > 0 && bps > 0 && cs == spc * bps <= MAX_RECOVERED_CHUNK
    ensures (count - 1) * cs < SatMul(bps, sectors) <==> (count - 1) * spc < sectors
  {
    var a := (count - 1) * spc;
    assert (count - 1) * cs == a * bps;
    MulMonotone(count - 1, U32_LIMIT, cs);
    if a < sectors {
      MulMonotone(a + 1, sectors, bps);
    } else {
      MulMonotone(sectors, a, bps);
    }
  }

  lemma EnoughChunksIff(n: nat, d: nat, k: nat)
    requires d > 0
    ensures k <= CeilDiv(n, d) <==> k == 0 || (k - 1) * d < n
  {
    var q := CeilDiv(n, d);
    if 0 < k <= q {
      BeforeCeil(n, d, k);
    } else if q < k {
      MulMonotone(q, k - 1, d);
    }
  }

  /** On a volume the analyser raises no sector-count mismatch against, the three counts do add up to
      the declared chunk count. */
  lemma FittingVolumeCountsAll(v: Volume, ledger: Ledger, report: Report, bytes: Data)
    requires 0 < v.bytesPerSector && 0 < v.sectorsPerChunk && SectorsFit(v)
    requires 0 < v.ChunkSize() <= MAX_RECOVERED_CHUNK
    requires ledger.chunkSize == v.ChunkSize() && ledger.imageSize == v.TotalSize() && ledger.chunkCount == v.chunkCount
    requires Accounts(ledger, report, bytes)
    ensures report.tally.primary + report.tally.table2 + report.tally.zeroFilled == report.chunksTotal
    ensures CeilDiv(ledger.imageSize, ledger.chunkSize) == ledger.chunkCount
  {
    hide Accounts, CeilDiv;
    LedgerCountsAllIff(ledger, report, bytes);
    FittingSizes(v.chunkCount, v.sectorsPerChunk, v.bytesPerSector, v.sectorCount, v.ChunkSize());
    EnoughChunksIff(ledger.imageSize, ledger.chunkSize, ledger.chunkCount);
    EnoughChunksIff(ledger.imageSize, ledger.chunkSize, ledger.chunkCount + 1);
  }

  lemma FittingSizes(count: U32, spc: U32, bps: U32, sectors: U64, cs: nat)
    requires 0 < bps && 0 < spc && cs == spc * bps <= MAX_RECOVERED_CHUNK
    requires sectors <= count * spc && (count > 0 ==> (count - 1) * spc < sectors)
    ensures SatMul(bps, sectors) == bps * sectors <= count * cs
    ensures count > 0 ==> (count - 1) * cs < bps * sectors
  {
    assert count * cs == (count * spc) * bps;
    MulMonotone(sectors, count * spc, bps);
    MulMonotone(count, U32_LIMIT - 1, cs);
    if count > 0 {
      assert (count - 1) * cs == ((count - 1) * spc) * bps;
      MulMonotone((count - 1) * spc + 1, sectors, bps);
    }
  }

  /** Two one-sector chunks declared over an image of one sector: one chunk is counted, not two. */
  lemma OverDeclaredChunks(outcome: nat -> Outcome, report: Report, bytes: Data)
    requires Accounts(Ledger(outcome, 512, 512, 2), report, bytes)
    ensures report.chunksTotal == 2
    ensures report.tally.primary + report.tally.table2 + report.tally.zeroFilled == 1
  {
    RecoveryConserves(Ledger(outcome, 512, 512, 2), report, bytes);
    AtCeil(512, 512, 1);
  }

  /** The lists name each lost and each flagged chunk once, in order, and no chunk is in both. */
  lemma LossesListed(ledger: Ledger, report: Report, bytes: Data)
    requires ledger.chunkSize > 0 && Accounts(ledger, report, bytes)
    ensures ListsLost(ledger, report.tally.lost, ledger.Processed()) && |report.tally.lost| == report.tally.zeroFilled
    ensures ListsFlagged(ledger, report.tally.flagged, ledger.Processed())
            && |report.tally.flagged| == report.tally.crcFlagged
    ensures forall i :: i in report.tally.lost ==> i !in report.tally.flagged
  {
    TallyCounts(ledger, ledger.Processed());
    TallyLists(ledger, ledger.Processed());
  }

  /** The zero-filled bytes are those of the lost chunks and those the chunks never reached. */
  lemma ZeroFilledBytes(ledger: Ledger, report: Report, bytes: Data)
    requires ledger.chunkSize > 0 && Accounts(ledger, report, bytes)
    ensures report.tally.bytesZeroFilled ==
            BytesOf(ledger, report.tally.lost) + SatSub(ledger.imageSize, ledger.At(ledger.Processed()))
  {
    hide BytesOf;
    LostBytes(ledger, ledger.Processed());
    TallyBytes(ledger, ledger.Processed());
  }

  /** Each chunk looked at put exactly its bytes, or zeros if it was lost, at its place in the output;
      everything after the last of them is zero. */
  lemma OutputHoldsEachChunk(ledger: Ledger, report: Report, bytes: Data, idx: nat)
    requires ledger.chunkSize > 0 && Accounts(ledger, report, bytes) && idx < ledger.Processed()
    ensures ledger.At(idx) + ledger.Logical(idx) <= |bytes|
    ensures bytes[ledger.At(idx)..ledger.At(idx) + ledger.Logical(idx)] == ledger.Written(idx)
    ensures ledger.outcome(idx).Lost? ==> ledger.Written(idx) == Zeros(ledger.Logical(idx))
    ensures forall p :: Min(ledger.imageSize, ledger.At(ledger.Processed())) <= p < |bytes| ==> bytes[p] == 0
  {
    var k := ledger.Processed();
    TallyBytes(ledger, k);
    OutputAt(ledger, k, idx);
  }
}
