/** Recovering an image and reading it, from the same segments, through both programs. */
module EndToEnd {
  import opened Bytes
  import opened Errors
  import opened Sections
  import opened SegmentOrder
  import opened Media
  import opened Images
  import opened Opening
  import opened Reader
  import opened Recover
  import opened RecoverLoop
  import opened Agreement

  /** Segments in order are opened in that order. */
  lemma OpenedInOrder(segments: seq<Segment>)
    requires InOrder(segments)
    ensures IsOneToN(SegmentNumbers(segments))
    ensures forall ordered :: Placed(ordered, segments, SegmentNumbers(segments)) ==> ordered == segments
  {
    var numbers := SegmentNumbers(segments);
    assert numbers == OneTo(|segments|);
    forall ordered | Placed(ordered, segments, numbers)
      ensures ordered == segments
    {
      forall k | 0 <= k < |segments|
        ensures ordered[k] == segments[k]
      {
        assert numbers[k] == k + 1;
      }
    }
  }

  lemma SameKind(segment: Segment)
    requires |segment| >= FILE_HEADER_SIZE
    ensures KindOf(HeaderOf(segment)) == KindOf(segment)
  {
    assert HeaderOf(segment)[..8] == segment[..8];
  }

  /** What the strict reader's open answers on a well-formed image. */
  lemma StrictOpens(z: Inflate, segments: seq<Segment>, v: Volume, r: Result<Opened>)
    requires WellFormedImage(z, segments, v)
    requires exists ordered ::
      Placed(ordered, segments, SegmentNumbers(segments)) && OpenedAs(false, segments, ordered, r)
    ensures r.Ok?
    ensures var o, img := r.value, StrictImage(z, segments, v);
            && o.segments == segments && EagerTable(o.state.chunks) == img.table
            && o.state.chunkSize == img.chunkSize && o.mediaSize == img.totalSize
  {
    hide OpenAll, KindOf, HeaderOf, Signed, SegmentNumbers, Placed, StrictImage, InOrder;
    var ordered :| Placed(ordered, segments, SegmentNumbers(segments)) && OpenedAs(false, segments, ordered, r);
    WellFormedHeader(z, segments, v);
    OpenedInOrder(segments);
    SameKind(segments[0]);
    BothOpen(z, segments, v);
  }

  lemma WellFormedHeader(z: Inflate, segments: seq<Segment>, v: Volume)
    requires WellFormedImage(z, segments, v)
    ensures segments != [] && Signed(segments) && InOrder(segments)
    ensures |segments[0]| >= FILE_HEADER_SIZE && KindOf(segments[0]) == Some(Physical)
    ensures StrictImage(z, segments, v).z == z && StrictImage(z, segments, v).segments == segments
    ensures StrictImage(z, segments, v).totalSize == v.TotalSize()
    ensures StrictImage(z, segments, v).chunkSize == v.ChunkSize() > 0 && StrictImage(z, segments, v).table.EagerTable?
    ensures MediaOf(StrictImage(z, segments, v)).total == v.TotalSize()
  {
  }

  /** Reading all of readable media fills the buffer with it. */
  lemma WholeRead(m: PagedMedia, served: PagedMedia, r: Result<nat>, before: Data, after: Data)
    requires SamePages(served, m) && m.Readable(0, m.total) && |before| == m.total
    requires ReadOutcome(served, 0, m.total, r, before, after, 0)
    ensures after == m.Slice(0, m.total)
  {
    SameSlices(served, m, 0, m.total);
    if r.Err? {
      var p: nat :| Fails(served, 0, p, m.total, r.error);
      FailsUnreadable(served, 0, p, m.total, r.error);
      assert false;
    }
  }

  lemma ServedAlike(served: PagedMedia, image: Image, strict: Image)
    requires Serves(served, image) && image == strict
    ensures SamePages(served, MediaOf(strict))
  {
  }

  /** Open a well-formed image with the strict reader and read all of it. */
  method ReadWhole(z: Inflate, segments: seq<Segment>, ghost v: Volume) returns (buf: array<Byte>)
    requires WellFormedImage(z, segments, v)
    ensures fresh(buf)
    ensures var m := MediaOf(StrictImage(z, segments, v));
            m.chunkSize > 0 && m.Readable(0, m.total) && buf[..] == m.Slice(0, m.total)
  {
    var image := OpenStrict(z, segments, v);
    buf := ReadAll(image);
    WholeOutput(z, segments, v);
    assert MediaOf(StrictImage(z, segments, v)).total == image.totalSize;
  }

  method OpenStrict(z: Inflate, segments: seq<Segment>, ghost v: Volume) returns (image: Image)
    requires WellFormedImage(z, segments, v)
    ensures image == StrictImage(z, segments, v) && Sound(image)
  {
    hide WellFormedImage, StrictImage, OpenAll, OpenedAs, Placed, IsOneToN, SegmentNumbers, Signed;
    WellFormedHeader(z, segments, v);
    OpenedInOrder(segments);
    var answer := OpenV1(segments, false);
    StrictOpens(z, segments, v, answer);
    var o := answer.value;
    image := Image(z, o.segments, EagerTable(o.state.chunks), o.state.chunkSize, o.mediaSize);
  }

  /** One positioned read of everything an image holds. */
  method ReadAll(image: Image) returns (buf: array<Byte>)
    requires Sound(image)
    ensures fresh(buf) && buf.Length == image.totalSize
    ensures var m := MediaOf(image); m.Readable(0, m.total) ==> buf[..] == m.Slice(0, m.total)
  {
    hide Page, PagedMedia.Slice, PagedMedia.Readable, Splice, EwfReader.Valid, ReadOutcome;
    var reader := new EwfReader(image, 0, 0, None, None);
    buf := new Byte[image.totalSize](_ => 0);
    ghost var m, before := MediaOf(image), buf[..];
    ServedAlike(reader.media, image, image);
    var n := reader.ReadAt(buf, 0, buf.Length, 0);
    if m.Readable(0, m.total) {
      WholeRead(m, reader.media, n, before, buf[..]);
    }
  }

  /** Recover a well-formed image, and read it with the strict reader from the same segments: the two give
      the same bytes, and recovery reports nothing lost or suspect. */
  method RecoverAndRead(z: Inflate, segments: seq<Segment>, ghost v: Volume, out: Sink)
    returns (buf: array<Byte>, report: Report)
    requires WellFormedImage(z, segments, v) && out.bytes == []
    modifies out
    ensures fresh(buf) && buf[..] == out.bytes && |out.bytes| == v.TotalSize()
    ensures report.tally.zeroFilled == 0 && report.tally.table2 == 0 && report.tally.crcFlagged == 0
  {
    hide WellFormedImage, StrictImage, PagedMedia.Slice, PagedMedia.Readable, Accounts, Setup, MediaOf;
    WellFormedHeader(z, segments, v);
    buf := ReadWhole(z, segments, v);
    BothOpen(z, segments, v);
    var r := RecoverSegments(z, segments, out);
    report := r.value;
    RecoveredIsStrict(z, segments, v, report, out.bytes);
  }
}
