/** What an open image is, and the page its reader decodes for each chunk. */
module Images {
  import opened Bytes
  import opened Errors
  import opened ChunkTables
  import opened LazyTables
  import opened Media

  // ----- Inflate -----

  /** What a zlib stream yields: some bytes, then a clean end or an error. */
  datatype Inflated = Inflated(out: Data, clean: bool)

  /** The decompressor, an arbitrary function of the compressed bytes. */
  type Inflate = Data -> Inflated

  /** Reading at most `limit` bytes of the stream: an error matters only if the reader gets that far. */
  function ReadInflated(z: Inflate, raw: Data, limit: nat): (r: Option<Data>)
    ensures r.Some? ==> |r.value| <= limit
  {
    var stream := z(raw);
    if |stream.out| >= limit then Some(stream.out[..limit])
    else if stream.clean then Some(stream.out)
    else None
  }

  // ----- The image -----

  datatype Table = EagerTable(chunks: seq<Chunk>) | LazyTable(index: seq<SectionMeta>) {
    function Count(): nat {
      match this
      case EagerTable(chunks) => |chunks|
      case LazyTable(index) => Len(index)
    }
  }

  datatype Image = Image(
    z: Inflate,
    segments: seq<Segment>,
    table: Table,
    chunkSize: U64,
    totalSize: U64)

  predicate Sound(img: Image) {
    && img.chunkSize > 0
    && (img.table.LazyTable? ==> Contiguous(img.table.index))
  }

  /** The paged media the image's reader serves. */
  function MediaOf(img: Image): (m: PagedMedia)
    ensures m.Uniform()
  {
    PagedMedia(id => Page(img, id), img.chunkSize, img.totalSize, img.table.Count())
  }

  function ChunkAt(img: Image, id: nat): Result<Chunk> {
    match img.table
    case EagerTable(chunks) => if id < |chunks| then Ok(chunks[id]) else Err(ChunkOutOfRange)
    case LazyTable(index) => Lookup(index, img.chunkSize, img.segments, id)
  }

  /** A positioned read of up to `n` bytes, short only at the end of the segment. */
  function ReadSlice(seg: Segment, off: nat, n: nat): (d: Data)
    ensures |d| == Min(n, SatSub(|seg|, off))
  {
    if off >= |seg| then [] else seg[off..Min(off + n, |seg|)]
  }

  function Padded(d: Data, n: nat): (r: Data)
    requires |d| <= n
    ensures |r| == n
  {
    d + Zeros(n - |d|)
  }

  /** The decoded page of one chunk: exactly `chunkSize` bytes, or the reason there is none. */
  function PageOf(img: Image, c: Chunk): (r: Result<Data>)
    ensures r.Ok? ==> |r.value| == img.chunkSize
  {
    if c.segmentIdx >= |img.segments| then Err(MissingSegment)
    else if c.Compressed() then
      var raw := ReadSlice(img.segments[c.segmentIdx], c.Offset(), c.size);
      var out := ReadInflated(img.z, raw, img.chunkSize);
      if out.None? then Err(Decompression) else Ok(Padded(out.value, img.chunkSize))
    else
      var n := Min(c.size, img.chunkSize);
      var raw := ReadSlice(img.segments[c.segmentIdx], c.Offset(), n);
      if |raw| < n then Err(UnexpectedEof) else Ok(Padded(raw, img.chunkSize))
  }

  function Page(img: Image, id: nat): (r: Result<Data>)
    ensures r.Ok? ==> |r.value| == img.chunkSize
  {
    var c := ChunkAt(img, id);
    if c.Err? then Err(c.error) else PageOf(img, c.value)
  }

  /** `m` is what `image` serves. */
  ghost predicate Serves(m: PagedMedia, image: Image) {
    && m.Served()
    && m.chunkSize == image.chunkSize && m.total == image.totalSize && m.count == image.table.Count()
    && forall id :: m.page(id) == Page(image, id)
  }

  // ----- What a page is, byte by byte -----

  /** The bytes a chunk has on disk, as far as its segment reaches. */
  function StoredBytes(segments: seq<Segment>, c: Chunk): Data
    requires c.segmentIdx < |segments|
  {
    var seg, off := segments[c.segmentIdx], c.offsetPacked % 0x8000_0000_0000_0000;
    seg[Min(off, |seg|)..Min(off + c.size, |seg|)]
  }

  /** Why a chunk has no page, if it has none: its segment is not there, its stream breaks before it fills the
      page, or its segment ends before the bytes that are due. */
  function Failure(img: Image, c: Chunk): Option<Error> {
    if c.segmentIdx >= |img.segments| then Some(MissingSegment)
    else
      var stored := StoredBytes(img.segments, c);
      if c.offsetPacked >= 0x8000_0000_0000_0000 then
        if |img.z(stored).out| < img.chunkSize && !img.z(stored).clean then Some(Decompression) else None
      else if |stored| < c.size && |stored| < img.chunkSize then Some(UnexpectedEof)
      else None
  }

  /** Byte `i` of a chunk's page: of its inflated stream or of its stored bytes, and zero behind their end. */
  function PageByte(img: Image, c: Chunk, i: nat): Byte
    requires c.segmentIdx < |img.segments|
  {
    var stored := StoredBytes(img.segments, c);
    var data := if c.offsetPacked >= 0x8000_0000_0000_0000 then img.z(stored).out else stored;
    if i < |data| then data[i] else 0
  }

  predicate IsPage(img: Image, c: Chunk, page: Data)
    requires c.segmentIdx < |img.segments|
  {
    |page| == img.chunkSize && forall i :: 0 <= i < img.chunkSize ==> page[i] == PageByte(img, c, i)
  }

  /** A chunk has a page exactly when nothing fails, and the page is those bytes. */
  lemma PageIs(img: Image, c: Chunk)
    ensures PageOf(img, c).Err? <==> Failure(img, c).Some?
    ensures Failure(img, c).Some? ==> PageOf(img, c) == Err(Failure(img, c).value)
    ensures PageOf(img, c).Ok? ==> c.segmentIdx < |img.segments| && IsPage(img, c, PageOf(img, c).value)
  {
    if c.segmentIdx < |img.segments| {
      var seg := img.segments[c.segmentIdx];
      assert ReadSlice(seg, c.Offset(), c.size) == StoredBytes(img.segments, c);
      var n := Min(c.size, img.chunkSize);
      assert ReadSlice(seg, c.Offset(), n) == StoredBytes(img.segments, c)[..Min(n, |StoredBytes(img.segments, c)|)];
    }
  }

  /** Why the chunk that holds byte `p` of the media cannot be read, if it cannot. */
  function FailureAt(img: Image, p: nat): Option<Error>
    requires img.chunkSize > 0
  {
    var c := ChunkAt(img, Div(p, img.chunkSize));
    if c.Err? then Some(c.error) else Failure(img, c.value)
  }

  /** Byte `p` of the media is `b`, a byte of the page of its chunk. */
  predicate MediaByteIs(img: Image, p: nat, b: Byte)
    requires img.chunkSize > 0
  {
    var c := ChunkAt(img, Div(p, img.chunkSize));
    c.Ok? && c.value.segmentIdx < |img.segments| && b == PageByte(img, c.value, Mod(p, img.chunkSize))
  }

  /** A positioned read of `n` due bytes fails exactly when one of the chunks it touches cannot be read, for the
      reason the first of them cannot; otherwise it delivers the bytes of their pages. */
  ghost predicate ReadsBytes(img: Image, offset: nat, n: nat, r: Result<nat>, after: Data, lo: nat)
    requires img.chunkSize > 0
  {
    && (r.Err? <==> exists p :: offset <= p < offset + n && FailureAt(img, p).Some?)
    && (r.Err? ==> exists p :: offset <= p < offset + n && FailureAt(img, p) == Some(r.error)
                               && forall q :: offset <= q < p ==> FailureAt(img, q) == None)
    && (r.Ok? ==> r.value == n && lo + n <= |after|)
    && (r.Ok? ==> var got := after[lo..lo + n]; forall i :: 0 <= i < n ==> MediaByteIs(img, offset + i, got[i]))
  }

  lemma MediaByteServed(m: PagedMedia, img: Image, p: nat)
    requires Serves(m, img)
    ensures m.Present(p) <==> FailureAt(img, p) == None
    ensures m.page(Div(p, m.chunkSize)).Err? ==> FailureAt(img, p) == Some(m.page(Div(p, m.chunkSize)).error)
    ensures m.Present(p) ==> MediaByteIs(img, p, m.ByteAt(p))
  {
    hide PageOf, Failure, PageByte;
    var id := Div(p, m.chunkSize);
    assert m.page(id) == Page(img, id);
    var c := ChunkAt(img, id);
    if c.Ok? {
      PageIs(img, c.value);
    }
  }

  /** What a positioned read promises of the pages, it promises of the bytes. */
  lemma ReadIsBytes(m: PagedMedia, img: Image, offset: nat, want: nat, r: Result<nat>, before: Data, after: Data,
                    lo: nat)
    requires Serves(m, img) && lo + want <= |before| && ReadOutcome(m, offset, want, r, before, after, lo)
    ensures ReadsBytes(img, offset, Due(m, offset, want), r, after, lo)
  {
    hide FailureAt, MediaByteIs, Page, PagedMedia.ByteAt;
    forall p: nat
      ensures m.Present(p) <==> FailureAt(img, p) == None
      ensures m.page(Div(p, m.chunkSize)).Err? ==> FailureAt(img, p) == Some(m.page(Div(p, m.chunkSize)).error)
      ensures m.Present(p) ==> MediaByteIs(img, p, m.ByteAt(p))
    {
      MediaByteServed(m, img, p);
    }
    var n := Due(m, offset, want);
    if r.Err? {
      var p :| Fails(m, offset, p, n, r.error) && after == Splice(before, lo, m.Slice(offset, p));
      assert FailureAt(img, p) == Some(r.error);
    } else {
      var got := after[lo..lo + n];
      assert got == m.Slice(offset, offset + n);
    }
  }
}
