/** The strict reader: cached chunk pages, positioned reads, the read/seek cursor and verification. */
module Reader {
  import opened Bytes
  import opened Errors
  import opened Caches
  import opened ChunkTables
  import opened LazyTables
  import opened Media
  import opened Images
  import opened SegmentSources
  import opened Verifying

  /** A zlib decoder part-way through its stream. How many bytes one read delivers is up to it. */
  class Decoder {
    const stream: Inflated
    var pos: nat

    ghost predicate Valid()
      reads this
    {
      pos <= |stream.out|
    }

    constructor (z: Inflate, raw: Data)
      ensures Valid() && pos == 0 && stream == z(raw)
    {
      stream := z(raw);
      pos := 0;
    }

    /** A read into an empty range delivers nothing and looks no further. */
    method Read(buf: array<Byte>, lo: nat, hi: nat) returns (r: Result<nat>)
      requires Valid() && lo <= hi <= buf.Length
      modifies this, buf
      ensures Valid()
      ensures r.Ok? ==> pos == old(pos) + r.value && lo + r.value <= hi
      ensures r.Ok? && r.value == 0 ==> lo == hi || (pos == |stream.out| && stream.clean)
      ensures r.Err? ==> lo < hi && r.error == Decompression && old(pos) == |stream.out| && !stream.clean
      ensures r.Ok? ==> forall i :: lo <= i < lo + r.value ==> buf[i] == stream.out[old(pos) + i - lo]
      ensures forall i :: 0 <= i < buf.Length && !(r.Ok? && lo <= i < lo + r.value) ==> buf[i] == old(buf[i])
    {
      if lo == hi {
        return Ok(0);
      }
      if pos == |stream.out| {
        return if stream.clean then Ok(0) else Err(Decompression);
      }
      var most := Min(hi - lo, |stream.out| - pos);
      assert 1 <= most;
      var n: nat :| 1 <= n <= most;
      forall i | lo <= i < lo + n {
        buf[i] := stream.out[pos + i - lo];
      }
      pos := pos + n;
      r := Ok(n);
    }
  }

  /** Fill a zeroed page from the decoder until it is full, the stream ends, or it breaks. */
  method InflateInto(z: Inflate, raw: Data, page: array<Byte>) returns (ok: bool)
    requires forall i :: 0 <= i < page.Length ==> page[i] == 0
    modifies page
    ensures ok <==> ReadInflated(z, raw, page.Length).Some?
    ensures ok ==> page[..] == Padded(ReadInflated(z, raw, page.Length).value, page.Length)
  {
    var decoder := new Decoder(z, raw);
    ghost var out := decoder.stream.out;
    var total := 0;
    while true
      invariant decoder.Valid() && fresh(decoder)
      invariant total == decoder.pos <= page.Length
      invariant forall i :: 0 <= i < total ==> page[i] == out[i]
      invariant forall i :: total <= i < page.Length ==> page[i] == 0
      decreases page.Length - total
    {
      var n := decoder.Read(page, total, page.Length);
      if n.Err? {
        return false;
      }
      if n.value == 0 {
        break;
      }
      total := total + n.value;
    }
    ok := true;
    assert total == |out| ==> out[..total] == out;
    assert ReadInflated(z, raw, page.Length) == Some(out[..total]);
  }

  /** Read a chunk's bytes from its segment and decode them into a fresh page. */
  method DecodePage(image: Image, c: Chunk) returns (r: Result<Data>)
    ensures r == PageOf(image, c)
    ensures r.Err? <==> Failure(image, c).Some?
    ensures r.Err? ==> r.error == Failure(image, c).value
    ensures r.Ok? ==> c.segmentIdx < |image.segments| && IsPage(image, c, r.value)
  {
    hide ReadInflated, ReadSlice, Failure, PageByte, IsPage;
    PageIs(image, c);
    var page := new Byte[image.chunkSize](_ => 0);
    if c.segmentIdx >= |image.segments| {
      return Err(MissingSegment);
    }
    var segment := image.segments[c.segmentIdx];
    var src := Mem(segment);
    if c.Compressed() {
      var compressed := new Byte[c.size](_ => 0);
      var n := ReadAt(src, compressed, 0, compressed.Length, c.Offset());
      assert compressed[0..n] == compressed[..n];
      var ok := InflateInto(image.z, compressed[..n], page);
      if !ok {
        return Err(Decompression);
      }
    } else {
      var toRead := Min(c.size, page.Length);
      var n := ReadAt(src, page, 0, toRead, c.Offset());
      if n < toRead {
        return Err(UnexpectedEof);
      }
      assert page[..] == page[0..n] + Zeros(page.Length - n);
    }
    r := Ok(page[..]);
  }

  class EwfReader {
    const image: Image
    const lazyTable: LazyChunkTable?
    const cache: Lru<Data>
    const storedMd5: Option<Data>
    const storedSha1: Option<Data>
    var position: U64

    /** The media this reader serves. It never changes. */
    ghost const media: PagedMedia

    function Caches(): set<object> {
      {cache} + if lazyTable == null then {} else {lazyTable.cache}
    }

    /** Every cached page is the page its chunk decodes to, and the lazy table's cache is faithful. */
    ghost predicate Valid()
      reads Caches()
    {
      && Sound(image)
      && Serves(media, image)
      && cache.Valid()
      && (forall id :: id in cache.entries ==> media.page(id) == Ok(cache.entries[id]))
      && (image.table.LazyTable? <==> lazyTable != null)
      && (lazyTable != null ==>
           && lazyTable.cache as object != cache
           && lazyTable.index == image.table.index && lazyTable.chunkSize == image.chunkSize
           && lazyTable.Valid(image.segments))
    }

    constructor (image: Image, cacheSize: nat, sectionCache: nat, storedMd5: Option<Data>, storedSha1: Option<Data>)
      requires Sound(image)
      ensures Valid() && this.image == image && position == 0 && Serves(media, image)
      ensures this.storedMd5 == storedMd5 && this.storedSha1 == storedSha1
      ensures fresh(Caches())
    {
      this.image := image;
      media := MediaOf(image);
      this.storedMd5, this.storedSha1 := storedMd5, storedSha1;
      position := 0;
      var pages := new Lru<Data>(cacheSize);
      cache := pages;
      if image.table.LazyTable? {
        var table := new LazyChunkTable(image.table.index, image.chunkSize, sectionCache);
        assert table.Valid(image.segments);
        lazyTable := table;
      } else {
        lazyTable := null;
      }
    }

    method GetChunk(id: nat) returns (r: Result<Chunk>)
      requires Valid()
      modifies Caches()
      ensures Valid() && cache.entries == old(cache.entries)
      ensures r == ChunkAt(image, id)
    {
      match image.table {
        case EagerTable(chunks) =>
          r := if id < |chunks| then Ok(chunks[id]) else Err(ChunkOutOfRange);
        case LazyTable(_) =>
          r := lazyTable.Get(id, image.segments);
      }
    }

    /** Decode a chunk into a fresh page, without the page cache. */
    method DecompressChunk(id: nat) returns (r: Result<Data>)
      requires Valid()
      modifies Caches()
      ensures Valid() && cache.entries == old(cache.entries)
      ensures r == media.page(id)
    {
      var chunk := GetChunk(id);
      if chunk.Err? {
        return Err(chunk.error);
      }
      r := DecodePage(image, chunk.value);
    }

    /** A chunk's page, from the cache when it is there. The lock is held only around the probe and
        the insertion. */
    method ReadChunk(id: nat) returns (r: Result<Data>)
      requires Valid()
      modifies Caches()
      ensures Valid()
      ensures r == media.page(id)
    {
      var hit := cache.Get(id);
      if hit.Some? {
        return Ok(hit.value);
      }
      r := DecompressChunk(id);
      if r.Ok? {
        cache.Put(id, r.value);
      }
    }

    /** One turn of the positioned read: fetch a page and copy the part of it that is due. */
    method ReadPart(buf: array<Byte>, at: nat, n: nat, off: nat) returns (failure: Option<Error>)
      requires Valid() && 0 < n && at + n <= buf.Length && Mod(off, image.chunkSize) + n <= image.chunkSize
      modifies buf, Caches()
      ensures Valid()
      ensures failure.None? ==>
              media.Readable(off, off + n) && buf[..] == Splice(old(buf[..]), at, media.Slice(off, off + n))
      ensures failure.Some? ==> media.page(Div(off, image.chunkSize)) == Err(failure.value) && buf[..] == old(buf[..])
    {
      var id := Div(off, image.chunkSize);
      var pageOffset := Mod(off, image.chunkSize);
      PageCovers(media, off, n, id, pageOffset);
      var page := ReadChunk(id);
      if page.Err? {
        return Some(page.error);
      }
      CopyInto(buf, at, page.value[pageOffset..pageOffset + n]);
      failure := None;
    }

    /** A positioned read into `buf[lo..hi]`. */
    method ReadAt(buf: array<Byte>, lo: nat, hi: nat, offset: nat) returns (r: Result<nat>)
      requires Valid() && lo <= hi <= buf.Length
      modifies buf, Caches()
      ensures Valid()
      ensures ReadOutcome(media, offset, hi - lo, r, old(buf[..]), buf[..], lo)
      ensures ReadsBytes(image, offset, Min(hi - lo, SatSub(image.totalSize, offset)), r, buf[..], lo)
    {
      hide Lru.Valid, Page, CacheFaithful, Contiguous, Splice, PagedMedia.Slice, Table.Count, LazyChunkTable.Valid,
           ReadsBytes, ReadOutcome;
      ghost var n := Due(media, offset, hi - lo);
      ghost var before := buf[..];
      ReadNone(media, offset, before, lo);
      var bufIdx := 0;
      var off := offset;
      while true
        invariant Valid()
        invariant off == offset + bufIdx && bufIdx <= n
        invariant ReadSoFar(media, offset, bufIdx, before, buf[..], lo)
        decreases n - bufIdx
      {
        var remainingImage := SatSub(image.totalSize, off);
        var remainingBuf := hi - lo - bufIdx;
        var inChunk := image.chunkSize - Mod(off, image.chunkSize);
        var toRead := Min(Min(inChunk, remainingImage), remainingBuf);
        if toRead == 0 {
          break;
        }
        ghost var now := buf[..];
        var failure := ReadPart(buf, lo + bufIdx, toRead, off);
        if failure.Some? {
          ReadFailed(media, offset, bufIdx, hi - lo, before, now, lo, failure.value);
          ReadIsBytes(media, image, offset, hi - lo, Err(failure.value), before, buf[..], lo);
          return Err(failure.value);
        }
        ReadMore(media, offset, bufIdx, toRead, before, now, buf[..], lo);
        off := off + toRead;
        bufIdx := bufIdx + toRead;
      }
      r := Ok(bufIdx);
      ReadDone(media, offset, hi - lo, before, buf[..], lo);
      ReadIsBytes(media, image, offset, hi - lo, r, before, buf[..], lo);
    }

    /** Read at the cursor and move it past what was read. */
    method Read(buf: array<Byte>, lo: nat, hi: nat) returns (r: Result<nat>)
      requires Valid() && lo <= hi <= buf.Length
      modifies this`position, buf, Caches()
      ensures Valid()
      ensures ReadOutcome(media, old(position), hi - lo, r, old(buf[..]), buf[..], lo)
      ensures position == old(position) + if r.Ok? then r.value else 0
    {
      hide Lru.Valid, Page, CacheFaithful, Contiguous, Splice, PagedMedia.Slice, LazyChunkTable.Valid;
      r := ReadAt(buf, lo, hi, position);
      if r.Ok? {
        position := position + r.value;
      }
    }

    method Seek(from: SeekFrom) returns (r: Result<U64>)
      requires Valid()
      modifies this`position
      ensures Valid()
      ensures var target := SeekTarget(old(position), image.totalSize, from);
              && (target >= 0 ==> r == Ok(target) && position == target)
              && (target < 0 ==> r == Err(NegativeSeek) && position == old(position))
    {
      var target := SeekTarget(position, image.totalSize, from);
      if target < 0 {
        return Err(NegativeSeek);
      }
      position := target;
      r := Ok(position);
    }

    /** Decode chunks `start` up to `end`, in order, without the page cache. */
    method DecodeBatch(start: nat, end: nat) returns (r: Result<seq<Data>>)
      requires Valid() && start <= end
      modifies Caches()
      ensures Valid()
      ensures r.Ok? ==> |r.value| == end - start && forall k :: start <= k < end ==>
              media.page(k) == Ok(r.value[k - start])
      ensures r.Err? ==> exists k :: start <= k < end && media.page(k) == Err(r.error)
    {
      hide Lru.Valid, Page, CacheFaithful, Contiguous, LazyChunkTable.Valid;
      var pages: seq<Data> := [];
      for id := start to end
        invariant Valid()
        invariant |pages| == id - start
        invariant forall k :: start <= k < id ==> media.page(k) == Ok(pages[k - start])
      {
        var page := DecompressChunk(id);
        if page.Err? {
          return Err(page.error);
        }
        pages := pages + [page.value];
      }
      r := Ok(pages);
    }

    /** Stream every chunk through the hashers, one batch of decoded pages at a time. */
    method Verify(md5: Data -> Data, sha1: Data -> Data, threads: nat) returns (r: Result<VerifyResult>)
      requires Valid()
      modifies Caches()
      ensures Valid()
      ensures r.Ok? <==> media.PagesOk(media.count)
      ensures r.Ok? ==> Verifies(media, md5, r.value)
      ensures r.Ok? ==> Judges(r.value.md5Match, storedMd5, md5(HashedUpTo(media, media.count)))
      ensures r.Ok? && storedSha1.None? ==> r.value.computedSha1 == None
      ensures r.Ok? && storedSha1.Some? ==> r.value.computedSha1 == Some(sha1(HashedUpTo(media, media.count)))
      ensures r.Ok? ==> Judges(r.value.sha1Match, storedSha1, sha1(HashedUpTo(media, media.count)))
      ensures r.Ok? && r.value.IsComplete() ==>
        && media.Readable(0, media.total)
        && var whole := media.Slice(0, media.total);
           && (r.value.md5Match == Some(true) <==> storedMd5 == Some(md5(whole)))
           && (r.value.md5Match == Some(false) <==> storedMd5.Some? && storedMd5.value != md5(whole))
           && (r.value.md5Match == None <==> storedMd5.None?)
           && (r.value.sha1Match == Some(true) <==> storedSha1 == Some(sha1(whole)))
           && (r.value.sha1Match == Some(false) <==> storedSha1.Some? && storedSha1.value != sha1(whole))
           && (r.value.sha1Match == None <==> storedSha1.None?)
      ensures r.Err? ==> exists k :: 0 <= k < media.count && media.page(k) == Err(r.error)
    {
      hide Lru.Valid, Page, CacheFaithful, Contiguous, LazyChunkTable.Valid, HashedUpTo, PagedMedia.Slice,
           PagedMedia.Readable;
      var md5Hasher := new Hasher();
      var sha1Hasher: Hasher? := null;
      if storedSha1.Some? {
        sha1Hasher := new Hasher();
      }
      var count := image.table.Count();
      var batch := if threads == 0 then 1 else threads * 4;
      var hashed := 0;
      var start := 0;
      NothingHashed(media);
      while start < count
        invariant Valid() && fresh(md5Hasher) && (sha1Hasher != null ==> fresh(sha1Hasher)) && md5Hasher != sha1Hasher
        invariant start <= count && media.PagesOk(start)
        invariant sha1Hasher != null <==> storedSha1.Some?
        invariant md5Hasher.fed == HashedUpTo(media, start) && hashed == |md5Hasher.fed|
        invariant sha1Hasher != null ==> sha1Hasher.fed == md5Hasher.fed
        decreases count - start
      {
        var end := Min(start + batch, count);
        var pages := DecodeBatch(start, end);
        if pages.Err? {
          return Err(pages.error);
        }
        forall i | 0 <= i < end - start
          ensures media.page(start + i) == Ok(pages.value[i])
        {
          assert pages.value[i] == pages.value[(start + i) - start];
        }
        hashed := FeedBatch(media, image.totalSize, pages.value, start, hashed, md5Hasher, sha1Hasher);
        start := end;
      }
      var computedMd5 := md5(md5Hasher.fed);
      var computedSha1 := if sha1Hasher != null then Some(sha1(sha1Hasher.fed)) else None;
      var addressable := Mod(image.chunkSize * count, U64_LIMIT);
      r := Ok(VerifyResult(computedMd5, computedSha1, Matches(storedMd5, Some(computedMd5)),
                           Matches(storedSha1, computedSha1), addressable, image.totalSize));
      WholeVerified(media, md5, r.value);
    }
  }

  /** A series of cursor reads of the given lengths, the pieces put together: however the lengths are
      chosen, they give the media from the cursor on, as far as their sum and the media reach. */
  method ReadPieces(reader: EwfReader, lens: seq<nat>) returns (r: Result<Data>)
    requires reader.Valid()
    modifies reader`position, reader.Caches()
    ensures reader.Valid()
    ensures r.Ok? ==> PiecesRead(reader.media, old(reader.position), lens, r.value)
    ensures r.Ok? ==> reader.position == old(reader.position) + |r.value|
    ensures var m, at := reader.media, old(reader.position);
            r.Err? ==> exists p :: Fails(m, at, p, Due(m, at, Total(lens)), r.error)
  {
    hide EwfReader.Valid, PagedMedia.Slice, PagedMedia.Readable, Fails, Splice, PiecesRead;
    ghost var m, start := reader.media, reader.position;
    ServesPages(reader);
    ghost var end := start + Due(m, start, Total(lens));
    var data: Data := [];
    NothingRead(m, start);
    assert lens[0..] == lens;
    for i := 0 to |lens|
      invariant reader.Valid()
      invariant reader.position == start + |data| <= end
      invariant reader.position + Due(m, reader.position, Total(lens[i..])) == end
      invariant m.Readable(start, reader.position) && data == m.Slice(start, reader.position)
    {
      ghost var at := reader.position;
      assert lens[i..][0] == lens[i] && lens[i..][1..] == lens[i + 1..];
      var piece := ReadPiece(reader, lens[i]);
      if piece.Err? {
        ghost var p :| Fails(m, at, p, Due(m, at, lens[i]), piece.error);
        FailsLater(m, start, at, p, Due(m, at, lens[i]), end - start, piece.error);
        return Err(piece.error);
      }
      SliceJoin(m, start, at, reader.position);
      data := data + piece.value;
    }
    assert lens[|lens|..] == [];
    PiecesAre(m, start, lens, data);
    r := Ok(data);
  }

  /** One cursor read into a buffer of `n` bytes. */
  method ReadPiece(reader: EwfReader, n: nat) returns (r: Result<Data>)
    requires reader.Valid()
    modifies reader`position, reader.Caches()
    ensures reader.Valid()
    ensures var at, k := old(reader.position), Due(reader.media, old(reader.position), n);
            && (r.Ok? ==> reader.media.Readable(at, at + k) && r.value == reader.media.Slice(at, at + k))
            && (r.Ok? ==> reader.position == at + k)
            && (r.Err? ==> exists p :: Fails(reader.media, at, p, k, r.error))
  {
    hide EwfReader.Valid, PagedMedia.Slice, PagedMedia.Readable, Fails;
    ServesPages(reader);
    var buf := new Byte[n](_ => 0);
    ghost var before := buf[..];
    var got := reader.Read(buf, 0, n);
    if got.Err? {
      return Err(got.error);
    }
    r := Ok(buf[..got.value]);
  }

  lemma ServesPages(reader: EwfReader)
    requires reader.Valid()
    ensures reader.media.Served() && reader.media.total == reader.image.totalSize
  {
  }

  /** What the series returns is the range of the media, which is also the reads' own slices in a row. */
  ghost predicate PiecesRead(m: PagedMedia, pos: nat, lens: seq<nat>, data: Data) {
    && m.chunkSize > 0 && m.Readable(pos, pos + Due(m, pos, Total(lens)))
    && data == m.Slice(pos, pos + Due(m, pos, Total(lens))) == ReadSeries(m, pos, lens)
  }

  lemma PiecesAre(m: PagedMedia, pos: nat, lens: seq<nat>, data: Data)
    requires m.chunkSize > 0 && m.Readable(pos, pos + Due(m, pos, Total(lens)))
    requires data == m.Slice(pos, pos + Due(m, pos, Total(lens)))
    ensures PiecesRead(m, pos, lens, data)
  {
    AnySplitReadsTheSame(m, pos, lens);
  }

  lemma NothingRead(m: PagedMedia, pos: nat)
    requires m.chunkSize > 0
    ensures m.Readable(pos, pos) && m.Slice(pos, pos) == []
  {
  }

  lemma FailsLater(m: PagedMedia, start: nat, at: nat, p: nat, n: nat, total: nat, e: Error)
    requires m.chunkSize > 0 && start <= at && m.Readable(start, at) && Fails(m, at, p, n, e) && at + n <= start + total
    ensures Fails(m, start, p, total, e)
  {
  }

  /** Whether a stored digest was met; nothing to say when either side is missing. */
  function Matches(stored: Option<Data>, computed: Option<Data>): Option<bool> {
    if stored.None? || computed.None? then None else Some(stored.value == computed.value)
  }

  lemma NothingHashed(m: PagedMedia)
    requires m.Served()
    ensures HashedUpTo(m, 0) == []
  {
  }

  method CopyInto(buf: array<Byte>, at: nat, d: Data)
    requires at + |d| <= buf.Length
    modifies buf
    ensures buf[..] == Splice(old(buf[..]), at, d)
  {
    forall i | at <= i < at + |d| {
      buf[i] := d[i - at];
    }
  }

  /** The first `idx` bytes have been delivered and nothing else has changed. */
  ghost predicate ReadSoFar(m: PagedMedia, offset: nat, idx: nat, before: Data, now: Data, lo: nat)
    requires m.chunkSize > 0 && lo + idx <= |before|
  {
    m.Readable(offset, offset + idx) && now == Splice(before, lo, m.Slice(offset, offset + idx))
  }

  lemma ReadNone(m: PagedMedia, offset: nat, before: Data, lo: nat)
    requires m.chunkSize > 0 && lo <= |before|
    ensures ReadSoFar(m, offset, 0, before, before, lo)
  {
  }

  lemma ReadDone(m: PagedMedia, offset: nat, want: nat, before: Data, now: Data, lo: nat)
    requires m.chunkSize > 0 && lo + want <= |before|
    requires ReadSoFar(m, offset, Due(m, offset, want), before, now, lo)
    ensures ReadOutcome(m, offset, want, Ok(Due(m, offset, want)), before, now, lo)
  {
  }

  lemma ReadMore(m: PagedMedia, offset: nat, idx: nat, k: nat, before: Data, now: Data, after: Data, lo: nat)
    requires m.chunkSize > 0 && lo + idx + k <= |before| && ReadSoFar(m, offset, idx, before, now, lo)
    requires m.Readable(offset + idx, offset + idx + k)
    requires after == Splice(now, lo + idx, m.Slice(offset + idx, offset + idx + k))
    ensures ReadSoFar(m, offset, idx + k, before, after, lo)
  {
    SliceConcat(m, offset, offset + idx, offset + idx + k);
    SpliceSplice(before, lo, m.Slice(offset, offset + idx), m.Slice(offset + idx, offset + idx + k));
  }

  lemma ReadFailed(m: PagedMedia, offset: nat, idx: nat, want: nat, before: Data, now: Data, lo: nat, e: Error)
    requires m.chunkSize > 0 && lo + want <= |before| && idx < Due(m, offset, want)
    requires ReadSoFar(m, offset, idx, before, now, lo)
    requires m.page(Div(offset + idx, m.chunkSize)) == Err(e)
    ensures ReadOutcome(m, offset, want, Err(e), before, now, lo)
  {
    assert Fails(m, offset, offset + idx, Due(m, offset, want), e);
  }
}
