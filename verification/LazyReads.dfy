/** Reading through the lazy and through the eager chunk table of one image. */
module LazyReads {
  import opened Bytes
  import opened Errors
  import opened ChunkTables
  import opened LazyTables
  import opened Opening
  import opened LazyEager
  import opened Media
  import opened Images

  // ----- The two images -----

  function EagerImage(z: Inflate, segments: seq<Segment>, e: OpenState, total: U64): Image {
    Image(z, segments, EagerTable(e.chunks), e.chunkSize, total)
  }

  function LazyImage(z: Inflate, segments: seq<Segment>, l: OpenState, total: U64): Image {
    Image(z, segments, LazyTable(l.index), l.chunkSize, total)
  }

  /** Interchangeable tables give every chunk the same page, and refuse the same chunks. */
  lemma PagesAlike(z: Inflate, segments: seq<Segment>, e: OpenState, l: OpenState, total: U64, id: nat)
    requires Related(e, l, segments) && Interchangeable(e.chunks, l.index, l.chunkSize, segments)
    ensures Page(EagerImage(z, segments, e, total), id) == Page(LazyImage(z, segments, l, total), id)
  {
    hide Lookup, PageOf, Flat, AllPresent;
    if id < |e.chunks| {
      assert Lookup(l.index, l.chunkSize, segments, id) == Ok(e.chunks[id]);
      PageIgnoresTable(EagerImage(z, segments, e, total), LazyImage(z, segments, l, total), e.chunks[id]);
    } else {
      EveryIdHeld(l.index, id);
      NotHeld(l.index, l.chunkSize, segments, id);
    }
  }

  lemma NotHeld(index: seq<SectionMeta>, chunkSize: U64, segments: seq<Segment>, id: nat)
    requires SectionOfChunk(index, id).None?
    ensures Lookup(index, chunkSize, segments, id) == Err(ChunkOutOfRange)
  {
  }

  lemma PageIgnoresTable(a: Image, b: Image, c: Chunk)
    requires a.z == b.z && a.segments == b.segments && a.chunkSize == b.chunkSize
    ensures PageOf(a, c) == PageOf(b, c)
  {
  }

  /** An image whose every table section kept all its entries and met the final chunk size reads the
      same through either table: one positioned read, into the same buffer, has the same answer and leaves
      the same bytes. */
  lemma LazyReadsAsEager(z: Inflate, segments: seq<Segment>, total: U64, offset: nat, want: nat, r: Result<nat>,
                         r': Result<nat>, before: Data, after: Data, after': Data, lo: nat)
    requires OpenAll(false, segments).Ok? && OpenAll(true, segments).Ok?
    requires var e, l := OpenAll(false, segments).value, OpenAll(true, segments).value;
             && e.chunkSize > 0 && l.chunkSize > 0
             && Interchangeable(e.chunks, l.index, l.chunkSize, segments) && lo + want <= |before|
             && ReadOutcome(MediaOf(EagerImage(z, segments, e, total)), offset, want, r, before, after, lo)
             && ReadOutcome(MediaOf(LazyImage(z, segments, l, total)), offset, want, r', before, after', lo)
    ensures r == r' && after == after'
  {
    hide OpenAll, Related, Interchangeable, Page, ReadOutcome;
    OpensAlike(segments);
    var e, l := OpenAll(false, segments).value, OpenAll(true, segments).value;
    SameGeometry(e, l, segments);
    var a, b := MediaOf(EagerImage(z, segments, e, total)), MediaOf(LazyImage(z, segments, l, total));
    forall id: nat
      ensures a.page(id) == b.page(id)
    {
      PagesAlike(z, segments, e, l, total, id);
    }
    SameOutcome(a, b, offset, want, r, r', before, after, after', lo);
  }

  lemma SameGeometry(e: OpenState, l: OpenState, segments: seq<Segment>)
    requires Related(e, l, segments)
    ensures e.chunkSize == l.chunkSize && e.totalSize == l.totalSize
  {
  }
}
