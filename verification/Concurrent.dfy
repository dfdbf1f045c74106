/** Many threads reading through one shared reader. The locks cover only the cache probes and
    insertions, so between those steps the threads interleave freely. */
module Concurrent {
  import opened Bytes
  import opened Errors
  import opened ChunkTables
  import opened LazyTables
  import opened Media
  import opened Images

  /** Where a thread stands inside its positioned read. */
  datatype Pc =
    | Probe
    | LookUp(id: nat)
    | Parse(id: nat, pos: nat)
    | InsertSection(id: nat, pos: nat, section: seq<Chunk>)
    | Decode(id: nat, chunk: Chunk)
    | InsertPage(id: nat, page: Data)
    | Copy(id: nat, page: Data)
    | Done
    | Failed(error: Error)

  /** One positioned read in progress: its request and the bytes delivered so far. */
  datatype Thread = Thread(offset: nat, want: nat, got: Data, pc: Pc) {
    function Off(): nat { offset + |got| }

    predicate Finished() { pc.Done? || pc.Failed? }
  }

  /** The shared caches, each with the most entries it may hold, and the threads. */
  datatype State = State(
    pages: map<nat, Data>,
    sections: map<nat, seq<Chunk>>,
    pageCap: nat,
    sectionCap: nat,
    threads: seq<Thread>)

  /** An insertion into a bounded cache: the new entry is there and the cache is within its capacity;
      anything else may be gone. */
  ghost predicate Inserted<V>(old': map<nat, V>, new': map<nat, V>, key: nat, v: V, capacity: nat) {
    && key in new' && new'[key] == v && |new'| <= capacity
    && forall k :: k in new' && k != key ==> k in old' && new'[k] == old'[k]
  }

  /** How many bytes the next turn of the read is due: up to the end of the page, media or request. */
  function PartSize(img: Image, t: Thread): nat
    requires img.chunkSize > 0
  {
    Min(Min(img.chunkSize - Mod(t.Off(), img.chunkSize), SatSub(img.totalSize, t.Off())), SatSub(t.want, |t.got|))
  }

  // ----- The steps -----

  function AfterLookup(id: nat, r: Result<Chunk>): Pc {
    match r
    case Ok(c) => Decode(id, c)
    case Err(e) => Failed(e)
  }

  /** The next program counter of a thread about to look up chunk `id`. */
  function AfterLocate(img: Image, s: State, id: nat): Pc {
    match img.table
    case EagerTable(_) => AfterLookup(id, ChunkAt(img, id))
    case LazyTable(index) =>
      var found := SectionOfChunk(index, id);
      if found.None? then Failed(ChunkOutOfRange)
      else if found.value in s.sections then
        AfterLookup(id, PickLocal(s.sections[found.value], id - index[found.value].firstChunkId))
      else Parse(id, found.value)
  }

  function Parsed(img: Image, id: nat, pos: nat): Pc
    requires img.table.LazyTable? && Holds(img.table.index, pos, id)
  {
    var m := img.table.index[pos];
    if m.segmentIdx >= |img.segments| then Failed(MissingSegment)
    else if !EntriesPresent(m, img.segments) then Failed(TableBeyondSegment)
    else
      var section := SectionChunks(m, img.segments, img.chunkSize);
      if id - m.firstChunkId < |section| then InsertSection(id, pos, section) else Failed(IndexPanic)
  }

  ghost predicate Step(img: Image, s: State, s': State, i: nat)
    requires img.chunkSize > 0
  {
    && i < |s.threads| && |s'.threads| == |s.threads| && s'.pageCap == s.pageCap && s'.sectionCap == s.sectionCap
    && (forall j :: 0 <= j < |s.threads| && j != i ==> s'.threads[j] == s.threads[j])
    && var t, t' := s.threads[i], s'.threads[i];
       && t'.offset == t.offset && t'.want == t.want
       && match t.pc
          case Probe =>
            var id := Div(t.Off(), img.chunkSize);
            && s'.pages == s.pages && s'.sections == s.sections && t'.got == t.got
            && t'.pc == if PartSize(img, t) == 0 then Done
                        else if id in s.pages then Copy(id, s.pages[id])
                        else LookUp(id)
          case LookUp(id) =>
            && s'.pages == s.pages && s'.sections == s.sections && t'.got == t.got
            && t'.pc == AfterLocate(img, s, id)
          case Parse(id, pos) =>
            && s'.pages == s.pages && s'.sections == s.sections && t'.got == t.got
            && img.table.LazyTable? && Holds(img.table.index, pos, id)
            && t'.pc == Parsed(img, id, pos)
          case InsertSection(id, pos, section) =>
            && s'.pages == s.pages && Inserted(s.sections, s'.sections, pos, section, s.sectionCap) && t'.got == t.got
            && img.table.LazyTable? && Holds(img.table.index, pos, id)
            && t'.pc == AfterLookup(id, PickLocal(section, id - img.table.index[pos].firstChunkId))
          case Decode(id, chunk) =>
            && s'.pages == s.pages && s'.sections == s.sections && t'.got == t.got
            && t'.pc == (match PageOf(img, chunk) case Ok(page) => InsertPage(id, page) case Err(e) => Failed(e))
          case InsertPage(id, page) =>
            && Inserted(s.pages, s'.pages, id, page, s.pageCap) && s'.sections == s.sections && t'.got == t.got
            && t'.pc == Copy(id, page)
          case Copy(id, page) =>
            var at := Mod(t.Off(), img.chunkSize);
            && s'.pages == s.pages && s'.sections == s.sections
            && at + PartSize(img, t) <= |page| && t'.got == t.got + page[at..at + PartSize(img, t)]
            && t'.pc == Probe
          case Done => false
          case Failed(_) => false
  }

  ghost predicate Init(s: State) {
    && s.pages == map[] && s.sections == map[] && 0 < s.pageCap && 0 < s.sectionCap
    && forall j :: 0 <= j < |s.threads| ==> s.threads[j].got == [] && s.threads[j].pc == Probe
  }

  ghost predicate Next(img: Image, s: State, s': State)
    requires img.chunkSize > 0
  {
    exists i :: Step(img, s, s', i)
  }

  ghost predicate IsRun(img: Image, run: seq<State>)
    requires img.chunkSize > 0
  {
    && run != [] && Init(run[0])
    && forall k :: 0 <= k < |run| - 1 ==> Next(img, run[k], run[k + 1])
  }

  // ----- The invariant -----

  ghost predicate SectionsFaithful(img: Image, sections: map<nat, seq<Chunk>>) {
    img.table.LazyTable? ==> CacheFaithful(sections, img.table.index, img.chunkSize, img.segments)
  }

  ghost predicate PagesFaithful(m: PagedMedia, pages: map<nat, Data>) {
    forall id :: id in pages ==> m.page(id) == Ok(pages[id])
  }

  /** What a thread holds at its program counter is what the immutable image says it should be. */
  ghost predicate PcOk(img: Image, m: PagedMedia, t: Thread)
    requires m.chunkSize > 0
  {
    match t.pc
    case Probe => true
    case LookUp(id) => Seeking(m, t, id)
    case Parse(id, pos) => Seeking(m, t, id) && img.table.LazyTable? && SectionOfChunk(img.table.index, id) == Some(pos)
    case InsertSection(id, pos, section) =>
      && Seeking(m, t, id) && img.table.LazyTable? && SectionOfChunk(img.table.index, id) == Some(pos)
      && EntriesPresent(img.table.index[pos], img.segments)
      && section == SectionChunks(img.table.index[pos], img.segments, img.chunkSize)
    case Decode(id, chunk) => Seeking(m, t, id) && ChunkAt(img, id) == Ok(chunk)
    case InsertPage(id, page) => Seeking(m, t, id) && m.page(id) == Ok(page)
    case Copy(id, page) => Seeking(m, t, id) && m.page(id) == Ok(page)
    case Done => |t.got| == Due(m, t.offset, t.want)
    case Failed(e) => Fails(m, t.offset, t.Off(), Due(m, t.offset, t.want), e)
  }

  /** The thread still has bytes to deliver, and `id` is the chunk that holds the next one. */
  ghost predicate Seeking(m: PagedMedia, t: Thread, id: nat)
    requires m.chunkSize > 0
  {
    |t.got| < Due(m, t.offset, t.want) && id == Div(t.Off(), m.chunkSize)
  }

  ghost predicate ThreadOk(img: Image, m: PagedMedia, t: Thread)
    requires m.chunkSize > 0
  {
    && |t.got| <= Due(m, t.offset, t.want)
    && m.Readable(t.offset, t.Off()) && t.got == m.Slice(t.offset, t.Off())
    && PcOk(img, m, t)
  }

  ghost predicate WithinCapacity(s: State) {
    0 < s.pageCap && |s.pages| <= s.pageCap && 0 < s.sectionCap && |s.sections| <= s.sectionCap
  }

  ghost predicate Inv(img: Image, m: PagedMedia, s: State)
    requires m.chunkSize > 0
  {
    && WithinCapacity(s)
    && PagesFaithful(m, s.pages) && SectionsFaithful(img, s.sections)
    && forall j :: 0 <= j < |s.threads| ==> ThreadOk(img, m, s.threads[j])
  }

  lemma LookupFails(m: PagedMedia, t: Thread, id: nat, e: Error)
    requires m.chunkSize > 0 && Seeking(m, t, id) && m.Readable(t.offset, t.Off())
    requires m.page(id) == Err(e)
    ensures Fails(m, t.offset, t.Off(), Due(m, t.offset, t.want), e)
  {
  }

  /** A lookup in the shared section cache answers what the table says. */
  lemma LocateStep(img: Image, m: PagedMedia, s: State, t: Thread, id: nat)
    requires Serves(m, img) && SectionsFaithful(img, s.sections)
    requires Seeking(m, t, id) && m.Readable(t.offset, t.Off())
    ensures PcOk(img, m, t.(pc := AfterLocate(img, s, id)))
  {
    var r := ChunkAt(img, id);
    if r.Err? {
      assert m.page(id) == Err(r.error);
      LookupFails(m, t, id, r.error);
    }
  }

  lemma ParseStep(img: Image, m: PagedMedia, t: Thread, id: nat, pos: nat)
    requires Serves(m, img) && Seeking(m, t, id) && m.Readable(t.offset, t.Off())
    requires img.table.LazyTable? && SectionOfChunk(img.table.index, id) == Some(pos)
    ensures PcOk(img, m, t.(pc := Parsed(img, id, pos)))
  {
    var r := ChunkAt(img, id);
    if r.Err? {
      assert m.page(id) == Err(r.error);
      LookupFails(m, t, id, r.error);
    }
  }

  lemma InsertSectionStep(img: Image, m: PagedMedia, t: Thread, id: nat, pos: nat, section: seq<Chunk>)
    requires Serves(m, img) && m.Readable(t.offset, t.Off())
    requires t.pc == InsertSection(id, pos, section) && PcOk(img, m, t)
    ensures PcOk(img, m, t.(pc := AfterLookup(id, PickLocal(section, id - img.table.index[pos].firstChunkId))))
  {
    var r := ChunkAt(img, id);
    assert r == PickLocal(section, id - img.table.index[pos].firstChunkId);
    if r.Err? {
      assert m.page(id) == Err(r.error);
      LookupFails(m, t, id, r.error);
    }
  }

  lemma DecodeStep(img: Image, m: PagedMedia, t: Thread, id: nat, chunk: Chunk)
    requires Serves(m, img) && Seeking(m, t, id) && m.Readable(t.offset, t.Off()) && ChunkAt(img, id) == Ok(chunk)
    ensures var pc := match PageOf(img, chunk) case Ok(page) => InsertPage(id, page) case Err(e) => Failed(e);
            PcOk(img, m, t.(pc := pc))
  {
    assert m.page(id) == PageOf(img, chunk);
    if PageOf(img, chunk).Err? {
      LookupFails(m, t, id, PageOf(img, chunk).error);
    }
  }

  /** The due part of the page is exactly the media's next bytes. */
  lemma CopyPart(img: Image, m: PagedMedia, t: Thread, id: nat, page: Data)
    requires m.Served() && m.chunkSize == img.chunkSize && m.total == img.totalSize
    requires Seeking(m, t, id) && m.page(id) == Ok(page)
    ensures var at, n := Mod(t.Off(), img.chunkSize), PartSize(img, t);
            && n > 0 && |t.got| + n <= Due(m, t.offset, t.want)
            && at + n <= |page| == m.chunkSize
            && m.Readable(t.Off(), t.Off() + n) && page[at..at + n] == m.Slice(t.Off(), t.Off() + n)
  {
    hide PagedMedia.Slice;
    PageCovers(m, t.Off(), PartSize(img, t), id, Mod(t.Off(), img.chunkSize));
  }

  /** Copying it extends what was delivered. */
  lemma CopyStep(img: Image, m: PagedMedia, t: Thread, id: nat, page: Data)
    requires Serves(m, img) && ThreadOk(img, m, t) && t.pc == Copy(id, page)
    ensures var at, n := Mod(t.Off(), img.chunkSize), PartSize(img, t);
            && at + n <= |page| == m.chunkSize
            && ThreadOk(img, m, t.(got := t.got + page[at..at + n], pc := Probe))
  {
    hide PagedMedia.Slice, Page, PartSize, Mod, Div;
    CopyPart(img, m, t, id, page);
    SliceConcat(m, t.offset, t.Off(), t.Off() + PartSize(img, t));
  }

  /** A thread's own step keeps its part of the invariant. */
  lemma OwnStep(img: Image, m: PagedMedia, s: State, s': State, i: nat)
    requires Serves(m, img) && Inv(img, m, s) && Step(img, s, s', i)
    ensures ThreadOk(img, m, s'.threads[i])
  {
    hide Page, ChunkAt, PageOf, AfterLocate, Parsed, AfterLookup, PagedMedia.Slice, PagedMedia.Readable, Fails,
         PickLocal, Inserted, WithinCapacity, Mod;
    var t, t' := s.threads[i], s'.threads[i];
    match t.pc {
      case Probe =>
      case LookUp(id) =>
        LocateStep(img, m, s, t, id);
        assert t' == t.(pc := AfterLocate(img, s, id));
      case Parse(id, pos) =>
        ParseStep(img, m, t, id, pos);
        assert t' == t.(pc := Parsed(img, id, pos));
      case InsertSection(id, pos, section) =>
        InsertSectionStep(img, m, t, id, pos, section);
        assert t' == t.(pc := AfterLookup(id, PickLocal(section, id - img.table.index[pos].firstChunkId)));
      case Decode(id, chunk) =>
        DecodeStep(img, m, t, id, chunk);
        assert t' == t.(pc := match PageOf(img, chunk) case Ok(page) => InsertPage(id, page) case Err(e) => Failed(e));
      case InsertPage(id, page) =>
      case Copy(id, page) =>
        CopyStep(img, m, t, id, page);
        assert t' == t.(got := t'.got, pc := Probe);
    }
  }

  /** Insertions keep both caches faithful. */
  lemma CachesKept(img: Image, m: PagedMedia, s: State, s': State, i: nat)
    requires Serves(m, img) && Inv(img, m, s) && Step(img, s, s', i)
    ensures PagesFaithful(m, s'.pages) && SectionsFaithful(img, s'.sections)
  {
    hide Page, ChunkAt, PageOf, AfterLocate, Parsed, AfterLookup, PagedMedia.Slice, Fails;
    assert ThreadOk(img, m, s.threads[i]);
  }

  /** Insertions keep both caches within their capacities, and leave the other threads alone. */
  lemma BoundsKept(img: Image, s: State, s': State, i: nat)
    requires img.chunkSize > 0 && WithinCapacity(s) && Step(img, s, s', i)
    ensures WithinCapacity(s') && i < |s.threads| == |s'.threads|
    ensures forall j :: 0 <= j < |s.threads| && j != i ==> s'.threads[j] == s.threads[j]
  {
    hide Page, ChunkAt, PageOf, AfterLocate, Parsed, AfterLookup;
  }

  /** One step of any thread keeps the invariant. */
  lemma NextKeepsInv(img: Image, m: PagedMedia, s: State, s': State)
    requires Serves(m, img) && Inv(img, m, s) && Next(img, s, s')
    ensures Inv(img, m, s')
  {
    hide Step, ThreadOk, PagesFaithful, SectionsFaithful, WithinCapacity, Page;
    var i: nat :| Step(img, s, s', i);
    OwnStep(img, m, s, s', i);
    CachesKept(img, m, s, s', i);
    BoundsKept(img, s, s', i);
  }

  /** Whatever the threads and however they interleave, every reachable state is faithful. */
  lemma {:induction false} RunKeepsInv(img: Image, m: PagedMedia, run: seq<State>, k: nat)
    requires Serves(m, img) && IsRun(img, run) && k < |run|
    ensures Inv(img, m, run[k])
  {
    if k > 0 {
      RunKeepsInv(img, m, run, k - 1);
      NextKeepsInv(img, m, run[k - 1], run[k]);
    }
  }

  /** In every reachable state each cached page is its chunk's page, and a finished read returned what
      a read with no other thread and no cache would: all the bytes it was due, or the error of the
      first chunk that does not decode. */
  lemma ReadsAreSequential(img: Image, m: PagedMedia, run: seq<State>, k: nat, i: nat)
    requires Serves(m, img) && IsRun(img, run) && k < |run| && i < |run[k].threads|
    ensures PagesFaithful(m, run[k].pages)
    ensures var t := run[k].threads[i];
            var n := Due(m, t.offset, t.want);
            && (t.pc.Done? ==> m.Readable(t.offset, t.offset + n) && t.got == m.Slice(t.offset, t.offset + n))
            && (t.pc.Failed? ==> Fails(m, t.offset, t.Off(), n, t.pc.error))
  {
    RunKeepsInv(img, m, run, k);
    assert ThreadOk(img, m, run[k].threads[i]);
  }

  lemma ThreadInRun(img: Image, m: PagedMedia, run: seq<State>, k: nat, i: nat)
    requires Serves(m, img) && IsRun(img, run) && k < |run| && i < |run[k].threads|
    ensures ThreadOk(img, m, run[k].threads[i]) && WithinCapacity(run[k])
  {
    hide ThreadOk, IsRun, WithinCapacity;
    RunKeepsInv(img, m, run, k);
  }

  /** The same request finished in any two runs, with any other threads around, has the same outcome. */
  lemma OutcomeIndependent(img: Image, m: PagedMedia, run: seq<State>, k: nat, i: nat, run': seq<State>, k': nat,
                           i': nat)
    requires Serves(m, img) && IsRun(img, run) && IsRun(img, run')
    requires k < |run| && i < |run[k].threads| && k' < |run'| && i' < |run'[k'].threads|
    requires run[k].threads[i].Finished() && run'[k'].threads[i'].Finished()
    requires run[k].threads[i].offset == run'[k'].threads[i'].offset
    requires run[k].threads[i].want == run'[k'].threads[i'].want
    ensures run[k].threads[i] == run'[k'].threads[i']
  {
    hide IsRun, PagedMedia.Slice;
    var t, t' := run[k].threads[i], run'[k'].threads[i'];
    var n := Due(m, t.offset, t.want);
    ThreadInRun(img, m, run, k, i);
    ThreadInRun(img, m, run', k', i');
    if t.pc.Failed? && t'.pc.Failed? {
      FailsOnce(m, t.offset, t.Off(), t'.Off(), n, t.pc.error, t'.pc.error);
    } else if t.pc.Failed? {
      FailsUnreadable(m, t.offset, t.Off(), n, t.pc.error);
    } else if t'.pc.Failed? {
      FailsUnreadable(m, t.offset, t'.Off(), n, t'.pc.error);
    }
  }

  /** Into a cache of positive capacity, however full, an entry can always be put. */
  lemma CanInsert<V>(cache: map<nat, V>, key: nat, v: V, capacity: nat) returns (cache': map<nat, V>)
    requires 0 < capacity && |cache| <= capacity
    ensures Inserted(cache, cache', key, v, capacity)
  {
    if key in cache || |cache| < capacity {
      cache' := cache[key := v];
      assert cache'.Keys == cache.Keys + {key};
      assert |cache'.Keys| == |cache'| && |cache.Keys| == |cache|;
    } else {
      cache' := map[key := v];
    }
  }

  /** In every reachable state, with both caches as full as they get, an unfinished read has a next step:
      what it needs was put there by its own earlier steps, never by another thread. */
  lemma NeverBlocked(img: Image, m: PagedMedia, run: seq<State>, k: nat, i: nat) returns (s': State)
    requires Serves(m, img) && IsRun(img, run) && k < |run| && i < |run[k].threads|
    requires !run[k].threads[i].Finished()
    ensures Step(img, run[k], s', i)
  {
    hide Page, ChunkAt, PageOf, AfterLocate, Parsed, AfterLookup, PagedMedia.Slice, Fails, IsRun, Inv,
         SectionChunks, Inserted;
    var s := run[k];
    var t := s.threads[i];
    ThreadInRun(img, m, run, k, i);
    match t.pc {
      case Probe =>
        var id := Div(t.Off(), img.chunkSize);
        var pc := if PartSize(img, t) == 0 then Done else if id in s.pages then Copy(id, s.pages[id]) else LookUp(id);
        s' := s.(threads := s.threads[i := t.(pc := pc)]);
      case LookUp(id) =>
        s' := s.(threads := s.threads[i := t.(pc := AfterLocate(img, s, id))]);
      case Parse(id, pos) =>
        s' := s.(threads := s.threads[i := t.(pc := Parsed(img, id, pos))]);
      case InsertSection(id, pos, section) =>
        var pc := AfterLookup(id, PickLocal(section, id - img.table.index[pos].firstChunkId));
        var sections := CanInsert(s.sections, pos, section, s.sectionCap);
        s' := s.(sections := sections, threads := s.threads[i := t.(pc := pc)]);
      case Decode(id, chunk) =>
        var pc := match PageOf(img, chunk) case Ok(page) => InsertPage(id, page) case Err(e) => Failed(e);
        s' := s.(threads := s.threads[i := t.(pc := pc)]);
      case InsertPage(id, page) =>
        var pages := CanInsert(s.pages, id, page, s.pageCap);
        s' := s.(pages := pages, threads := s.threads[i := t.(pc := Copy(id, page))]);
      case Copy(id, page) =>
        CopyStep(img, m, t, id, page);
        var at, n := Mod(t.Off(), img.chunkSize), PartSize(img, t);
        s' := s.(threads := s.threads[i := t.(got := t.got + page[at..at + n], pc := Probe)]);
    }
  }
}
