/** The streaming pattern search: one buffer, a carried overlap, and a cap on the number of matches. */
module Search {
  import opened Bytes
  import opened Errors
  import opened Media
  import opened SegmentSources
  import opened Reader

  const BLOCK := 65536

  // ----- Naive search -----

  predicate Hit(d: Data, pattern: Data, i: nat) {
    i + |pattern| <= |d| && d[i..i + |pattern|] == pattern
  }

  /** Where `pattern` occurs in `d`, among the first `k` positions. */
  function Hits(d: Data, pattern: Data, k: nat): seq<nat> {
    if k == 0 then [] else Hits(d, pattern, k - 1) + if Hit(d, pattern, k - 1) then [k - 1] else []
  }

  function First(s: seq<nat>, n: nat): seq<nat> {
    if |s| <= n then s else s[..n]
  }

  /** The first `max` occurrences anywhere in `d`. */
  function Naive(d: Data, pattern: Data, max: nat): seq<nat> {
    First(Hits(d, pattern, |d|), max)
  }

  /** An occurrence matches byte by byte. */
  lemma HitIff(d: Data, pattern: Data, i: nat)
    ensures Hit(d, pattern, i) <==>
            i + |pattern| <= |d| && forall j :: 0 <= j < |pattern| ==> d[i + j] == pattern[j]
  {
    if i + |pattern| <= |d| && forall j :: 0 <= j < |pattern| ==> d[i + j] == pattern[j] {
      assert d[i..i + |pattern|] == pattern;
    }
  }

  /** Naive search lists every occurrence once, in ascending order. */
  lemma {:induction false} HitsAreAll(d: Data, pattern: Data, k: nat)
    ensures Increasing(Hits(d, pattern, k))
    ensures forall i: nat :: i in Hits(d, pattern, k) <==> i < k && Hit(d, pattern, i)
  {
    hide Hit;
    if k > 0 {
      HitsAreAll(d, pattern, k - 1);
      var before, all := Hits(d, pattern, k - 1), Hits(d, pattern, k);
      forall i, j | 0 <= i < j < |all|
        ensures all[i] < all[j]
      {
        assert all[i] in before;
      }
    }
  }

  /** Capped, it lists occurrences in ascending order, at most as many as the cap, and leaves none out before the
      last it lists, nor any at all below the cap. */
  lemma NaiveIs(d: Data, pattern: Data, max: nat)
    requires pattern != []
    ensures var found := Naive(d, pattern, max);
            && |found| <= max && Increasing(found)
            && (forall k :: 0 <= k < |found| ==> Hit(d, pattern, found[k]))
            && forall i: nat :: Hit(d, pattern, i) ==>
                 i in found || (|found| == max && forall k :: 0 <= k < |found| ==> found[k] < i)
  {
    hide Hit, Hits;
    var all, found := Hits(d, pattern, |d|), Naive(d, pattern, max);
    HitsAreAll(d, pattern, |d|);
    forall k | 0 <= k < |found|
      ensures Hit(d, pattern, found[k])
    {
      assert found[k] == all[k] && all[k] in all;
    }
    forall i: nat | Hit(d, pattern, i)
      ensures i in found || (|found| == max && forall k :: 0 <= k < |found| ==> found[k] < i)
    {
      HitFits(d, pattern, i);
      var j :| 0 <= j < |all| && all[j] == i;
      if j < |found| {
        assert found[j] == i;
      }
    }
  }

  lemma HitFits(d: Data, pattern: Data, i: nat)
    requires pattern != [] && Hit(d, pattern, i)
    ensures i < |d|
  {
  }

  // ----- Searching a growing prefix -----

  /** Positions whose occurrence would not fit add nothing. */
  lemma {:induction false} HitsStop(d: Data, pattern: Data, lo: nat, hi: nat)
    requires lo <= hi && |d| < lo + |pattern|
    ensures Hits(d, pattern, hi) == Hits(d, pattern, lo)
    decreases hi
  {
    if lo < hi {
      HitsStop(d, pattern, lo, hi - 1);
    }
  }

  /** Reading on does not change what was found among positions that already fitted. */
  lemma {:induction false} HitsOfPrefix(d: Data, more: Data, pattern: Data, k: nat)
    requires k == 0 || k - 1 + |pattern| <= |d|
    ensures Hits(d + more, pattern, k) == Hits(d, pattern, k)
  {
    if k > 0 {
      HitsOfPrefix(d, more, pattern, k - 1);
      ConcatFront(d, more, k - 1, k - 1 + |pattern|);
    }
  }

  /** Once `max` matches are found, nothing further matters. */
  lemma {:induction false} HitsGrow(d: Data, pattern: Data, lo: nat, hi: nat)
    requires lo <= hi
    ensures Hits(d, pattern, lo) <= Hits(d, pattern, hi)
    decreases hi
  {
    if lo < hi {
      HitsGrow(d, pattern, lo, hi - 1);
    }
  }

  lemma FullStaysFull(s: seq<nat>, t: seq<nat>, max: nat)
    requires s <= t && |First(s, max)| == max
    ensures First(t, max) == First(s, max)
  {
  }

  // ----- The outcome over the media -----

  /** `matches` is what naive search finds in the first `scanned` bytes, which is all there is to find
      unless the cap was reached first. A pattern that does not fit one block and its carry is never
      found. */
  ghost predicate Searched(m: PagedMedia, pattern: Data, max: nat, scanned: nat, matches: seq<nat>)
    requires m.chunkSize > 0
  {
    && scanned <= m.total && m.Readable(0, scanned)
    && (scanned < m.total ==> |matches| == max)
    && matches == if |pattern| <= BLOCK + 1 then Naive(m.Slice(0, scanned), pattern, max) else []
  }

  /** A pattern that fits one block and its carry is found exactly where naive search finds it, on every
      readable media. */
  lemma ShortPatternFound(m: PagedMedia, pattern: Data, max: nat, scanned: nat, matches: seq<nat>)
    requires m.chunkSize > 0 && m.Readable(0, m.total) && Searched(m, pattern, max, scanned, matches)
    requires 0 < |pattern| <= BLOCK + 1
    ensures matches == Naive(m.Slice(0, m.total), pattern, max)
  {
    hide Hits, PagedMedia.Slice;
    if scanned < m.total {
      SliceConcat(m, 0, scanned, m.total);
      PrefixDecides(m.Slice(0, scanned), m.Slice(scanned, m.total), pattern, max);
    }
  }

  /** A longer one is never found, wherever it occurs. */
  lemma LongPatternMissed(m: PagedMedia, pattern: Data, max: nat, scanned: nat, matches: seq<nat>, i: nat)
    requires m.chunkSize > 0 && m.Readable(0, m.total) && Searched(m, pattern, max, scanned, matches)
    requires |pattern| > BLOCK + 1 && max > 0 && Hit(m.Slice(0, m.total), pattern, i)
    ensures matches == [] && Naive(m.Slice(0, m.total), pattern, max) != []
  {
    var d := m.Slice(0, m.total);
    HitsAreAll(d, pattern, |d|);
    assert i in Hits(d, pattern, |d|);
  }

  /** Whatever the search may answer on this media is what naive search finds in the whole of it. */
  ghost predicate FindsAll(m: PagedMedia, pattern: Data, max: nat)
    requires m.chunkSize > 0 && m.Readable(0, m.total)
  {
    forall scanned, matches :: Searched(m, pattern, max, scanned, matches) ==>
      matches == Naive(m.Slice(0, m.total), pattern, max)
  }

  /** Readable media that is one chunk, holding nothing but the pattern. */
  ghost function OnlyThePattern(pattern: Data): (m: PagedMedia)
    requires pattern != []
    ensures m.chunkSize == m.total == |pattern| && m.Readable(0, m.total) && m.Slice(0, m.total) == pattern
  {
    var m := PagedMedia(id => Ok(pattern), |pattern|, |pattern|, 1);
    forall p | 0 <= p < |pattern|
      ensures m.Present(p) && m.ByteAt(p) == pattern[p]
    {
      DivModUnique(p, |pattern|, 0, p);
    }
    m
  }

  /** A search for some occurrence of a pattern is naive search on every readable media if and only if the
      pattern has at most 65537 bytes. */
  lemma SearchIsNaiveIff(pattern: Data, max: nat)
    requires pattern != [] && max > 0
    ensures (forall m: PagedMedia :: m.chunkSize > 0 && m.Readable(0, m.total) ==> FindsAll(m, pattern, max)) <==>
            |pattern| <= BLOCK + 1
  {
    hide Hits, Naive, PagedMedia.Slice, PagedMedia.Readable, Searched;
    if |pattern| <= BLOCK + 1 {
      forall m: PagedMedia | m.chunkSize > 0 && m.Readable(0, m.total)
        ensures FindsAll(m, pattern, max)
      {
        forall scanned, matches | Searched(m, pattern, max, scanned, matches)
          ensures matches == Naive(m.Slice(0, m.total), pattern, max)
        {
          ShortPatternFound(m, pattern, max, scanned, matches);
        }
      }
    } else {
      var m := OnlyThePattern(pattern);
      SearchedInVain(m, pattern, max);
      LongPatternMissed(m, pattern, max, m.total, [], 0);
      assert !FindsAll(m, pattern, max);
    }
  }

  lemma SearchedInVain(m: PagedMedia, pattern: Data, max: nat)
    requires m.chunkSize > 0 && m.Readable(0, m.total) && |pattern| > BLOCK + 1
    ensures Searched(m, pattern, max, m.total, [])
  {
  }

  lemma PrefixDecides(d: Data, more: Data, pattern: Data, max: nat)
    requires pattern != [] && |Naive(d, pattern, max)| == max
    ensures Naive(d + more, pattern, max) == Naive(d, pattern, max)
  {
    var k := if |d| < |pattern| then 0 else |d| - |pattern| + 1;
    HitsStop(d, pattern, k, |d|);
    HitsOfPrefix(d, more, pattern, k);
    HitsGrow(d + more, pattern, k, |d + more|);
    FullStaysFull(Hits(d, pattern, k), Hits(d + more, pattern, |d + more|), max);
  }

  // ----- The search loop -----

  /** `copy_within(lo..hi, 0)`. */
  method CopyToFront(buf: array<Byte>, lo: nat, hi: nat)
    requires lo <= hi <= buf.Length
    modifies buf
    ensures buf[..] == Splice(old(buf[..]), 0, old(buf[lo..hi]))
  {
    ghost var before := buf[..];
    forall i | 0 <= i < hi - lo {
      buf[i] := buf[lo + i];
    }
    assert buf[..hi - lo] == before[lo..hi];
    assert buf[..] == buf[..hi - lo] + before[hi - lo..];
  }

  /** A hit in the buffer is a hit in the media. */
  lemma WindowHit(seen: Data, window: Data, pattern: Data, base: nat, i: nat)
    requires base + |window| == |seen| && window == seen[base..] && i + |pattern| <= |window|
    ensures window[i..i + |pattern|] == pattern <==> Hit(seen, pattern, base + i)
  {
    assert window[i..i + |pattern|] == seen[base + i..base + i + |pattern|];
  }

  /** Look at every position of the buffer where the pattern fits, until enough were found. */
  method ScanWindow(buf: array<Byte>, searchLen: nat, pattern: Data, base: nat, max: nat, found: seq<nat>,
                    ghost seen: Data) returns (matches: seq<nat>)
    requires searchLen <= buf.Length && 0 < |pattern|
    requires base + searchLen == |seen| && buf[..searchLen] == seen[base..]
    requires |found| < max && (searchLen >= |pattern| ==> found == First(Hits(seen, pattern, base), max))
    ensures searchLen < |pattern| ==> matches == found
    ensures searchLen >= |pattern| ==> matches == First(Hits(seen, pattern, |seen| - |pattern| + 1), max)
  {
    hide Hit;
    matches := found;
    var end := if searchLen >= |pattern| then searchLen - |pattern| + 1 else 0;
    for i := 0 to end
      invariant searchLen < |pattern| ==> matches == found
      invariant searchLen >= |pattern| ==> matches == Hits(seen, pattern, base + i)
      invariant |matches| < max
    {
      WindowHit(seen, buf[..searchLen], pattern, base, i);
      assert buf[..searchLen][i..i + |pattern|] == buf[i..i + |pattern|];
      if buf[i..i + |pattern|] == pattern {
        matches := matches + [base + i];
        if |matches| >= max {
          HitsGrow(seen, pattern, base + i + 1, base + end);
          FullStaysFull(matches, Hits(seen, pattern, base + end), max);
          return;
        }
      }
    }
  }

  /** What is carried from a block that leaves `searchLen` bytes in the buffer to the next. */
  function CarryOf(patternLen: nat, searchLen: nat): nat {
    if patternLen > 1 && searchLen >= patternLen - 1 then patternLen - 1 else 0
  }

  /** What the loop has found after `seen`. */
  function Found(seen: Data, pattern: Data, max: nat): seq<nat> {
    if |pattern| <= BLOCK + 1 then Naive(seen, pattern, max) else []
  }

  /** Between blocks the front of the buffer holds the last bytes seen, as many as a match can straddle. */
  ghost predicate Carried(seen: Data, total: nat, patternLen: nat, carry: nat, buf: Data) {
    |seen| < total ==>
      && (|seen| == 0 || |seen| >= BLOCK)
      && carry == (if seen == [] || patternLen > BLOCK + 1 then 0 else patternLen - 1)
      && carry <= |buf| && buf[..carry] == seen[|seen| - carry..]
  }

  /** Before a block is scanned: everything that ends inside `seen` has been found. */
  lemma FoundBefore(seen: Data, more: Data, total: nat, pattern: Data, max: nat, carry: nat, buf: Data)
    requires pattern != [] && |pattern| <= BLOCK + 1 && |seen| < total && Carried(seen, total, |pattern|, carry, buf)
    ensures Found(seen, pattern, max) == First(Hits(seen + more, pattern, |seen| - carry), max)
  {
    hide Hits;
    var k := |seen| - carry;
    assert k + |pattern| > |seen| && (k == 0 || k - 1 + |pattern| <= |seen|);
    HitsStop(seen, pattern, k, |seen|);
    HitsOfPrefix(seen, more, pattern, k);
  }

  /** After it: everything that ends inside the longer prefix has been found. */
  lemma FoundAfter(seen: Data, pattern: Data, base: nat, max: nat)
    requires pattern != [] && |pattern| <= BLOCK + 1 && base <= |seen|
    ensures |seen| < base + |pattern| ==> First(Hits(seen, pattern, base), max) == Found(seen, pattern, max)
    ensures |seen| >= base + |pattern| ==>
      First(Hits(seen, pattern, |seen| - |pattern| + 1), max) == Found(seen, pattern, max)
  {
    hide Hits;
    if |seen| < base + |pattern| {
      HitsStop(seen, pattern, base, |seen|);
    } else {
      HitsStop(seen, pattern, |seen| - |pattern| + 1, |seen|);
    }
  }

  /** Scan the carried bytes and the block just read, then move the overlap to the front. */
  method ScanBlock(buf: array<Byte>, n: nat, carry: nat, pattern: Data, max: nat, found: seq<nat>, fileOffset: nat,
                   ghost total: nat, ghost seen: Data, ghost block: Data) returns (matches: seq<nat>, carry': nat)
    requires pattern != [] && buf.Length == BLOCK + |pattern| - 1
    requires |seen| == fileOffset < total && |block| == n == Min(BLOCK, total - fileOffset)
    requires carry <= fileOffset && carry + n <= buf.Length && buf[..carry + n] == seen[fileOffset - carry..] + block
    requires Carried(seen, total, |pattern|, carry, buf[..])
    requires found == Found(seen, pattern, max) && |found| < max
    modifies buf
    ensures matches == Found(seen + block, pattern, max)
    ensures Carried(seen + block, total, |pattern|, carry', buf[..])
  {
    hide Hits, Hit, Naive, First;
    var searchLen := carry + n;
    var base := fileOffset - carry;
    assert (seen + block)[base..] == seen[base..] + block;
    if |pattern| <= BLOCK + 1 {
      FoundBefore(seen, block, total, pattern, max, carry, buf[..]);
      FoundAfter(seen + block, pattern, base, max);
    }
    matches := ScanWindow(buf, searchLen, pattern, base, max, found, seen + block);
    carry' := CarryOf(|pattern|, searchLen);
    ghost var window := buf[..searchLen];
    if |pattern| > 1 && searchLen >= |pattern| - 1 {
      var overlap := |pattern| - 1;
      assert buf[searchLen - overlap..searchLen] == window[searchLen - overlap..];
      CopyToFront(buf, searchLen - overlap, searchLen);
    }
  }

  /** Reading a block extends what was seen, or fails as reading the media from the start would. */
  method ReadBlock(reader: EwfReader, buf: array<Byte>, carry: nat, fileOffset: nat, toRead: nat)
    returns (r: Result<nat>)
    requires reader.Valid() && reader.position == fileOffset && carry + toRead <= buf.Length
    requires fileOffset + toRead <= reader.media.total && reader.media.Readable(0, fileOffset)
    modifies reader`position, reader.Caches(), buf
    ensures reader.Valid()
    ensures r.Ok? ==> r.value == toRead && reader.position == fileOffset + toRead
    ensures r.Ok? ==> reader.media.Readable(0, fileOffset + toRead)
    ensures r.Ok? ==> buf[..] == Splice(old(buf[..]), carry, reader.media.Slice(fileOffset, fileOffset + toRead))
    ensures r.Err? ==> exists p :: Fails(reader.media, 0, p, reader.media.total, r.error)
  {
    hide EwfReader.Valid, PagedMedia.Slice, Splice;
    MediaIs(reader);
    r := reader.Read(buf, carry, carry + toRead);
    if r.Err? {
      ghost var p :| Fails(reader.media, fileOffset, p, toRead, r.error);
      assert Fails(reader.media, 0, p, reader.media.total, r.error);
    }
  }

  /** The loop's state after `scanned` bytes. */
  ghost predicate Midway(m: PagedMedia, pattern: Data, max: nat, scanned: nat, matches: seq<nat>, carry: nat,
                         buf: Data) {
    && m.chunkSize > 0 && scanned <= m.total && m.Readable(0, scanned)
    && matches == Found(m.Slice(0, scanned), pattern, max)
    && |buf| == BLOCK + |pattern| - 1 && Carried(m.Slice(0, scanned), m.total, |pattern|, carry, buf)
  }

  lemma NothingSeen(m: PagedMedia, pattern: Data, max: nat, buf: Data)
    requires m.chunkSize > 0 && |buf| == BLOCK + |pattern| - 1
    ensures Midway(m, pattern, max, 0, [], 0, buf)
  {
  }

  /** The block lands right behind the carried bytes. */
  lemma BlockBehindCarry(seen: Data, total: nat, patternLen: nat, carry: nat, before: Data, block: Data, after: Data)
    requires Carried(seen, total, patternLen, carry, before) && |seen| < total && 0 < patternLen
    requires |before| == BLOCK + patternLen - 1 && |block| <= BLOCK && carry + |block| <= |before|
    requires after == Splice(before, carry, block)
    ensures carry <= |seen| && Carried(seen, total, patternLen, carry, after)
    ensures after[..carry + |block|] == seen[|seen| - carry..] + block
  {
  }

  lemma SearchEnds(m: PagedMedia, pattern: Data, max: nat, scanned: nat, matches: seq<nat>, carry: nat, buf: Data)
    requires Midway(m, pattern, max, scanned, matches, carry, buf) && (scanned == m.total || |matches| >= max)
    ensures Searched(m, pattern, max, scanned, matches)
  {
    hide Hits, PagedMedia.Slice;
  }

  lemma CarryFits(seen: Data, total: nat, patternLen: nat, carry: nat, buf: Data)
    requires Carried(seen, total, patternLen, carry, buf) && |seen| < total && 0 < patternLen
    ensures carry <= patternLen - 1
  {
  }

  lemma MediaIs(reader: EwfReader)
    requires reader.Valid()
    ensures reader.media.chunkSize > 0 && reader.media.total == reader.image.totalSize
  {
  }

  /** One turn of the search loop. */
  method SearchBlock(reader: EwfReader, buf: array<Byte>, pattern: Data, max: nat, fileOffset: nat, found: seq<nat>,
                     carry: nat) returns (r: Result<nat>, matches: seq<nat>, carry': nat)
    requires reader.Valid() && reader.position == fileOffset < reader.image.totalSize && pattern != []
    requires Midway(reader.media, pattern, max, fileOffset, found, carry, buf[..]) && |found| < max
    modifies reader`position, reader.Caches(), buf
    ensures reader.Valid()
    ensures r.Ok? ==> r.value == Min(BLOCK, reader.image.totalSize - fileOffset)
    ensures r.Ok? ==> reader.position == fileOffset + r.value
    ensures r.Ok? ==> Midway(reader.media, pattern, max, fileOffset + r.value, matches, carry', buf[..])
    ensures r.Err? ==> exists p :: Fails(reader.media, 0, p, reader.media.total, r.error)
  {
    hide EwfReader.Valid, Hits, Naive, PagedMedia.Slice, PagedMedia.Readable, Splice, Found, Carried, Fails;
    ghost var m := reader.media;
    MediaIs(reader);
    matches, carry' := found, carry;
    var toRead := Min(BLOCK, reader.image.totalSize - fileOffset);
    ghost var before, seen := buf[..], m.Slice(0, fileOffset);
    CarryFits(seen, m.total, |pattern|, carry, before);
    r := ReadBlock(reader, buf, carry, fileOffset, toRead);
    if r.Ok? {
      var n := r.value;
      SliceConcat(m, 0, fileOffset, fileOffset + n);
      ghost var block := m.Slice(fileOffset, fileOffset + n);
      BlockBehindCarry(seen, m.total, |pattern|, carry, before, block, buf[..]);
      matches, carry' := ScanBlock(buf, n, carry, pattern, max, found, fileOffset, m.total, seen, block);
      MidwayNext(m, pattern, max, fileOffset, n, matches, carry', buf[..]);
    }
  }

  lemma MidwayNext(m: PagedMedia, pattern: Data, max: nat, scanned: nat, n: nat, matches: seq<nat>, carry: nat,
                   buf: Data)
    requires m.chunkSize > 0 && scanned + n <= m.total && m.Readable(0, scanned) && m.Readable(scanned, scanned + n)
    requires m.Readable(0, scanned + n)
             && m.Slice(0, scanned + n) == m.Slice(0, scanned) + m.Slice(scanned, scanned + n)
    requires var seen := m.Slice(0, scanned) + m.Slice(scanned, scanned + n);
             matches == Found(seen, pattern, max) && Carried(seen, m.total, |pattern|, carry, buf)
    requires |buf| == BLOCK + |pattern| - 1
    ensures Midway(m, pattern, max, scanned + n, matches, carry, buf)
  {
    hide Found, Carried, PagedMedia.Readable, PagedMedia.Slice;
  }

  method ZeroedBuffer(n: nat) returns (buf: array<Byte>)
    ensures fresh(buf) && buf.Length == n
  {
    buf := new Byte[n](_ => 0);
  }

  method HandleSearch(reader: EwfReader, pattern: Data, maxResults: nat) returns (r: Result<seq<nat>>)
    requires reader.Valid()
    modifies reader`position, reader.Caches()
    ensures reader.Valid()
    ensures pattern == [] ==> r == Err(EmptyPattern)
    ensures pattern != [] && r.Ok? ==> exists scanned :: Searched(reader.media, pattern, maxResults, scanned, r.value)
    ensures pattern != [] && r.Err? ==> exists p :: Fails(reader.media, 0, p, reader.media.total, r.error)
  {
    hide EwfReader.Valid, Midway, Searched, Fails;
    if pattern == [] {
      return Err(EmptyPattern);
    }
    ghost var m := reader.media;
    MediaIs(reader);
    var total := reader.image.totalSize;
    var _ := reader.Seek(Start(0));
    var matches: seq<nat> := [];
    var buf := ZeroedBuffer(BLOCK + |pattern| - 1);
    var fileOffset: nat := 0;
    var carry: nat := 0;
    NothingSeen(m, pattern, maxResults, buf[..]);
    while fileOffset < total && |matches| < maxResults
      invariant reader.Valid() && fresh(buf) && reader.position == fileOffset <= total
      invariant Midway(m, pattern, maxResults, fileOffset, matches, carry, buf[..])
      decreases total - fileOffset
    {
      var read;
      read, matches, carry := SearchBlock(reader, buf, pattern, maxResults, fileOffset, matches, carry);
      if read.Err? {
        return Err(read.error);
      }
      if read.value == 0 {
        break;
      }
      fileOffset := fileOffset + read.value;
    }
    SearchEnds(m, pattern, maxResults, fileOffset, matches, carry, buf[..]);
    r := Ok(matches);
  }
}
