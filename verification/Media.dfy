/** Media served page by page, and the byte stream that amounts to. */
module Media {
  import opened Bytes
  import opened Errors

  /** `count` chunks of `chunkSize` bytes, of which the first `total` bytes are the media. Decoding a
      chunk gives its page or an error. */
  datatype PagedMedia = PagedMedia(page: nat -> Result<Data>, chunkSize: nat, total: nat, count: nat) {
    /** Every page that decodes has exactly `chunkSize` bytes. */
    ghost predicate Uniform() {
      forall id :: page(id).Ok? ==> |page(id).value| == chunkSize
    }

    ghost predicate Served() {
      chunkSize > 0 && Uniform()
    }

    /** Does the chunk that holds byte `p` decode? */
    predicate Present(p: nat)
      requires chunkSize > 0
    {
      page(Div(p, chunkSize)).Ok?
    }

    ghost predicate Readable(lo: nat, hi: nat)
      requires chunkSize > 0
    {
      forall p :: lo <= p < hi ==> Present(p)
    }

    function ByteAt(p: nat): Byte
      requires chunkSize > 0 && Present(p)
    {
      var d, i := page(Div(p, chunkSize)).value, Mod(p, chunkSize);
      if i < |d| then d[i] else 0
    }

    ghost function Slice(lo: nat, hi: nat): (d: Data)
      requires chunkSize > 0 && lo <= hi && Readable(lo, hi)
      ensures |d| == hi - lo
      ensures forall i :: 0 <= i < hi - lo ==> d[i] == ByteAt(lo + i)
    {
      if lo == hi then [] else Slice(lo, hi - 1) + [ByteAt(hi - 1)]
    }

    ghost predicate PagesOk(k: nat) {
      forall id :: 0 <= id < k ==> page(id).Ok?
    }

    /** The first `k` pages, one after the other. */
    ghost function Pages(k: nat): Data
      requires PagesOk(k)
    {
      if k == 0 then [] else Pages(k - 1) + page(k - 1).value
    }
  }

  /** How many bytes a read of `want` bytes at `offset` is due. */
  function Due(m: PagedMedia, offset: nat, want: nat): (n: nat)
    ensures n <= want
  {
    Min(want, SatSub(m.total, offset))
  }

  /** What a positioned read into `buf[lo..lo + want]` answers and leaves in the buffer. It succeeds
      exactly when every chunk it touches decodes, and then delivers all the bytes it is due and
      changes nothing else; otherwise it reports the first failing chunk's error, having delivered
      what came before. */
  ghost predicate ReadOutcome(m: PagedMedia, offset: nat, want: nat, r: Result<nat>, before: Data, after: Data, lo: nat)
    requires m.chunkSize > 0 && lo + want <= |before|
  {
    var n := Due(m, offset, want);
    match r
    case Ok(got) =>
      got == n && m.Readable(offset, offset + n) && after == Splice(before, lo, m.Slice(offset, offset + n))
    case Err(e) =>
      exists p :: Fails(m, offset, p, n, e) && after == Splice(before, lo, m.Slice(offset, p))
  }

  /** The bytes before `p` are readable, and the chunk holding `p` fails with `e`. */
  ghost predicate Fails(m: PagedMedia, lo: nat, p: nat, n: nat, e: Error)
    requires m.chunkSize > 0
  {
    lo <= p < lo + n && m.Readable(lo, p) && m.page(Div(p, m.chunkSize)) == Err(e)
  }

  /** Success and failure exclude each other. */
  lemma FailsUnreadable(m: PagedMedia, lo: nat, p: nat, n: nat, e: Error)
    requires m.chunkSize > 0 && Fails(m, lo, p, n, e)
    ensures !m.Readable(lo, lo + n)
  {
    assert !m.Present(p);
  }

  /** A failing read fails at one place: the first byte whose chunk does not decode. */
  lemma FailsOnce(m: PagedMedia, lo: nat, p: nat, q: nat, n: nat, e: Error, f: Error)
    requires m.chunkSize > 0 && Fails(m, lo, p, n, e) && Fails(m, lo, q, n, f)
    ensures p == q && e == f
  {
    assert !m.Present(p) && !m.Present(q);
  }

  lemma SliceConcat(m: PagedMedia, lo: nat, mid: nat, hi: nat)
    requires m.chunkSize > 0 && lo <= mid <= hi && m.Readable(lo, hi)
    ensures m.Readable(lo, mid) && m.Readable(mid, hi)
    ensures m.Slice(lo, hi) == m.Slice(lo, mid) + m.Slice(mid, hi)
  {
  }

  /** Two adjacent readable ranges are one. */
  lemma SliceJoin(m: PagedMedia, lo: nat, mid: nat, hi: nat)
    requires m.chunkSize > 0 && lo <= mid <= hi && m.Readable(lo, mid) && m.Readable(mid, hi)
    ensures m.Readable(lo, hi) && m.Slice(lo, hi) == m.Slice(lo, mid) + m.Slice(mid, hi)
  {
    SliceConcat(m, lo, mid, hi);
  }

  /** The range of one page that `[p, p + n)` covers, when it stays inside the page. */
  lemma PageCovers(m: PagedMedia, p: nat, n: nat, id: nat, at: nat)
    requires m.Served() && n > 0
    requires id == Div(p, m.chunkSize) && at == Mod(p, m.chunkSize) && at + n <= m.chunkSize
    ensures m.Readable(p, p + n) <==> m.page(id).Ok?
    ensures m.page(id).Ok? ==> m.Slice(p, p + n) == m.page(id).value[at..at + n]
  {
    forall q | p <= q < p + n
      ensures Div(q, m.chunkSize) == id && Mod(q, m.chunkSize) == at + (q - p)
    {
      SamePage(m.chunkSize, p, q);
    }
    assert m.Present(p) <==> m.page(id).Ok?;
    if m.page(id).Ok? {
      assert m.Readable(p, p + n);
      var s, d := m.Slice(p, p + n), m.page(id).value[at..at + n];
      forall i | 0 <= i < n
        ensures s[i] == d[i]
      {
        SamePage(m.chunkSize, p, p + i);
      }
    }
  }

  lemma SamePage(cs: nat, p: nat, q: nat)
    requires cs > 0 && p <= q && Mod(p, cs) + (q - p) < cs
    ensures Div(q, cs) == Div(p, cs) && Mod(q, cs) == Mod(p, cs) + (q - p)
  {
    DivMod(p, cs);
    DivModUnique(q, cs, Div(p, cs), Mod(p, cs) + (q - p));
  }

  lemma {:induction false} PagesLength(m: PagedMedia, k: nat)
    requires m.Served() && m.PagesOk(k)
    ensures |m.Pages(k)| == k * m.chunkSize
  {
    if k > 0 {
      PagesLength(m, k - 1);
      assert k * m.chunkSize == (k - 1) * m.chunkSize + m.chunkSize;
    }
  }

  /** Byte `p` of the concatenated pages is byte `p` of the media. */
  lemma {:induction false} PagesAt(m: PagedMedia, k: nat, p: nat)
    requires m.Served() && m.PagesOk(k) && p < k * m.chunkSize
    ensures |m.Pages(k)| == k * m.chunkSize
    ensures m.Present(p) && m.Pages(k)[p] == m.ByteAt(p)
  {
    PagesLength(m, k);
    PagesLength(m, k - 1);
    var cs := m.chunkSize;
    assert k * cs == (k - 1) * cs + cs;
    if p < (k - 1) * cs {
      PagesAt(m, k - 1, p);
    } else {
      DivModUnique(p, cs, k - 1, p - (k - 1) * cs);
    }
  }

  /** Cutting the concatenated pages anywhere gives the media up to there. */
  lemma PagesAreTheMedia(m: PagedMedia, k: nat, n: nat)
    requires m.Served() && m.PagesOk(k) && n <= k * m.chunkSize
    ensures m.Readable(0, n)
    ensures |m.Pages(k)| == k * m.chunkSize && m.Pages(k)[..n] == m.Slice(0, n)
  {
    PagesLength(m, k);
    forall p | 0 <= p < n
      ensures m.Present(p) && m.Pages(k)[p] == m.ByteAt(p)
    {
      PagesAt(m, k, p);
    }
  }

  /** The whole of the first `k` chunks can be read exactly when each of them decodes. */
  lemma ReadableIffPages(m: PagedMedia, k: nat)
    requires m.Served()
    ensures m.Readable(0, k * m.chunkSize) <==> m.PagesOk(k)
  {
    var cs := m.chunkSize;
    if m.PagesOk(k) {
      PagesAreTheMedia(m, k, k * cs);
    }
    if m.Readable(0, k * cs) {
      forall id | 0 <= id < k
        ensures m.page(id).Ok?
      {
        DivModUnique(id * cs, cs, id, 0);
        MulMonotone(id + 1, k, cs);
        assert (id + 1) * cs == id * cs + cs;
        assert m.Present(id * cs);
      }
    }
  }

  // ----- Media with the same pages -----

  ghost predicate SamePages(a: PagedMedia, b: PagedMedia) {
    a.chunkSize == b.chunkSize > 0 && a.total == b.total && forall id :: a.page(id) == b.page(id)
  }

  lemma SameSlices(a: PagedMedia, b: PagedMedia, lo: nat, hi: nat)
    requires SamePages(a, b) && lo <= hi
    ensures a.Readable(lo, hi) <==> b.Readable(lo, hi)
    ensures a.Readable(lo, hi) ==> a.Slice(lo, hi) == b.Slice(lo, hi)
  {
    assert forall p :: lo <= p < hi ==> (a.Present(p) <==> b.Present(p));
  }

  /** A positioned read's answer and the buffer it leaves are determined by the pages alone. */
  lemma SameOutcome(a: PagedMedia, b: PagedMedia, offset: nat, want: nat, r: Result<nat>, r': Result<nat>,
                    before: Data, after: Data, after': Data, lo: nat)
    requires SamePages(a, b) && lo + want <= |before|
    requires ReadOutcome(a, offset, want, r, before, after, lo) && ReadOutcome(b, offset, want, r', before, after', lo)
    ensures r == r' && after == after'
  {
    hide PagedMedia.Slice, PagedMedia.Readable, Splice;
    var n := Due(a, offset, want);
    SameSlices(a, b, offset, offset + n);
    if r.Err? {
      var p: nat :| Fails(a, offset, p, n, r.error) && after == Splice(before, lo, a.Slice(offset, p));
      FailsUnreadable(a, offset, p, n, r.error);
      SameSlices(a, b, offset, p);
      if r'.Err? {
        var q: nat :| Fails(b, offset, q, n, r'.error) && after' == Splice(before, lo, b.Slice(offset, q));
        FailsOnce(b, offset, p, q, n, r.error, r'.error);
      }
    } else if r'.Err? {
      var q: nat :| Fails(b, offset, q, n, r'.error);
      FailsUnreadable(b, offset, q, n, r'.error);
    }
  }
}
