/** Hashing the media for verification, and reading it in pieces through the cursor. */
module Verifying {
  import opened Bytes
  import opened Errors
  import opened Media

  // ----- What verification hashes -----

  datatype VerifyResult = VerifyResult(
    computedMd5: Data,
    computedSha1: Option<Data>,
    md5Match: Option<bool>,
    sha1Match: Option<bool>,
    addressableBytes: U64,
    declaredBytes: U64)
  {
    predicate IsComplete() { addressableBytes >= declaredBytes }

    function MissingBytes(): nat { SatSub(declaredBytes, addressableBytes) }
  }

  /** A digest in progress: what has been fed to it so far. */
  class Hasher {
    var fed: Data

    constructor ()
      ensures fed == []
    {
      fed := [];
    }

    method Update(d: Data)
      modifies this
      ensures fed == old(fed) + d
    {
      fed := fed + d;
    }
  }

  /** The stream after the first `k` pages: their concatenation, cut at the media's size. */
  ghost function HashedUpTo(m: PagedMedia, k: nat): Data
    requires m.Served() && m.PagesOk(k)
  {
    PagesLength(m, k);
    m.Pages(k)[..Min(m.total, k * m.chunkSize)]
  }

  /** Feeding the next page, trimmed to what remains of the media, extends the stream by one page. */
  lemma FeedNext(m: PagedMedia, k: nat)
    requires m.Served() && m.PagesOk(k + 1)
    ensures |HashedUpTo(m, k)| == Min(m.total, k * m.chunkSize)
    ensures |m.page(k).value| == m.chunkSize
    ensures HashedUpTo(m, k + 1) ==
            HashedUpTo(m, k) + m.page(k).value[..Min(m.chunkSize, SatSub(m.total, |HashedUpTo(m, k)|))]
  {
    PagesLength(m, k);
    PagesLength(m, k + 1);
    var cs := m.chunkSize;
    assert (k + 1) * cs == k * cs + cs;
    assert m.Pages(k + 1) == m.Pages(k) + m.page(k).value;
  }

  ghost predicate Verifies(m: PagedMedia, md5: Data -> Data, r: VerifyResult)
    requires m.Served() && m.PagesOk(m.count)
  {
    && r.computedMd5 == md5(HashedUpTo(m, m.count))
    && r.addressableBytes == Mod(m.chunkSize * m.count, U64_LIMIT)
    && r.declaredBytes == m.total
  }

  /** The verdict on a stored digest: that it is the one computed, that it is not, or none without one. */
  predicate Judges(verdict: Option<bool>, stored: Option<Data>, digest: Data) {
    && (verdict == Some(true) <==> stored.Some? && stored.value == digest)
    && (verdict == Some(false) <==> stored.Some? && stored.value != digest)
    && (verdict == None <==> stored.None?)
  }

  /** What was hashed for a complete result is the media. */
  lemma WholeVerified(m: PagedMedia, md5: Data -> Data, r: VerifyResult)
    requires m.Served() && m.PagesOk(m.count) && Verifies(m, md5, r)
    ensures r.IsComplete() ==> m.Readable(0, m.total) && HashedUpTo(m, m.count) == m.Slice(0, m.total)
  {
    var all := m.count * m.chunkSize;
    assert all == m.chunkSize * m.count;
    WrapsOnlyWhenLarge(all);
    PagesAreTheMedia(m, m.count, Min(m.total, all));
  }

  /** When the result says the table covers the media the digest is that of the whole media, exactly
      what reading all of it returns. When it does not, the digest is that of a prefix shorter by exactly
      the missing bytes, unless the addressable size wrapped around: then the whole media was hashed after
      all, and bytes are reported missing that are not. */
  lemma VerifiedStream(m: PagedMedia, md5: Data -> Data, r: VerifyResult)
    requires m.Served() && m.PagesOk(m.count) && Verifies(m, md5, r)
    ensures r.IsComplete() || m.chunkSize * m.count >= U64_LIMIT ==>
              m.Readable(0, m.total) && r.computedMd5 == md5(m.Slice(0, m.total))
    ensures !r.IsComplete() && m.chunkSize * m.count < U64_LIMIT ==>
              && 0 < r.MissingBytes() <= m.total
              && m.Readable(0, m.total - r.MissingBytes())
              && r.computedMd5 == md5(m.Slice(0, m.total - r.MissingBytes()))
    ensures r.IsComplete() <==> r.MissingBytes() == 0
  {
    var all := m.count * m.chunkSize;
    assert all == m.chunkSize * m.count;
    WrapsOnlyWhenLarge(all);
    PagesAreTheMedia(m, m.count, Min(m.total, all));
  }

  lemma WrapsOnlyWhenLarge(n: nat)
    ensures n < U64_LIMIT ==> Mod(n, U64_LIMIT) == n
    ensures Mod(n, U64_LIMIT) <= n
  {
  }

  // ----- Reading through the cursor, in any pieces -----

  /** The bytes a series of cursor reads of the given lengths returns, from `pos` on. */
  ghost function ReadSeries(m: PagedMedia, pos: nat, lens: seq<nat>): Data
    requires m.chunkSize > 0 && m.Readable(pos, pos + Due(m, pos, Total(lens)))
    decreases |lens|
  {
    if lens == [] then []
    else
      var n := Due(m, pos, lens[0]);
      m.Slice(pos, pos + n) + ReadSeries(m, pos + n, lens[1..])
  }

  function Total(lens: seq<nat>): nat {
    if lens == [] then 0 else lens[0] + Total(lens[1..])
  }

  /** However a range is cut into cursor reads, the pieces put together are the range. */
  lemma {:induction false} AnySplitReadsTheSame(m: PagedMedia, pos: nat, lens: seq<nat>)
    requires m.chunkSize > 0 && m.Readable(pos, pos + Due(m, pos, Total(lens)))
    ensures ReadSeries(m, pos, lens) == m.Slice(pos, pos + Due(m, pos, Total(lens)))
    decreases |lens|
  {
    hide PagedMedia.Slice;
    if lens != [] {
      var n := Due(m, pos, lens[0]);
      var end := pos + Due(m, pos, Total(lens));
      assert pos + n + Due(m, pos + n, Total(lens[1..])) == end;
      AnySplitReadsTheSame(m, pos + n, lens[1..]);
      SliceConcat(m, pos, pos + n, end);
    }
  }

  /** Feed a batch of decoded pages to the hashers, the last one trimmed to the media's size. */
  method FeedBatch(ghost m: PagedMedia, total: U64, pages: seq<Data>, ghost start: nat, hashed: nat,
                   md5Hasher: Hasher, sha1Hasher: Hasher?) returns (hashed': nat)
    requires m.Served() && m.total == total && m.PagesOk(start) && md5Hasher != sha1Hasher
    requires forall i :: 0 <= i < |pages| ==> m.page(start + i) == Ok(pages[i])
    requires md5Hasher.fed == HashedUpTo(m, start) && hashed == |md5Hasher.fed|
    requires sha1Hasher != null ==> sha1Hasher.fed == md5Hasher.fed
    modifies md5Hasher, sha1Hasher
    ensures m.PagesOk(start + |pages|)
    ensures md5Hasher.fed == HashedUpTo(m, start + |pages|) && hashed' == |md5Hasher.fed|
    ensures sha1Hasher != null ==> sha1Hasher.fed == md5Hasher.fed
  {
    hide HashedUpTo;
    hashed' := hashed;
    for i := 0 to |pages|
      invariant m.PagesOk(start + i)
      invariant md5Hasher.fed == HashedUpTo(m, start + i) && hashed' == |md5Hasher.fed|
      invariant sha1Hasher != null ==> sha1Hasher.fed == md5Hasher.fed
    {
      var page := pages[i];
      assert m.page(start + i) == Ok(page);
      FeedNext(m, start + i);
      var take := Min(|page|, SatSub(total, hashed'));
      md5Hasher.Update(page[..take]);
      if sha1Hasher != null {
        sha1Hasher.Update(page[..take]);
      }
      hashed' := hashed' + take;
    }
  }
}
