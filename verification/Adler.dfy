/** Adler-32 (section 2.2 of RFC 1950), as EWF stores it over descriptors, headers and chunks. */
module Adler {
  import opened Bytes

  const MOD := 65521

  /** The running byte sum after `d`, reduced at every step. */
  function SumA(d: Data): int
  {
    if d == [] then 1 else (SumA(d[..|d| - 1]) + d[|d| - 1]) % MOD
  }

  /** The running sum of the byte sums after `d`, reduced at every step. */
  function SumB(d: Data): int
  {
    if d == [] then 0 else (SumB(d[..|d| - 1]) + SumA(d)) % MOD
  }

  lemma Reduced(d: Data)
    ensures 0 <= SumA(d) < MOD && 0 <= SumB(d) < MOD
  {
  }

  function Adler32(d: Data): (crc: U32)
  {
    Reduced(d);
    SumB(d) * 0x1_0000 + SumA(d)
  }

  /** The accumulating loop over the bytes, carrying both sums in place. */
  method Compute(d: Data) returns (crc: U32)
    ensures crc == Adler32(d)
  {
    var s1, s2 := 1, 0;
    var i := 0;
    while i < |d|
      invariant 0 <= i <= |d|
      invariant s1 == SumA(d[..i]) && s2 == SumB(d[..i])
    {
      assert d[..i + 1][..i] == d[..i];
      s1 := (s1 + d[i]) % MOD;
      s2 := (s2 + s1) % MOD;
      i := i + 1;
    }
    assert d[..i] == d;
    Reduced(d);
    crc := s2 * 0x1_0000 + s1;
  }

  // ----- Closed form: both sums are plain weighted byte sums, reduced once -----

  function Sum(d: Data): nat {
    if d == [] then 0 else Sum(d[..|d| - 1]) + d[|d| - 1]
  }

  /** Every byte weighted by the number of bytes from it to the end. */
  function Weighted(d: Data): nat {
    if d == [] then 0 else Weighted(d[..|d| - 1]) + Sum(d)
  }

  lemma {:induction false} ClosedForm(d: Data)
    ensures SumA(d) == (1 + Sum(d)) % MOD
    ensures SumB(d) == (|d| + Weighted(d)) % MOD
  {
    if d != [] {
      var p := d[..|d| - 1];
      ClosedForm(p);
      AddReduced(1 + Sum(p), d[|d| - 1]);
      AddReduced(|p| + Weighted(p), SumA(d));
      AddReduced(1 + Sum(d), |p| + Weighted(p));
    }
  }

  /** The weighted sum is the high half of the checksum, the plain one its low half. */
  lemma Halves(d: Data)
    ensures Adler32(d) / 0x1_0000 == (|d| + Weighted(d)) % MOD
    ensures Adler32(d) % 0x1_0000 == (1 + Sum(d)) % MOD
  {
    ClosedForm(d);
    Reduced(d);
    DivModUnique(Adler32(d), 0x1_0000, SumB(d), SumA(d));
  }

  lemma AddReduced(x: int, y: int)
    ensures (x % MOD + y) % MOD == (x + y) % MOD
  {
    var q := x / MOD;
    assert x % MOD + y == x + y - q * MOD;
    ShiftReduced(x + y, q);
  }

  lemma ShiftReduced(x: int, k: int)
    ensures (x - k * MOD) % MOD == x % MOD
  {
    DivModUnique(x - k * MOD, MOD, x / MOD - k, x % MOD);
  }

  /** How both sums move when the byte at `i` becomes `v`. */
  lemma {:induction false} UpdateSums(d: Data, i: nat, v: Byte, delta: int)
    requires i < |d| && delta == v as int - d[i] as int
    ensures Sum(d[i := v]) == Sum(d) + delta
    ensures Weighted(d[i := v]) == Weighted(d) + (|d| - i) * delta
  {
    var n := |d| - 1;
    var e := d[i := v];
    if i == n {
      assert e[..n] == d[..n];
    } else {
      assert e[..n] == d[..n][i := v];
      UpdateSums(d[..n], i, v, delta);
      assert (|d| - i) * delta == (n - i) * delta + delta;
    }
  }

  /** Two checksums agree exactly when both reduced sums agree. */
  lemma EqualIffSumsEqual(d: Data, e: Data)
    ensures Adler32(d) == Adler32(e) <==> SumA(d) == SumA(e) && SumB(d) == SumB(e)
  {
    Reduced(d);
    Reduced(e);
  }

  lemma CongruentIff(x: int, y: int)
    ensures x % MOD == y % MOD <==> (x - y) % MOD == 0
  {
    var q := y / MOD;
    if x % MOD == y % MOD {
      DivModUnique(x - y, MOD, x / MOD - q, 0);
    }
    if (x - y) % MOD == 0 {
      DivModUnique(x, MOD, (x - y) / MOD + q, y % MOD);
    }
  }

  /** Any one-byte change, anywhere in data of any length, changes the checksum. */
  lemma OneByteChangeDetected(d: Data, i: nat, v: Byte)
    requires i < |d| && v != d[i]
    ensures Adler32(d[i := v]) != Adler32(d)
  {
    var e, delta := d[i := v], v as int - d[i] as int;
    UpdateSums(d, i, v, delta);
    ClosedForm(d);
    ClosedForm(e);
    CongruentIff(1 + Sum(e), 1 + Sum(d));
    NotMultiple(1, delta);
    EqualIffSumsEqual(e, d);
  }

  function Swap(d: Data, i: nat, j: nat): Data
    requires i < |d| && j < |d|
  {
    d[i := d[j]][j := d[i]]
  }

  /** A swap goes unnoticed exactly when distance times byte difference is a multiple of 65521. */
  lemma SwapUndetectedIff(d: Data, i: nat, j: nat, delta: int)
    requires i < j < |d| && delta == d[j] as int - d[i] as int
    ensures Adler32(Swap(d, i, j)) == Adler32(d) <==> ((j - i) * delta) % MOD == 0
  {
    var m := d[i := d[j]];
    var e := Swap(d, i, j);
    UpdateSums(d, i, d[j], delta);
    UpdateSums(m, j, d[i], -delta);
    assert (|d| - i) * delta + (|d| - j) * -delta == (j - i) * delta;
    ClosedForm(d);
    ClosedForm(e);
    CongruentIff(|e| + Weighted(e), |d| + Weighted(d));
    EqualIffSumsEqual(e, d);
  }

  /** Over any range of at most 256 bytes no swap of two different bytes goes unnoticed. */
  lemma SwapDetectedInShortRange(d: Data, i: nat, j: nat)
    requires i < j < |d| <= 256 && d[i] != d[j]
    ensures Adler32(Swap(d, i, j)) != Adler32(d)
  {
    var delta := d[j] as int - d[i] as int;
    SwapUndetectedIff(d, i, j, delta);
    NotMultiple(j - i, delta);
  }

  /** A product of two small non-zero factors stays strictly between -65521 and 65521. */
  lemma NotMultiple(g: int, k: int)
    requires 1 <= g <= 255 && -255 <= k <= 255 && k != 0
    ensures (g * k) % MOD != 0
  {
    if k > 0 {
      MulMonotone(1, g, k);
      MulMonotone(g, 255, k);
      DivModUnique(g * k, MOD, 0, g * k);
    } else {
      var p := g * -k;
      MulMonotone(1, g, -k);
      MulMonotone(g, 255, -k);
      assert g * k == -p;
      DivModUnique(-p, MOD, -1, MOD - p);
    }
  }
}
