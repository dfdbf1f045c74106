/** Machine integers, byte strings, the little-endian readers shared by every EWF structure, and a few
    facts about sequences. */
module Bytes {

  const U32_LIMIT := 0x1_0000_0000
  const U63_LIMIT := 0x8000_0000_0000_0000
  const U64_LIMIT := 0x1_0000_0000_0000_0000

  type Byte = b: int | 0 <= b < 256
  type U32 = x: int | 0 <= x < U32_LIMIT
  type U64 = x: int | 0 <= x < U64_LIMIT

  type Data = seq<Byte>

  /** The bytes of one segment. A Rust slice or file is always shorter than 2^63 bytes. */
  type Segment = s: Data | |s| < U63_LIMIT

  datatype Option<+T> = None | Some(value: T)

  function Min(a: int, b: int): int {
    if a <= b then a else b
  }

  /** `u64::saturating_add` (and `usize::saturating_add` on a 64-bit target). */
  function SatAdd(a: nat, b: nat): U64 {
    if a + b < U64_LIMIT then a + b else U64_LIMIT - 1
  }

  /** `u64::saturating_mul`. */
  function SatMul(a: nat, b: nat): U64 {
    if a * b < U64_LIMIT then a * b else U64_LIMIT - 1
  }

  /** `u64::saturating_sub`. */
  function SatSub(a: nat, b: nat): nat {
    if a >= b then a - b else 0
  }

  /** Saturating operations are exact within their range, and stop at its ends. */
  lemma Saturates(a: nat, b: nat)
    ensures SatAdd(a, b) == Min(a + b, 0xffff_ffff_ffff_ffff) && SatMul(a, b) == Min(a * b, 0xffff_ffff_ffff_ffff)
    ensures SatSub(a, b) + Min(a, b) == a
  {
  }

  function Zeros(n: nat): Data {
    seq(n, _ => 0)
  }

  function Le16(d: Data, off: nat): U32
    requires off + 2 <= |d|
  {
    d[off] as int + 0x100 * d[off + 1] as int
  }

  function Le32(d: Data, off: nat): U32
    requires off + 4 <= |d|
  {
    d[off] as int + 0x100 * d[off + 1] as int + 0x1_0000 * d[off + 2] as int + 0x100_0000 * d[off + 3] as int
  }

  function Le64(d: Data, off: nat): U64
    requires off + 8 <= |d|
  {
    Le32(d, off) + U32_LIMIT * Le32(d, off + 4)
  }

  /** `slice.get(lo..hi)`: the sub-slice, or nothing when the range is not inside the slice. */
  function GetRange(d: Data, lo: nat, hi: nat): Option<Data> {
    if lo <= hi <= |d| then Some(d[lo..hi]) else None
  }

  /** `b` with the bytes from `at` overwritten by `d`. */
  function Splice(b: Data, at: nat, d: Data): (r: Data)
    requires at + |d| <= |b|
    ensures |r| == |b|
  {
    b[..at] + d + b[at + |d|..]
  }

  lemma SpliceSplice(b: Data, at: nat, d: Data, e: Data)
    requires at + |d| + |e| <= |b|
    ensures Splice(Splice(b, at, d), at + |d|, e) == Splice(b, at, d + e)
  {
  }

  lemma ConcatAssoc<T>(a: seq<T>, b: seq<T>, c: seq<T>)
    ensures a + b + c == a + (b + c)
  {
  }

  lemma ConcatFront<T>(x: seq<T>, y: seq<T>, a: nat, b: nat)
    requires a <= b <= |x|
    ensures (x + y)[a..b] == x[a..b]
  {
  }

  lemma ConcatBack<T>(x: seq<T>, y: seq<T>)
    ensures (x + y)[|x|..|x| + |y|] == y
  {
  }

  lemma SliceOfSlice<T>(s: seq<T>, a: nat, b: nat, c: nat, d: nat)
    requires a <= b <= |s| && c <= d <= b - a
    ensures s[a..b][c..d] == s[a + c..a + d]
  {
    var x, y := s[a..b][c..d], s[a + c..a + d];
    assert |x| == |y|;
    forall k | 0 <= k < |x|
      ensures x[k] == y[k]
    {
      assert x[k] == s[a..b][c + k];
    }
  }

  function Reversed<T>(s: seq<T>): (r: seq<T>)
    ensures |r| == |s|
    ensures forall k :: 0 <= k < |s| ==> r[k] == s[|s| - 1 - k]
  {
    if s == [] then [] else Reversed(s[1..]) + [s[0]]
  }

  lemma ReversedPush<T>(s: seq<T>, x: T)
    ensures Reversed(s + [x]) == [x] + Reversed(s)
  {
    var a, b := Reversed(s + [x]), [x] + Reversed(s);
    assert forall k :: 0 <= k < |a| ==> a[k] == b[k];
  }

  ghost predicate Increasing(s: seq<nat>) {
    forall i, j :: 0 <= i < j < |s| ==> s[i] < s[j]
  }

  lemma AppendIncreasing(s: seq<nat>, x: nat)
    requires Increasing(s) && forall i :: i in s ==> i < x
    ensures Increasing(s + [x])
    ensures forall i :: i in s + [x] <==> i in s || i == x
  {
    var t := s + [x];
    assert t[|s|] == x;
    assert forall i :: 0 <= i < |s| ==> t[i] == s[i] && s[i] in s;
  }

  /** Quotient and remainder are determined by the division equation. */
  lemma DivModUnique(a: int, d: int, q: int, r: int)
    requires 0 < d && 0 <= r < d
    requires a == q * d + r
    ensures a / d == q && a % d == r
  {
    var q', r' := a / d, a % d;
    assert a == q' * d + r';
    if q > q' {
      MulMonotone(q' + 1, q, d);
    } else if q < q' {
      MulMonotone(q + 1, q', d);
    }
  }

  lemma MulMonotone(a: int, b: int, d: int)
    requires a <= b && 0 <= d
    ensures a * d <= b * d
  {
    assert b * d - a * d == (b - a) * d;
  }

  /** Division of unsigned integers; the contracts spare callers the non-linear reasoning. */
  function Div(a: nat, d: nat): (q: nat)
    requires d > 0
  {
    a / d
  }

  function Mod(a: nat, d: nat): (r: nat)
    requires d > 0
    ensures r < d
  {
    a % d
  }

  lemma DivMod(a: nat, d: nat)
    requires d > 0
    ensures a == Div(a, d) * d + Mod(a, d)
  {
  }

  /** Rounding-up division: the number of `d`-sized pieces that cover `n` units. */
  function CeilDiv(n: nat, d: nat): (q: nat)
    requires d > 0
    ensures n <= q * d < n + d
  {
    var q := (n + d - 1) / d;
    assert (n + d - 1) == q * d + (n + d - 1) % d;
    q
  }
}
