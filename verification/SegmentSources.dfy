/** Positioned reads over one segment, whatever backs it, and the cursor layered on top. */
module SegmentSources {
  import opened Bytes
  import opened Errors
  import opened Images

  /** A loose file, a window of a larger file, or bytes in memory. */
  datatype SegmentSource =
    | File(bytes: Segment)
    | Sub(file: Segment, base: U64, len: U64)
    | Mem(mem: Segment)
  {
    /** The bytes the source stands for; a window reaching past its file shows only what exists. */
    function Contents(): Segment {
      match this
      case File(bytes) => bytes
      case Sub(file, base, len) => ReadSlice(file, base, len)
      case Mem(mem) => mem
    }

    /** The length the source reports: for a window, the one it was made with. */
    function Length(): U64 {
      match this
      case File(bytes) => |bytes|
      case Sub(_, _, len) => len
      case Mem(mem) => |mem|
    }
  }

  /** `pread`: the bytes of `file` from `offset`, into `buf[lo..hi]`. */
  method PRead(file: Segment, buf: array<Byte>, lo: nat, hi: nat, offset: nat) returns (n: nat)
    requires lo <= hi <= buf.Length
    modifies buf
    ensures n == |ReadSlice(file, offset, hi - lo)| && n <= hi - lo
    ensures buf[lo..lo + n] == ReadSlice(file, offset, hi - lo)
    ensures forall i :: 0 <= i < buf.Length && !(lo <= i < lo + n) ==> buf[i] == old(buf[i])
  {
    var src := ReadSlice(file, offset, hi - lo);
    n := |src|;
    forall i | lo <= i < lo + n {
      buf[i] := src[i - lo];
    }
  }

  /** A read of a window `[base, base + len)` of `file`, clamped so that it never serves a byte of
      the window's neighbours. */
  method WindowReadAt(file: Segment, base: U64, len: U64, buf: array<Byte>, lo: nat, hi: nat, offset: nat)
    returns (n: nat)
    requires lo <= hi <= buf.Length
    modifies buf
    ensures n == |ReadSlice(ReadSlice(file, base, len), offset, hi - lo)| && n <= hi - lo
    ensures buf[lo..lo + n] == ReadSlice(ReadSlice(file, base, len), offset, hi - lo)
    ensures forall i :: 0 <= i < buf.Length && !(lo <= i < lo + n) ==> buf[i] == old(buf[i])
  {
    var avail := SatSub(len, offset);
    if avail == 0 {
      return 0;
    }
    var want := Min(hi - lo, avail);
    WindowRead(file, base, len, offset, hi - lo);
    n := PRead(file, buf, lo, lo + want, base + offset);
  }

  method MemReadAt(mem: Segment, buf: array<Byte>, lo: nat, hi: nat, offset: nat) returns (n: nat)
    requires lo <= hi <= buf.Length
    modifies buf
    ensures n == |ReadSlice(mem, offset, hi - lo)| && n <= hi - lo
    ensures buf[lo..lo + n] == ReadSlice(mem, offset, hi - lo)
    ensures forall i :: 0 <= i < buf.Length && !(lo <= i < lo + n) ==> buf[i] == old(buf[i])
  {
    var off := Min(offset, |mem|);
    var rest := mem[off..];
    n := Min(|rest|, hi - lo);
    forall i | lo <= i < lo + n {
      buf[i] := rest[i - lo];
    }
  }

  /** Fill `buf[lo..hi]` from `offset` within the source, short only at its end. */
  method ReadAt(src: SegmentSource, buf: array<Byte>, lo: nat, hi: nat, offset: nat) returns (n: nat)
    requires lo <= hi <= buf.Length
    modifies buf
    ensures n == Min(hi - lo, SatSub(|src.Contents()|, offset))
    ensures buf[lo..lo + n] == ReadSlice(src.Contents(), offset, hi - lo)
    ensures forall i :: 0 <= i < buf.Length && !(lo <= i < lo + n) ==> buf[i] == old(buf[i])
  {
    match src {
      case File(bytes) =>
        n := PRead(bytes, buf, lo, hi, offset);
      case Sub(file, base, len) =>
        n := WindowReadAt(file, base, len, buf, lo, hi, offset);
      case Mem(mem) =>
        n := MemReadAt(mem, buf, lo, hi, offset);
    }
  }

  /** Reading the window at `offset` is reading the file at `base + offset`, clamped. */
  lemma WindowRead(file: Segment, base: nat, len: nat, offset: nat, n: nat)
    requires offset < len
    ensures ReadSlice(ReadSlice(file, base, len), offset, n) == ReadSlice(file, base + offset, Min(n, len - offset))
  {
  }

  datatype SeekFrom = Start(p: U64) | End(d: int) | Current(d: int)

  /** `as i64`. */
  function AsI64(x: U64): int {
    if x < U63_LIMIT then x else x - U64_LIMIT
  }

  /** 64-bit two's-complement wrap-around. */
  function WrapI64(x: int): int {
    var r := x % U64_LIMIT;
    if r < U63_LIMIT then r else r - U64_LIMIT
  }

  /** The signed position a seek aims at, in a stream of `end` bytes at `position`. */
  function SeekTarget(position: U64, end: U64, from: SeekFrom): int {
    match from
    case Start(p) => AsI64(p)
    case End(d) => WrapI64(AsI64(end) + d)
    case Current(d) => WrapI64(AsI64(position) + d)
  }

  /** For streams and positions below 2^63 the signed arithmetic is exact while it stays there. */
  lemma SeekExact(position: U64, end: U64, d: int)
    requires position < U63_LIMIT && end < U63_LIMIT
    ensures forall p: U64 :: SeekTarget(position, end, Start(p)) == (if p < U63_LIMIT then p else p - U64_LIMIT)
    ensures -U63_LIMIT <= end + d < U63_LIMIT ==> SeekTarget(position, end, End(d)) == end + d
    ensures -U63_LIMIT <= position + d < U63_LIMIT ==> SeekTarget(position, end, Current(d)) == position + d
  {
    WrapExact(end + d);
    WrapExact(position + d);
  }

  /** Elsewhere it is off by a multiple of 2^64, so that it fits 64 signed bits. */
  lemma WrapCongruent(x: int)
    ensures -0x8000_0000_0000_0000 <= WrapI64(x) < 0x8000_0000_0000_0000
    ensures exists k: int :: WrapI64(x) == x + k * 0x1_0000_0000_0000_0000
  {
    var q := x / U64_LIMIT;
    assert x == q * U64_LIMIT + x % U64_LIMIT;
    assert WrapI64(x) == x + (if WrapI64(x) < 0 then -q - 1 else -q) * 0x1_0000_0000_0000_0000;
  }

  lemma WrapExact(x: int)
    ensures -U63_LIMIT <= x < U63_LIMIT ==> WrapI64(x) == x
  {
    if 0 <= x < U63_LIMIT {
      DivModUnique(x, U64_LIMIT, 0, x);
    } else if -U63_LIMIT <= x < 0 {
      DivModUnique(x, U64_LIMIT, -1, x + U64_LIMIT);
    }
  }

  /** A read-and-seek cursor over a source's positioned reads. */
  class SegmentCursor {
    const src: SegmentSource
    var pos: U64

    constructor (src: SegmentSource)
      ensures this.src == src && pos == 0
    {
      this.src := src;
      this.pos := 0;
    }

    method Read(buf: array<Byte>, lo: nat, hi: nat) returns (n: nat)
      requires lo <= hi <= buf.Length
      modifies this, buf
      ensures n == Min(hi - lo, SatSub(|src.Contents()|, old(pos)))
      ensures buf[lo..lo + n] == ReadSlice(src.Contents(), old(pos), hi - lo)
      ensures pos == old(pos) + n
      ensures forall i :: 0 <= i < buf.Length && !(lo <= i < lo + n) ==> buf[i] == old(buf[i])
    {
      n := ReadAt(src, buf, lo, hi, pos);
      pos := pos + n;
    }

    method Seek(from: SeekFrom) returns (r: Result<U64>)
      modifies this
      ensures var target := SeekTarget(old(pos), src.Length(), from);
              && (target >= 0 ==> r == Ok(target) && pos == target)
              && (target < 0 ==> r == Err(NegativeSeek) && pos == old(pos))
    {
      var target := SeekTarget(pos, src.Length(), from);
      if target < 0 {
        return Err(NegativeSeek);
      }
      pos := target;
      r := Ok(pos);
    }
  }
}
