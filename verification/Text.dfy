/** The string operations the logical entry tree is parsed with, and their inverses. */
module Text {
  import opened Bytes

  // ----- Splitting and joining -----

  /** `str::split`: always at least one part. */
  function Split(s: string, sep: char): (parts: seq<string>)
    ensures |parts| >= 1
  {
    if s == "" then [""]
    else
      var rest := Split(s[1..], sep);
      if s[0] == sep then [""] + rest else [[s[0]] + rest[0]] + rest[1..]
  }

  function Join(parts: seq<string>, sep: char): string {
    if parts == [] then ""
    else if |parts| == 1 then parts[0]
    else parts[0] + [sep] + Join(parts[1..], sep)
  }

  /** Every line followed by a line break. */
  function Unlines(lines: seq<string>): string {
    if lines == [] then "" else lines[0] + ['\n'] + Unlines(lines[1..])
  }

  lemma {:induction false} SplitPart(p: string, sep: char)
    requires sep !in p
    ensures Split(p, sep) == [p]
  {
    if p != "" {
      SplitPart(p[1..], sep);
      assert [p[0]] + p[1..] == p;
    }
  }

  lemma {:induction false} SplitFront(p: string, rest: string, sep: char)
    requires sep !in p
    ensures Split(p + [sep] + rest, sep) == [p] + Split(rest, sep)
  {
    var s := p + [sep] + rest;
    if p == "" {
      assert s[1..] == rest;
    } else {
      SplitFront(p[1..], rest, sep);
      assert s[1..] == p[1..] + [sep] + rest;
      assert [p[0]] + p[1..] == p;
    }
  }

  /** Splitting what was joined gives the parts back. */
  lemma {:induction false} SplitJoin(parts: seq<string>, sep: char)
    requires parts != [] && forall p :: p in parts ==> sep !in p
    ensures Split(Join(parts, sep), sep) == parts
  {
    if |parts| == 1 {
      SplitPart(parts[0], sep);
    } else {
      SplitFront(parts[0], Join(parts[1..], sep), sep);
      SplitJoin(parts[1..], sep);
    }
  }

  /** The text after the last line break is one more, empty, line. */
  lemma {:induction false} SplitUnlines(lines: seq<string>)
    requires forall l :: l in lines ==> '\n' !in l
    ensures Split(Unlines(lines), '\n') == lines + [""]
  {
    if lines != [] {
      SplitFront(lines[0], Unlines(lines[1..]), '\n');
      SplitUnlines(lines[1..]);
      assert lines == [lines[0]] + lines[1..];
    }
  }

  /** `split_once`: before and after the first separator. */
  function SplitOnce(s: string, sep: char): (r: Option<(string, string)>)
    ensures r.None? <==> sep !in s
    ensures r.Some? ==> s == r.value.0 + [sep] + r.value.1 && sep !in r.value.0
  {
    if s == "" then None
    else if s[0] == sep then
      assert s == "" + [sep] + s[1..];
      Some(("", s[1..]))
    else
      var r := SplitOnce(s[1..], sep);
      if r.None? then None else Some(([s[0]] + r.value.0, r.value.1))
  }

  // ----- Trimming -----

  function TrimCr(s: string): string {
    if s != "" && s[|s| - 1] == '\r' then TrimCr(s[..|s| - 1]) else s
  }

  /** Unicode White_Space. */
  predicate IsWhite(c: char) {
    var n := c as int;
    || 9 <= n <= 13 || n == 0x20 || n == 0x85 || n == 0xa0 || n == 0x1680
    || 0x2000 <= n <= 0x200a || n == 0x2028 || n == 0x2029 || n == 0x202f || n == 0x205f || n == 0x3000
  }

  function TrimStart(s: string): string {
    if s != "" && IsWhite(s[0]) then TrimStart(s[1..]) else s
  }

  function TrimEnd(s: string): string {
    if s != "" && IsWhite(s[|s| - 1]) then TrimEnd(s[..|s| - 1]) else s
  }

  function Trim(s: string): string {
    TrimEnd(TrimStart(s))
  }

  // ----- Decimal numbers -----

  predicate IsDigit(c: char) {
    '0' <= c <= '9'
  }

  function Digit(n: nat): (c: char)
    requires n < 10
    ensures IsDigit(c)
  {
    '0' + n as char
  }

  predicate AllDigits(s: string) {
    forall i :: 0 <= i < |s| ==> IsDigit(s[i])
  }

  function Value(s: string): nat
    requires AllDigits(s)
  {
    if s == "" then 0 else Value(s[..|s| - 1]) * 10 + (s[|s| - 1] as int - '0' as int)
  }

  /** `str::parse` for a 64-bit unsigned integer: an optional plus sign and at least one digit. */
  function ParseU64(s: string): Option<U64> {
    var digits := if s != "" && s[0] == '+' then s[1..] else s;
    if digits == "" || !AllDigits(digits) || Value(digits) >= U64_LIMIT then None else Some(Value(digits))
  }

  function Decimal(n: nat): (s: string)
    ensures s != "" && AllDigits(s)
  {
    if n < 10 then [Digit(n)] else Decimal(n / 10) + [Digit(n % 10)]
  }

  lemma {:induction false} ValueDecimal(n: nat)
    ensures Value(Decimal(n)) == n
  {
    if n >= 10 {
      ValueDecimal(n / 10);
      assert Decimal(n)[..|Decimal(n)| - 1] == Decimal(n / 10);
    } else {
      assert [Digit(n)][..0] == "";
    }
  }

  lemma TrimDigits(s: string)
    requires s != "" && AllDigits(s)
    ensures Trim(s) == s && s[0] != '+'
  {
    assert IsDigit(s[0]) && IsDigit(s[|s| - 1]);
  }

  /** Printing a number and parsing it, with or without trimming, gives it back. */
  lemma ParseDecimal(n: U64)
    ensures ParseU64(Trim(Decimal(n))) == ParseU64(Decimal(n)) == Some(n)
    ensures '\t' !in Decimal(n) && '\n' !in Decimal(n)
  {
    hide Decimal, Trim, Value;
    ValueDecimal(n);
    TrimDigits(Decimal(n));
  }

  predicate AllZeros(s: string) {
    forall i :: 0 <= i < |s| ==> s[i] == '0'
  }

  /** Any digits are a printed number behind some zeros. */
  lemma {:induction false} DigitsAre(s: string) returns (zeros: string)
    requires s != "" && AllDigits(s)
    ensures AllZeros(zeros) && s == zeros + Decimal(Value(s))
  {
    var front, last := s[..|s| - 1], s[|s| - 1];
    var d := last as int - '0' as int;
    assert IsDigit(last) && s == front + [last];
    if front == "" {
      zeros := "";
      assert Value(front) == 0;
    } else {
      zeros := DigitsAre(front);
      if Value(front) == 0 {
        zeros := front;
        ZeroIsZeros(front);
      } else {
        assert Decimal(Value(s)) == Decimal(Value(front)) + [Digit(d)];
        assert s == zeros + Decimal(Value(front)) + [last];
      }
    }
  }

  lemma {:induction false} ZeroIsZeros(s: string)
    requires AllDigits(s)
    ensures Value(s) == 0 <==> AllZeros(s)
  {
    if s != "" {
      ZeroIsZeros(s[..|s| - 1]);
      assert s == s[..|s| - 1] + [s[|s| - 1]];
    }
  }

  lemma {:induction false} ValueBehindZeros(zeros: string, s: string)
    requires AllZeros(zeros) && AllDigits(s)
    ensures AllDigits(zeros + s) && Value(zeros + s) == Value(s)
    decreases |s|
  {
    if s == "" {
      ZeroIsZeros(zeros);
      assert zeros + s == zeros;
    } else {
      ValueBehindZeros(zeros, s[..|s| - 1]);
      assert (zeros + s)[..|zeros + s| - 1] == zeros + s[..|s| - 1];
    }
  }

  /** What is accepted as a 64-bit number: its decimal form, behind any zeros and at most one plus sign. */
  lemma ParseU64Iff(s: string, n: U64)
    ensures ParseU64(s) == Some(n) <==>
            exists plus, zeros :: plus in ["", "+"] && AllZeros(zeros) && s == plus + zeros + Decimal(n)
  {
    hide Decimal, Value, AllZeros;
    if ParseU64(s) == Some(n) {
      var plus := if s[0] == '+' then "+" else "";
      var zeros := DigitsAre(s[|plus|..]);
      assert s == plus + s[|plus|..];
      assert s == plus + zeros + Decimal(n);
    }
    if plus, zeros :| plus in ["", "+"] && AllZeros(zeros) && s == plus + zeros + Decimal(n) {
      ParsesBehind(plus, zeros, n);
    }
  }

  lemma ParsesBehind(plus: string, zeros: string, n: U64)
    requires plus in ["", "+"] && AllZeros(zeros)
    ensures ParseU64(plus + zeros + Decimal(n)) == Some(n)
  {
    hide Decimal, Value, AllZeros;
    var digits := zeros + Decimal(n);
    ValueBehindZeros(zeros, Decimal(n));
    ValueDecimal(n);
    assert plus + zeros + Decimal(n) == plus + digits && IsDigit(digits[0]);
    assert (plus + digits)[|plus|..] == digits;
  }

  lemma {:induction false} TrimsStart(a: string, s: string)
    requires forall i :: 0 <= i < |a| ==> IsWhite(a[i])
    requires s != "" ==> !IsWhite(s[0])
    ensures TrimStart(a + s) == s
  {
    if a == "" {
      assert a + s == s;
    } else {
      assert (a + s)[1..] == a[1..] + s;
      TrimsStart(a[1..], s);
    }
  }

  lemma {:induction false} TrimsEnd(s: string, b: string)
    requires forall i :: 0 <= i < |b| ==> IsWhite(b[i])
    requires s != "" ==> !IsWhite(s[|s| - 1])
    ensures TrimEnd(s + b) == s
    decreases |b|
  {
    if b == "" {
      assert s + b == s;
    } else {
      assert (s + b)[..|s + b| - 1] == s + b[..|b| - 1];
      TrimsEnd(s, b[..|b| - 1]);
    }
  }

  /** Trimming takes the white space at both ends, and nothing else. */
  lemma Trims(a: string, s: string, b: string)
    requires (forall i :: 0 <= i < |a| ==> IsWhite(a[i])) && forall i :: 0 <= i < |b| ==> IsWhite(b[i])
    requires s != "" && !IsWhite(s[0]) && !IsWhite(s[|s| - 1])
    ensures Trim(a + s + b) == s
  {
    assert a + s + b == a + (s + b);
    TrimsStart(a, s + b);
    TrimsEnd(s, b);
  }
}
