/** Putting segments into the order of their segment numbers. */
module SegmentOrder {
  import opened Bytes
  import opened Errors

  /** A segment's place in the caller's list and the number in its file header. */
  datatype Numbered = Numbered(idx: nat, number: U32)

  function Numbers(s: seq<Numbered>): (r: seq<int>)
    ensures |r| == |s|
  {
    seq(|s|, i requires 0 <= i < |s| => s[i].number)
  }

  ghost predicate Sorted(s: seq<int>) {
    forall i, j :: 0 <= i < j < |s| ==> s[i] <= s[j]
  }

  /** 1, 2, ..., n. */
  function OneTo(n: nat): seq<int> {
    seq(n, i => i + 1)
  }

  /** Are the numbers exactly 1..n, in some order? */
  ghost predicate IsOneToN(numbers: seq<int>) {
    multiset(numbers) == multiset(OneTo(|numbers|))
  }

  lemma DropLast(a: seq<int>)
    requires a != []
    ensures a == a[..|a| - 1] + [a[|a| - 1]]
    ensures multiset(a[..|a| - 1]) == multiset(a) - multiset{a[|a| - 1]}
  {
    assert a == a[..|a| - 1] + [a[|a| - 1]];
  }

  lemma LastIsLargest(a: seq<int>, v: int)
    requires a != [] && Sorted(a) && v in multiset(a)
    ensures v <= a[|a| - 1]
  {
    var i :| 0 <= i < |a| && a[i] == v;
  }

  lemma SameSize(a: seq<int>, b: seq<int>)
    requires multiset(a) == multiset(b)
    ensures |a| == |b|
  {
    assert |multiset(a)| == |a| && |multiset(b)| == |b|;
  }

  lemma SameLast(a: seq<int>, b: seq<int>)
    requires a != [] && b != [] && Sorted(a) && Sorted(b) && multiset(a) == multiset(b)
    ensures a[|a| - 1] == b[|b| - 1]
    ensures multiset(a[..|a| - 1]) == multiset(b[..|b| - 1])
  {
    var x, y := a[|a| - 1], b[|b| - 1];
    assert x in multiset(a) && y in multiset(b);
    LastIsLargest(b, x);
    LastIsLargest(a, y);
    DropLast(a);
    DropLast(b);
  }

  lemma {:induction false} SortedUnique(a: seq<int>, b: seq<int>)
    requires Sorted(a) && Sorted(b) && multiset(a) == multiset(b)
    ensures a == b
  {
    SameSize(a, b);
    if a != [] {
      var n := |a| - 1;
      SameLast(a, b);
      SortedUnique(a[..n], b[..n]);
      assert a == a[..n] + [a[n]];
      assert b == b[..n] + [b[n]];
    }
  }

  lemma SortedAppend(s: seq<int>, v: int)
    requires Sorted(s) && forall i :: 0 <= i < |s| ==> s[i] <= v
    ensures Sorted(s + [v])
  {
  }

  /** Insert `x` behind every element whose number is not larger. */
  function Insert(s: seq<Numbered>, x: Numbered): (r: seq<Numbered>)
    requires Sorted(Numbers(s))
    ensures |r| == |s| + 1
    ensures Sorted(Numbers(r))
    ensures forall y :: y in r <==> y in s || y == x
    ensures multiset(Numbers(r)) == multiset(Numbers(s)) + multiset{x.number}
  {
    var n := |s|;
    if n == 0 || s[n - 1].number <= x.number then
      InsertLast(s, x);
      s + [x]
    else
      assert Numbers(s[..n - 1]) == Numbers(s)[..n - 1];
      var front := Insert(s[..n - 1], x);
      InsertBefore(s, x, front);
      front + [s[n - 1]]
  }

  lemma InsertLast(s: seq<Numbered>, x: Numbered)
    requires Sorted(Numbers(s)) && (s == [] || s[|s| - 1].number <= x.number)
    ensures Sorted(Numbers(s + [x]))
    ensures multiset(Numbers(s + [x])) == multiset(Numbers(s)) + multiset{x.number}
  {
    assert Numbers(s + [x]) == Numbers(s) + [x.number];
    forall i | 0 <= i < |s|
      ensures Numbers(s)[i] <= x.number
    {
      assert i < |s| - 1 ==> Numbers(s)[i] <= Numbers(s)[|s| - 1];
    }
    SortedAppend(Numbers(s), x.number);
  }

  lemma InsertBefore(s: seq<Numbered>, x: Numbered, front: seq<Numbered>)
    requires s != [] && Sorted(Numbers(s)) && x.number < s[|s| - 1].number
    requires Sorted(Numbers(front))
    requires multiset(Numbers(front)) == multiset(Numbers(s[..|s| - 1])) + multiset{x.number}
    requires forall y :: y in front <==> y in s[..|s| - 1] || y == x
    ensures var r := front + [s[|s| - 1]];
            && Sorted(Numbers(r))
            && multiset(Numbers(r)) == multiset(Numbers(s)) + multiset{x.number}
            && forall y :: y in r <==> y in s || y == x
  {
    var last := s[|s| - 1];
    var r := front + [last];
    assert s == s[..|s| - 1] + [last];
    assert Numbers(r) == Numbers(front) + [last.number];
    assert Numbers(s) == Numbers(s[..|s| - 1]) + [last.number];
    forall i | 0 <= i < |front|
      ensures Numbers(front)[i] <= last.number
    {
      assert front[i] in front;
      if front[i] != x {
        var j :| 0 <= j < |s| - 1 && s[j] == front[i];
        assert Numbers(s)[j] <= Numbers(s)[|s| - 1];
      }
    }
    SortedAppend(Numbers(front), last.number);
  }

  method SortByNumber(s: seq<Numbered>) returns (r: seq<Numbered>)
    ensures |r| == |s| && Sorted(Numbers(r))
    ensures forall y :: y in r <==> y in s
    ensures multiset(Numbers(r)) == multiset(Numbers(s))
  {
    r := [];
    for i := 0 to |s|
      invariant |r| == i && Sorted(Numbers(r))
      invariant forall y :: y in r <==> y in s[..i]
      invariant multiset(Numbers(r)) == multiset(Numbers(s)[..i])
    {
      assert s[..i + 1] == s[..i] + [s[i]];
      assert Numbers(s)[..i + 1] == Numbers(s)[..i] + [s[i].number];
      r := Insert(r, s[i]);
    }
    assert s[..|s|] == s && Numbers(s)[..|s|] == Numbers(s);
  }

  /** Each segment stands at the position its number gives it. */
  ghost predicate Placed<T(!new)>(ordered: seq<T>, segments: seq<T>, numbers: seq<U32>) {
    && |ordered| == |segments| == |numbers|
    && forall j :: 0 <= j < |numbers| ==> 1 <= numbers[j] <= |ordered| && ordered[numbers[j] - 1] == segments[j]
  }

  ghost predicate IsSorting(sorted: seq<int>, numbers: seq<U32>) {
    Sorted(sorted) && multiset(sorted) == multiset(numbers)
  }

  /** Up to `pos` the sorted numbers are 1, 2, 3, ..., and at `pos` stands another one. */
  ghost predicate FirstGap(sorted: seq<int>, pos: nat, gap: Error)
    requires gap.SegmentGap?
  {
    && pos < |sorted| && (forall p :: 0 <= p < pos ==> sorted[p] == p + 1)
    && gap.expected == (pos + 1) % U32_LIMIT && gap.got == sorted[pos] != gap.expected
  }

  /** The first position, if any, where the sorted numbers leave 1, 2, 3, ... */
  method CheckSequential(indexed: seq<Numbered>) returns (gap: Option<Error>)
    requires Sorted(Numbers(indexed))
    ensures gap.None? <==> Numbers(indexed) == OneTo(|indexed|)
    ensures gap.Some? ==> gap.value.SegmentGap? && gap.value.got in Numbers(indexed)
    ensures gap.Some? ==> forall v :: 1 <= v < gap.value.expected ==> v in Numbers(indexed)
    ensures gap.Some? ==> exists pos: nat :: FirstGap(Numbers(indexed), pos, gap.value)
  {
    ghost var sorted := Numbers(indexed);
    for pos := 0 to |indexed|
      invariant pos < U32_LIMIT
      invariant forall p :: 0 <= p < pos ==> sorted[p] == p + 1
    {
      var expected := (pos + 1) % U32_LIMIT;
      var got := indexed[pos].number;
      assert sorted[pos] == got;
      assert pos > 0 ==> sorted[pos - 1] <= sorted[pos];
      if got != expected {
        forall v | 1 <= v < expected
          ensures v in sorted
        {
          assert sorted[v - 1] == v;
        }
        assert FirstGap(sorted, pos, SegmentGap(expected, got));
        return Some(SegmentGap(expected, got));
      }
    }
    gap := None;
    assert sorted == OneTo(|indexed|);
  }

  /** Take every segment out of its slot in the order of the sorted list. */
  method TakeInOrder<T(!new)>(segments: seq<T>, indexed: seq<Numbered>) returns (ordered: seq<T>)
    requires |indexed| == |segments|
    requires forall p :: 0 <= p < |indexed| ==> indexed[p].idx < |segments|
    requires forall p, q :: 0 <= p < q < |indexed| ==> indexed[p].idx != indexed[q].idx
    ensures |ordered| == |segments|
    ensures forall p :: 0 <= p < |indexed| ==> ordered[p] == segments[indexed[p].idx]
  {
    var slots := seq(|segments|, i requires 0 <= i < |segments| => Some(segments[i]));
    ordered := [];
    for p := 0 to |indexed|
      invariant |slots| == |segments| && |ordered| == p
      invariant forall q :: 0 <= q < p ==> ordered[q] == segments[indexed[q].idx]
      invariant forall q :: p <= q < |indexed| ==> slots[indexed[q].idx] == Some(segments[indexed[q].idx])
    {
      var idx := indexed[p].idx;
      if slots[idx].Some? {
        ordered := ordered + [slots[idx].value];
      }
      slots := slots[idx := None];
    }
  }

  /** Sorted by number, segment `p + 1` is at position `p`. */
  lemma SortedPositions(indexed: seq<Numbered>, numbers: seq<U32>)
    requires |indexed| == |numbers| && (forall y :: y in indexed <==> y in Enumerate(numbers))
    requires Numbers(indexed) == OneTo(|indexed|)
    ensures forall p :: 0 <= p < |indexed| ==> indexed[p].idx < |numbers| && numbers[indexed[p].idx] == p + 1
    ensures forall j :: 0 <= j < |numbers| ==> 1 <= numbers[j] <= |indexed| && indexed[numbers[j] - 1].idx == j
  {
    var enumerated, sorted := Enumerate(numbers), Numbers(indexed);
    forall p | 0 <= p < |indexed|
      ensures indexed[p].idx < |numbers| && numbers[indexed[p].idx] == p + 1
    {
      assert indexed[p] in enumerated;
      assert sorted[p] == p + 1;
    }
    forall j | 0 <= j < |numbers|
      ensures 1 <= numbers[j] <= |indexed| && indexed[numbers[j] - 1].idx == j
    {
      assert enumerated[j] in indexed;
      var p :| 0 <= p < |indexed| && indexed[p] == enumerated[j];
      assert sorted[p] == p + 1;
    }
  }

  /** Check that the numbers are 1, 2, 3, ... and reorder the segments to match. Only when they are
      not does it fail, naming the first number missing from the sorted list. */
  method ValidateAndReorder<T(!new)>(segments: seq<T>, numbers: seq<U32>) returns (r: Result<seq<T>>)
    requires |segments| == |numbers|
    ensures r.Ok? <==> IsOneToN(numbers)
    ensures r.Ok? ==> Placed(r.value, segments, numbers)
    ensures r.Err? ==> r.error.SegmentGap? && r.error.got in multiset(numbers)
    ensures r.Err? ==> forall v :: 1 <= v < r.error.expected ==> v in multiset(numbers)
    ensures r.Err? ==> exists sorted: seq<int>, pos: nat :: IsSorting(sorted, numbers) && FirstGap(sorted, pos, r.error)
  {
    hide Sorted, Enumerate, IsOneToN, OneTo, Numbers, FirstGap, Placed;
    var enumerated := Enumerate(numbers);
    var indexed := SortByNumber(enumerated);
    SortedIffOneToN(Numbers(indexed), numbers);
    var gap := CheckSequential(indexed);
    if gap.Some? {
      GapAmong(Numbers(indexed), numbers, gap.value);
      return Err(gap.value);
    }
    SortedPositions(indexed, numbers);
    var ordered := TakeInOrder(segments, indexed);
    PlacedByPosition(ordered, segments, numbers, indexed);
    r := Ok(ordered);
  }

  lemma GapAmong(sorted: seq<int>, numbers: seq<U32>, gap: Error)
    requires Sorted(sorted) && multiset(sorted) == multiset(numbers)
    requires gap.SegmentGap? && exists pos: nat :: FirstGap(sorted, pos, gap)
    ensures gap.got in multiset(numbers) && forall v :: 1 <= v < gap.expected ==> v in multiset(numbers)
    ensures IsSorting(sorted, numbers)
  {
    var pos: nat :| FirstGap(sorted, pos, gap);
    assert sorted[pos] in multiset(sorted);
    forall v | 1 <= v < gap.expected
      ensures v in multiset(numbers)
    {
      assert sorted[v - 1] == v && sorted[v - 1] in multiset(sorted);
    }
  }

  lemma PlacedByPosition<T(!new)>(ordered: seq<T>, segments: seq<T>, numbers: seq<U32>, indexed: seq<Numbered>)
    requires |ordered| == |segments| == |numbers| == |indexed|
    requires forall p :: 0 <= p < |indexed| ==> indexed[p].idx < |segments| && ordered[p] == segments[indexed[p].idx]
    requires forall j :: 0 <= j < |numbers| ==> 1 <= numbers[j] <= |indexed| && indexed[numbers[j] - 1].idx == j
    ensures Placed(ordered, segments, numbers)
  {
  }

  function Enumerate(numbers: seq<U32>): (r: seq<Numbered>)
    ensures |r| == |numbers| && Numbers(r) == numbers
    ensures forall i :: 0 <= i < |numbers| ==> r[i] == Numbered(i, numbers[i])
    ensures forall x :: x in r ==> x.idx < |numbers| && numbers[x.idx] == x.number
  {
    seq(|numbers|, i requires 0 <= i < |numbers| => Numbered(i, numbers[i]))
  }

  lemma SortedIffOneToN(sorted: seq<int>, numbers: seq<int>)
    requires Sorted(sorted) && multiset(sorted) == multiset(numbers)
    ensures sorted == OneTo(|numbers|) <==> IsOneToN(numbers)
  {
    OneToSorted(|numbers|);
    if IsOneToN(numbers) {
      SortedUnique(sorted, OneTo(|numbers|));
    }
  }

  lemma OneToSorted(n: nat)
    ensures Sorted(OneTo(n))
  {
  }

  /** The result depends on which segment carries which number, not on the order they came in. */
  lemma OrderIndependent<T(!new)>(out: seq<T>, segments: seq<T>, numbers: seq<U32>,
                                  out': seq<T>, segments': seq<T>, numbers': seq<U32>)
    requires Placed(out, segments, numbers) && Placed(out', segments', numbers')
    requires IsOneToN(numbers)
    requires |numbers| == |numbers'|
    requires forall j :: 0 <= j < |numbers| ==>
               exists k :: 0 <= k < |numbers'| && numbers'[k] == numbers[j] && segments'[k] == segments[j]
    ensures out == out'
  {
    forall p | 0 <= p < |out|
      ensures out[p] == out'[p]
    {
      assert OneTo(|numbers|)[p] == p + 1;
      assert p + 1 in multiset(OneTo(|numbers|));
      assert p + 1 in multiset(numbers);
      var j :| 0 <= j < |numbers| && numbers[j] == p + 1;
      var k :| 0 <= k < |numbers'| && numbers'[k] == numbers[j] && segments'[k] == segments[j];
    }
  }
}
