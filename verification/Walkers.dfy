/** Walking a segment's section chain: the recovery walker, the analyser walker and the strict reader's walker. */
module Walkers {
  import opened Bytes
  import opened Adler
  import opened Sections

  predicate Terminal(name: string) {
    name == "done" || name == "next"
  }

  /** Does the tolerant chain continue from `d` to `d.next`? */
  predicate Continues(data: Segment, d: Descriptor) {
    !Terminal(d.sectionType) && d.offset < d.next <= |data|
  }

  /** Sections on the tolerant chain from `pos`. */
  function Walk(data: Segment, pos: nat): seq<Section>
    decreases SatSub(|data|, pos), 1
  {
    if pos + DESCRIPTOR_SIZE > |data| then []
    else
      var d := DescriptorAt(data, pos);
      [SectionOf(d)] + Onward(data, d)
  }

  /** The part of the tolerant chain after `d`. */
  function Onward(data: Segment, d: Descriptor): seq<Section>
    decreases SatSub(|data|, d.offset), 0
  {
    if Continues(data, d) then Walk(data, d.next) else []
  }

  /** Sections on the strict reader's chain, which runs on through `done` and `next`. */
  function StrictWalk(data: Segment, pos: nat): seq<Section>
    decreases SatSub(|data|, pos)
  {
    if pos + DESCRIPTOR_SIZE > |data| then []
    else
      var d := DescriptorAt(data, pos);
      [SectionOf(d)] + if pos < d.next then StrictWalk(data, d.next) else []
  }

  // ----- Shape of the chain -----

  ghost predicate Ascending(sections: seq<Section>, data: Segment, pos: nat) {
    && (forall k :: 0 <= k < |sections| ==> pos <= sections[k].offset && sections[k].offset + DESCRIPTOR_SIZE <= |data|)
    && (forall j, k :: 0 <= j < k < |sections| ==> sections[j].offset < sections[k].offset)
    && (forall k :: 0 <= k < |sections| ==> sections[k] == SectionOf(DescriptorAt(data, sections[k].offset)))
  }

  lemma AscendingPush(s: Section, rest: seq<Section>, data: Segment, pos: nat, next: nat)
    requires Ascending(rest, data, next) && pos < next && pos + DESCRIPTOR_SIZE <= |data|
    requires s == SectionOf(DescriptorAt(data, pos))
    ensures Ascending([s] + rest, data, pos)
  {
    hide DescriptorAt, SectionOf;
    var all := [s] + rest;
    assert DescriptorAt(data, pos).offset == pos && s.offset == pos by {
      OffsetOf(data, pos);
    }
    forall j, k | 0 <= j < k < |all|
      ensures all[j].offset < all[k].offset
    {
      assert all[k] == rest[k - 1];
      if j > 0 {
        assert all[j] == rest[j - 1];
      }
    }
  }

  lemma OffsetOf(data: Segment, pos: nat)
    requires pos + DESCRIPTOR_SIZE <= |data|
    ensures SectionOf(DescriptorAt(data, pos)).offset == pos
  {
  }

  /** Both chains run strictly forward through whole in-file descriptors. */
  lemma {:induction false} WalkAscending(data: Segment, pos: nat)
    ensures Ascending(Walk(data, pos), data, pos)
    ensures pos + DESCRIPTOR_SIZE <= |data| ==> Walk(data, pos) != [] && Walk(data, pos)[0].offset == pos
    decreases SatSub(|data|, pos)
  {
    hide DescriptorAt, Ascending;
    NothingAscends(data, pos);
    if pos + DESCRIPTOR_SIZE <= |data| {
      var d := DescriptorAt(data, pos);
      NothingAscends(data, pos + 1);
      if Continues(data, d) {
        WalkAscending(data, d.next);
        AscendingPush(SectionOf(d), Walk(data, d.next), data, pos, d.next);
      } else {
        AscendingPush(SectionOf(d), [], data, pos, pos + 1);
      }
    }
  }

  lemma NothingAscends(data: Segment, pos: nat)
    ensures Ascending([], data, pos)
  {
  }

  lemma {:induction false} StrictWalkAscending(data: Segment, pos: nat)
    ensures Ascending(StrictWalk(data, pos), data, pos)
    ensures pos + DESCRIPTOR_SIZE <= |data| ==> StrictWalk(data, pos) != [] && StrictWalk(data, pos)[0].offset == pos
    decreases SatSub(|data|, pos)
  {
    hide DescriptorAt, Ascending;
    NothingAscends(data, pos);
    if pos + DESCRIPTOR_SIZE <= |data| {
      var d := DescriptorAt(data, pos);
      NothingAscends(data, pos + 1);
      if pos < d.next {
        StrictWalkAscending(data, d.next);
        AscendingPush(SectionOf(d), StrictWalk(data, d.next), data, pos, d.next);
      } else {
        AscendingPush(SectionOf(d), [], data, pos, pos + 1);
      }
    }
  }

  /** No terminal section is followed by another section. */
  predicate EndsAtTerminal(sections: seq<Section>) {
    forall k :: 0 <= k < |sections| - 1 ==> !Terminal(sections[k].typeName)
  }

  /** The tolerant chain is a prefix of the strict one; it is all of it exactly when no terminal
      section is followed on the strict chain. */
  lemma {:induction false} TolerantIsStrictPrefix(data: Segment, pos: nat)
    ensures Walk(data, pos) <= StrictWalk(data, pos)
    ensures Walk(data, pos) == StrictWalk(data, pos) <==> EndsAtTerminal(StrictWalk(data, pos))
    decreases SatSub(|data|, pos)
  {
    hide DescriptorAt, EndsAtTerminal;
    PrefixEmpty();
    if pos + DESCRIPTOR_SIZE <= |data| {
      var d := DescriptorAt(data, pos);
      if pos < d.next {
        TolerantIsStrictPrefix(data, d.next);
        PrefixStep(SectionOf(d), Walk(data, d.next), StrictWalk(data, d.next), Continues(data, d));
      } else {
        PrefixStep(SectionOf(d), [], [], false);
      }
    }
  }

  lemma PrefixEmpty()
    ensures EndsAtTerminal([])
  {
  }

  lemma PrefixStep(x: Section, w: seq<Section>, s: seq<Section>, continues: bool)
    requires w <= s && (w == s <==> EndsAtTerminal(s))
    requires if continues then !Terminal(x.typeName) else s == [] || Terminal(x.typeName)
    ensures var w', s' := [x] + (if continues then w else []), [x] + s;
            w' <= s' && (w' == s' <==> EndsAtTerminal(s'))
  {
    var s' := [x] + s;
    assert s'[0] == x && s'[1..] == s;
    assert forall k :: 0 <= k < |s| ==> s'[k + 1] == s[k];
    if EndsAtTerminal(s') {
      forall k | 0 <= k < |s| - 1
        ensures !Terminal(s[k].typeName)
      {
        assert !Terminal(s'[k + 1].typeName);
      }
    }
    if EndsAtTerminal(s) && (s == [] || !Terminal(x.typeName)) {
      forall k | 0 <= k < |s'| - 1
        ensures !Terminal(s'[k].typeName)
      {
        if k > 0 {
          assert s'[k] == s[k - 1];
        }
      }
    }
    if continues && [x] + w == s' {
      assert ([x] + w)[1..] == w;
    }
  }

  /** One turn of a walker's loop: the sections found so far, plus what remains of the chain. */
  lemma ChainStep(data: Segment, found: seq<Section>, pos: nat, all: seq<Section>)
    requires pos + DESCRIPTOR_SIZE <= |data| && found + Walk(data, pos) == all
    ensures var d := DescriptorAt(data, pos);
            found + [SectionOf(d)] + Onward(data, d) == all
  {
    var d := DescriptorAt(data, pos);
    ConcatAssoc(found, [SectionOf(d)], Onward(data, d));
  }

  lemma NothingAt(data: Segment, pos: nat)
    requires pos + DESCRIPTOR_SIZE > |data|
    ensures Walk(data, pos) == []
  {
  }

  // ----- Recovery walker -----

  /** Where the tolerant chain broke off: at a descriptor cut short by the end of the file, or at a
      forward link that leaves it. */
  function TruncationOf(data: Segment, sections: seq<Section>): Option<nat>
    requires sections != [] ==> sections[|sections| - 1].offset + DESCRIPTOR_SIZE <= |data|
  {
    if sections == [] then CutShort(data, FILE_HEADER_SIZE)
    else
      var d := DescriptorAt(data, sections[|sections| - 1].offset);
      if Continues(data, d) then CutShort(data, d.next) else LeavesFile(data, d)
  }

  function CutShort(data: Segment, pos: nat): Option<nat> {
    if pos < |data| then Some(pos) else None
  }

  function LeavesFile(data: Segment, d: Descriptor): Option<nat> {
    if !Terminal(d.sectionType) && d.offset < d.next && |data| < d.next then Some(d.next) else None
  }

  /** The end-of-chain and link checks of the recovery walk. */
  method RecoverFollow(data: Segment, d: Descriptor) returns (next: Option<nat>, truncation: Option<nat>)
    ensures next == if Continues(data, d) then Some(d.next) else None
    ensures truncation == LeavesFile(data, d)
  {
    next, truncation := None, None;
    if d.sectionType == "done" || d.sectionType == "next" {
      return;
    }
    if d.next == 0 || d.next <= d.offset {
      return;
    }
    if d.next > |data| {
      truncation := Some(d.next);
      return;
    }
    next := Some(d.next);
  }

  method RecoverWalk(data: Segment) returns (sections: seq<Section>, truncation: Option<nat>)
    ensures sections == Walk(data, FILE_HEADER_SIZE)
    ensures sections != [] ==> sections[|sections| - 1].offset + DESCRIPTOR_SIZE <= |data|
    ensures truncation == TruncationOf(data, sections)
  {
    hide DescriptorAt, Walk, Terminal;
    sections, truncation := [], None;
    ghost var all := Walk(data, FILE_HEADER_SIZE);
    ghost var last: Option<Descriptor> := None;
    var pos: nat := FILE_HEADER_SIZE;
    while true
      invariant sections + Walk(data, pos) == all
      invariant truncation == None
      invariant last.None? ==> sections == [] && pos == FILE_HEADER_SIZE
      invariant last.Some? ==>
          && sections != [] && sections[|sections| - 1].offset + DESCRIPTOR_SIZE <= |data|
          && last.value == DescriptorAt(data, sections[|sections| - 1].offset)
          && Continues(data, last.value) && pos == last.value.next
      decreases SatSub(|data|, pos)
    {
      if SatAdd(pos, DESCRIPTOR_SIZE) > |data| {
        NothingAt(data, pos);
        if pos < |data| {
          truncation := Some(pos);
        }
        break;
      }
      var d := DescriptorAt(data, pos);
      ChainStep(data, sections, pos, all);
      sections := sections + [Section(d.sectionType, pos, d.sectionSize)];
      last := Some(d);
      var next, broken := RecoverFollow(data, d);
      if next.None? {
        truncation := broken;
        break;
      }
      pos := next.value;
    }
  }

  /** The chain is reported as truncated at exactly one place: where its last descriptor links forward, or the
      first descriptor if there is none; and there only if the file does not end right there. */
  lemma TruncatedIff(data: Segment, p: nat)
    ensures var w := Walk(data, FILE_HEADER_SIZE);
            && (w != [] ==> w[|w| - 1].offset + DESCRIPTOR_SIZE <= |data|)
            && (TruncationOf(data, w) == Some(p) <==>
                if w == [] then p == 13 && 13 < |data|
                else
                  var s := w[|w| - 1];
                  && s.typeName != "done" && s.typeName != "next"
                  && p == Le64(data, s.offset + 16) && s.offset < p && p != |data|)
  {
    hide Walk, ParseDescriptor;
    var w := Walk(data, FILE_HEADER_SIZE);
    WalkAscending(data, FILE_HEADER_SIZE);
    if w != [] {
      var s := w[|w| - 1];
      LinkBytes(data, s.offset);
      assert s == SectionOf(DescriptorAt(data, s.offset));
    }
  }

  /** No whole descriptor is left where the chain was truncated. */
  lemma {:induction false} NothingBehind(data: Segment, pos: nat)
    ensures var w := Walk(data, pos);
            && (w == [] ==> pos + DESCRIPTOR_SIZE > |data|)
            && (w != [] ==> w[|w| - 1].offset + DESCRIPTOR_SIZE <= |data|)
            && (w != [] && Continues(data, DescriptorAt(data, w[|w| - 1].offset)) ==>
                  DescriptorAt(data, w[|w| - 1].offset).next + DESCRIPTOR_SIZE > |data|)
    decreases SatSub(|data|, pos)
  {
    hide DescriptorAt;
    if pos + DESCRIPTOR_SIZE <= |data| {
      var d := DescriptorAt(data, pos);
      var w, rest := Walk(data, pos), Onward(data, d);
      OffsetOf(data, pos);
      assert w == [SectionOf(d)] + rest;
      if Continues(data, d) {
        NothingBehind(data, d.next);
      }
    }
  }

  // ----- Analyser walker -----

  datatype Issue =
    | CrcMismatch(offset: nat, sectionType: string, computed: U32, stored: U32)
    | UnknownType(offset: nat, typeName: string)
    | ChainBroken(atOffset: nat, nextOffset: nat)
    | GapNonZero(gapOffset: nat, gapSize: nat)
    | GapZero(gapOffset: nat, gapSize: nat)
  {
    predicate IsGap() { GapNonZero? || GapZero? }
  }

  predicate KnownType(name: string) {
    || name == "header" || name == "header2" || name == "volume" || name == "disk"
    || name == "table" || name == "table2" || name == "sectors" || name == "hash"
    || name == "digest" || name == "error2" || name == "session" || name == "done"
    || name == "next" || name == "data" || name == "ltree" || name == "ltreedata"
  }

  function CrcIssue(data: Segment, d: Descriptor): seq<Issue>
    requires d.offset + DESCRIPTOR_SIZE <= |data|
  {
    var raw := data[d.offset..d.offset + DESCRIPTOR_SIZE];
    if d.VerifyCrc(raw) then []
    else [CrcMismatch(d.offset, d.sectionType, Adler32(raw[..DESCRIPTOR_CRC_OFFSET]), d.storedCrc)]
  }

  function TypeIssue(d: Descriptor): seq<Issue> {
    if KnownType(d.sectionType) then [] else [UnknownType(d.offset, d.sectionType)]
  }

  predicate AnyNonZero(b: Data) {
    exists i :: 0 <= i < |b| && b[i] != 0
  }

  /** What following (or failing to follow) the link of `d` reports. */
  function LinkIssue(data: Segment, d: Descriptor): seq<Issue> {
    if Terminal(d.sectionType) then []
    else if !Continues(data, d) then [ChainBroken(d.offset, d.next)]
    else
      var end := SatAdd(d.offset, d.sectionSize);
      if d.next <= end then []
      else if AnyNonZero(data[end..d.next]) then [GapNonZero(end, d.next - end)]
      else [GapZero(end, d.next - end)]
  }

  function DescriptorIssues(data: Segment, d: Descriptor): seq<Issue>
    requires d.offset + DESCRIPTOR_SIZE <= |data|
  {
    CrcIssue(data, d) + TypeIssue(d) + LinkIssue(data, d)
  }

  /** The issues of a list of sections, descriptor by descriptor. */
  function Issues(data: Segment, sections: seq<Section>): seq<Issue>
    requires forall s :: s in sections ==> s.offset + DESCRIPTOR_SIZE <= |data|
  {
    if sections == [] then []
    else DescriptorIssues(data, DescriptorAt(data, sections[0].offset)) + Issues(data, sections[1..])
  }

  lemma {:induction false} IssuesAppend(data: Segment, sections: seq<Section>, s: Section)
    requires forall t :: t in sections + [s] ==> t.offset + DESCRIPTOR_SIZE <= |data|
    ensures forall t :: t in sections ==> t in sections + [s]
    ensures s in sections + [s]
    ensures Issues(data, sections + [s]) ==
            Issues(data, sections) + DescriptorIssues(data, DescriptorAt(data, s.offset))
  {
    var all := sections + [s];
    assert all[|sections|] == s;
    assert forall k :: 0 <= k < |sections| ==> all[k] == sections[k];
    var last := DescriptorIssues(data, DescriptorAt(data, s.offset));
    if sections == [] {
      assert all[1..] == [];
    } else {
      assert all[1..] == sections[1..] + [s];
      IssuesAppend(data, sections[1..], s);
      ConcatAssoc(DescriptorIssues(data, DescriptorAt(data, sections[0].offset)), Issues(data, sections[1..]), last);
    }
  }

  /** The checksum and type checks the walk makes on one descriptor. */
  method CheckDescriptor(data: Segment, d: Descriptor) returns (issues: seq<Issue>)
    requires d.offset + DESCRIPTOR_SIZE <= |data|
    ensures issues == CrcIssue(data, d) + TypeIssue(d)
  {
    issues := [];
    var raw := data[d.offset..d.offset + DESCRIPTOR_SIZE];
    if !d.VerifyCrc(raw) {
      issues := issues + [CrcMismatch(d.offset, d.sectionType, Adler32(raw[..DESCRIPTOR_CRC_OFFSET]), d.storedCrc)];
    }
    if !KnownType(d.sectionType) {
      issues := issues + [UnknownType(d.offset, d.sectionType)];
    }
  }

  /** The end-of-chain, broken-link and gap checks the walk makes after recording a section. */
  method FollowLink(data: Segment, d: Descriptor) returns (next: Option<nat>, issues: seq<Issue>)
    ensures issues == LinkIssue(data, d)
    ensures next == if Continues(data, d) then Some(d.next) else None
  {
    next, issues := None, [];
    var sectionEnd := SatAdd(d.offset, d.sectionSize);
    if d.sectionType == "done" || d.sectionType == "next" {
      return;
    }
    if d.next == 0 || d.next > |data| || d.next <= d.offset {
      issues := [ChainBroken(d.offset, d.next)];
      return;
    }
    if d.next > sectionEnd {
      var gapSize := SatSub(d.next, sectionEnd);
      var nonZero := AnyNonZero(data[sectionEnd..d.next]);
      if nonZero {
        issues := [GapNonZero(sectionEnd, gapSize)];
      } else {
        issues := [GapZero(sectionEnd, gapSize)];
      }
    }
    next := Some(d.next);
  }

  method AnalyserWalk(data: Segment) returns (sections: seq<Section>, issues: seq<Issue>)
    ensures sections == Walk(data, FILE_HEADER_SIZE)
    ensures forall s :: s in sections ==> s.offset + DESCRIPTOR_SIZE <= |data|
    ensures issues == Issues(data, sections)
  {
    sections, issues := [], [];
    ghost var all := Walk(data, FILE_HEADER_SIZE);
    var pos: nat := FILE_HEADER_SIZE;
    while true
      invariant sections + Walk(data, pos) == all
      invariant forall s :: s in sections ==> s.offset + DESCRIPTOR_SIZE <= |data|
      invariant issues == Issues(data, sections)
      decreases SatSub(|data|, pos)
    {
      if SatAdd(pos, DESCRIPTOR_SIZE) > |data| {
        break;
      }
      var d := DescriptorAt(data, pos);
      ChainStep(data, sections, pos, all);
      IssuesAppend(data, sections, SectionOf(d));
      var found := CheckDescriptor(data, d);
      sections := sections + [Section(d.sectionType, pos, d.sectionSize)];
      var next, linkFound := FollowLink(data, d);
      ConcatAssoc(issues, found, linkFound);
      issues := issues + found + linkFound;
      if next.None? {
        break;
      }
      pos := next.value;
    }
  }

  // ----- Gaps are reported exactly once, with the right kind -----

  function OnlyGaps(issues: seq<Issue>): seq<Issue> {
    if issues == [] then [] else IfGap(issues[0]) + OnlyGaps(issues[1..])
  }

  function IfGap(issue: Issue): seq<Issue> {
    if issue.IsGap() then [issue] else []
  }

  lemma {:induction false} OnlyGapsConcat(a: seq<Issue>, b: seq<Issue>)
    ensures OnlyGaps(a + b) == OnlyGaps(a) + OnlyGaps(b)
  {
    if a == [] {
      assert a + b == b;
    } else {
      var c := a + b;
      assert c[1..] == a[1..] + b;
      OnlyGapsConcat(a[1..], b);
      ConcatAssoc(IfGap(a[0]), OnlyGaps(a[1..]), OnlyGaps(b));
    }
  }

  /** The bytes between the end of `s` and the place `to` its link leads to, if any. */
  function GapTo(data: Segment, s: Section, to: nat): seq<Issue>
    requires to <= |data|
  {
    if to <= s.End() then []
    else if exists i :: s.End() <= i < to && data[i] != 0 then [GapNonZero(s.End(), to - s.End())]
    else [GapZero(s.End(), to - s.End())]
  }

  /** One gap for each followed section: up to its successor in the list or, for the last section,
      up to the place where the chain was cut short. */
  function Gaps(data: Segment, sections: seq<Section>): seq<Issue>
    requires forall s :: s in sections ==> s.offset + DESCRIPTOR_SIZE <= |data|
  {
    if sections == [] then []
    else if |sections| == 1 then
      var d := DescriptorAt(data, sections[0].offset);
      if Continues(data, d) then GapTo(data, sections[0], d.next) else []
    else GapTo(data, sections[0], sections[1].offset) + Gaps(data, sections[1..])
  }

  lemma NonZeroByte(data: Segment, lo: nat, hi: nat)
    requires lo <= hi <= |data|
    ensures AnyNonZero(data[lo..hi]) <==> exists i :: lo <= i < hi && data[i] != 0
  {
    var gap := data[lo..hi];
    if i :| lo <= i < hi && data[i] != 0 {
      assert gap[i - lo] != 0;
    }
  }

  lemma LinkGaps(data: Segment, d: Descriptor)
    ensures OnlyGaps(LinkIssue(data, d)) ==
            if Continues(data, d) then GapTo(data, SectionOf(d), d.next) else []
  {
    var l := LinkIssue(data, d);
    if l != [] {
      assert l == [l[0]] && OnlyGaps(l) == IfGap(l[0]) + OnlyGaps(l[1..]);
    }
    if Continues(data, d) && SectionOf(d).End() < d.next {
      NonZeroByte(data, SectionOf(d).End(), d.next);
    }
  }

  lemma DescriptorGaps(data: Segment, d: Descriptor)
    requires d.offset + DESCRIPTOR_SIZE <= |data|
    ensures OnlyGaps(DescriptorIssues(data, d)) == OnlyGaps(LinkIssue(data, d))
  {
    var c, t, l := CrcIssue(data, d), TypeIssue(d), LinkIssue(data, d);
    OnlyGapsConcat(c + t, l);
    OnlyGapsConcat(c, t);
    NoGaps(c);
    NoGaps(t);
  }

  lemma NoGaps(issues: seq<Issue>)
    requires |issues| <= 1 && forall x :: x in issues ==> !x.IsGap()
    ensures OnlyGaps(issues) == []
  {
  }

  /** Among everything the walk reports, the gap issues are exactly the gaps left by the followed
      links, in order, once each, and of the kind the gap's bytes call for. */
  lemma {:induction false} GapsReportedOnce(data: Segment, pos: nat)
    ensures forall s :: s in Walk(data, pos) ==> s.offset + DESCRIPTOR_SIZE <= |data|
    ensures OnlyGaps(Issues(data, Walk(data, pos))) == Gaps(data, Walk(data, pos))
    decreases SatSub(|data|, pos)
  {
    WalkAscending(data, pos);
    if pos + DESCRIPTOR_SIZE <= |data| {
      var d := DescriptorAt(data, pos);
      var w := Walk(data, pos);
      assert w[0] == SectionOf(d) && DescriptorAt(data, w[0].offset) == d;
      DescriptorGaps(data, d);
      LinkGaps(data, d);
      OnlyGapsConcat(DescriptorIssues(data, d), Issues(data, w[1..]));
      if Continues(data, d) {
        assert w[1..] == Walk(data, d.next);
        GapsReportedOnce(data, d.next);
        WalkAscending(data, d.next);
      } else {
        assert w[1..] == [];
      }
    }
  }

  // ----- Broken chains and unknown types -----

  lemma InConcat<T>(a: seq<T>, b: seq<T>, x: T)
    ensures x in a + b <==> x in a || x in b
  {
  }

  /** A broken chain is reported once, of the last section the walk reaches: when it is not terminal and its link
      does not lead forward to a place inside the file. */
  lemma {:induction false} BrokenReportedIff(data: Segment, pos: nat, at: nat, next: nat)
    ensures forall s :: s in Walk(data, pos) ==> s.offset + DESCRIPTOR_SIZE <= |data|
    ensures var w := Walk(data, pos);
            ChainBroken(at, next) in Issues(data, w) <==>
            && w != [] && w[|w| - 1].offset == at
            && w[|w| - 1].typeName != "done" && w[|w| - 1].typeName != "next"
            && next == Le64(data, at + 16) && !(at < next <= |data|)
    decreases SatSub(|data|, pos)
  {
    hide CrcIssue, TypeIssue, ParseDescriptor;
    WalkAscending(data, pos);
    if pos + DESCRIPTOR_SIZE <= |data| {
      var d, w := DescriptorAt(data, pos), Walk(data, pos);
      LinkBytes(data, pos);
      assert w[0] == SectionOf(d);
      BrokenHere(data, d, at, next);
      InConcat(DescriptorIssues(data, d), Issues(data, w[1..]), ChainBroken(at, next));
      if Continues(data, d) {
        assert w[1..] == Walk(data, d.next);
        BrokenReportedIff(data, d.next, at, next);
        WalkAscending(data, d.next);
      } else {
        assert w[1..] == [];
      }
    }
  }

  lemma LinkBytes(data: Segment, pos: nat)
    requires pos + DESCRIPTOR_SIZE <= |data|
    ensures DescriptorAt(data, pos).next == Le64(data, pos + 16)
  {
    var raw := data[pos..pos + DESCRIPTOR_SIZE];
    assert Le32(raw, 16) == Le32(data, pos + 16) && Le32(raw, 20) == Le32(data, pos + 20);
  }

  lemma BrokenHere(data: Segment, d: Descriptor, at: nat, next: nat)
    requires d.offset + DESCRIPTOR_SIZE <= |data|
    ensures ChainBroken(at, next) in DescriptorIssues(data, d) <==>
            at == d.offset && next == d.next && !Terminal(d.sectionType) && !Continues(data, d)
  {
    var c, t, l := CrcIssue(data, d), TypeIssue(d), LinkIssue(data, d);
    InConcat(c + t, l, ChainBroken(at, next));
    InConcat(c, t, ChainBroken(at, next));
  }

  /** The section types of the format. */
  lemma KnownTypes(name: string)
    ensures KnownType(name) <==>
            name in ["header", "header2", "volume", "disk", "table", "table2", "sectors", "hash", "digest", "error2",
                     "session", "done", "next", "data", "ltree", "ltreedata"]
  {
  }

  /** A type is reported as unknown exactly where the walk meets a section of none of those types. */
  lemma {:induction false} UnknownReportedIff(data: Segment, sections: seq<Section>, at: nat, name: string)
    requires forall s :: s in sections ==> s.offset + DESCRIPTOR_SIZE <= |data|
    ensures UnknownType(at, name) in Issues(data, sections) <==>
            && !KnownType(name) && exists k :: 0 <= k < |sections| && sections[k].offset == at
                                             && DescriptorAt(data, at).sectionType == name
  {
    hide DescriptorIssues, DescriptorAt, KnownType;
    if sections != [] {
      var d := DescriptorAt(data, sections[0].offset);
      UnknownHere(data, d, at, name);
      InConcat(DescriptorIssues(data, d), Issues(data, sections[1..]), UnknownType(at, name));
      UnknownReportedIff(data, sections[1..], at, name);
      assert forall k :: 0 < k < |sections| ==> sections[k] == sections[1..][k - 1];
      if k :| 0 <= k < |sections[1..]| && sections[1..][k].offset == at {
        assert sections[k + 1].offset == at;
      }
    }
  }

  lemma UnknownHere(data: Segment, d: Descriptor, at: nat, name: string)
    requires d.offset + DESCRIPTOR_SIZE <= |data|
    ensures UnknownType(at, name) in DescriptorIssues(data, d) <==>
            at == d.offset && name == d.sectionType && !KnownType(name)
  {
    hide KnownType;
    var c, t, l := CrcIssue(data, d), TypeIssue(d), LinkIssue(data, d);
    InConcat(c + t, l, UnknownType(at, name));
    InConcat(c, t, UnknownType(at, name));
  }

  // ----- Checksum reports and tampering -----

  ghost predicate ReportsCrc(issues: seq<Issue>, p: nat) {
    exists k :: 0 <= k < |issues| && issues[k].CrcMismatch? && issues[k].offset == p
  }

  ghost predicate VisitsBadCrc(data: Segment, sections: seq<Section>, p: nat)
    requires forall s :: s in sections ==> s.offset + DESCRIPTOR_SIZE <= |data|
  {
    exists k :: 0 <= k < |sections| && sections[k].offset == p && BadCrc(data, p)
  }

  predicate BadCrc(data: Segment, p: nat)
    requires p + DESCRIPTOR_SIZE <= |data|
  {
    !DescriptorAt(data, p).VerifyCrc(data[p..p + DESCRIPTOR_SIZE])
  }

  lemma ReportsConcat(a: seq<Issue>, b: seq<Issue>, p: nat)
    ensures ReportsCrc(a + b, p) <==> ReportsCrc(a, p) || ReportsCrc(b, p)
  {
    if k :| 0 <= k < |a| && a[k].CrcMismatch? && a[k].offset == p {
      assert (a + b)[k] == a[k];
    }
    if k :| 0 <= k < |b| && b[k].CrcMismatch? && b[k].offset == p {
      assert (a + b)[|a| + k] == b[k];
    }
  }

  lemma DescriptorReports(data: Segment, q: nat, p: nat)
    requires q + DESCRIPTOR_SIZE <= |data|
    ensures ReportsCrc(DescriptorIssues(data, DescriptorAt(data, q)), p) <==> q == p && BadCrc(data, p)
  {
    var d := DescriptorAt(data, q);
    var c, t, l := CrcIssue(data, d), TypeIssue(d), LinkIssue(data, d);
    ReportsConcat(c + t, l, p);
    ReportsConcat(c, t, p);
    if BadCrc(data, q) {
      assert c[0].CrcMismatch? && c[0].offset == q;
    }
  }

  /** A checksum mismatch is reported at an offset exactly when the walk visits a descriptor there
      whose checksum does not verify. */
  lemma {:induction false} CrcReportedIff(data: Segment, sections: seq<Section>, p: nat)
    requires forall s :: s in sections ==> s.offset + DESCRIPTOR_SIZE <= |data|
    ensures ReportsCrc(Issues(data, sections), p) <==> VisitsBadCrc(data, sections, p)
  {
    hide BadCrc, DescriptorIssues, DescriptorAt;
    if sections != [] {
      var q := sections[0].offset;
      DescriptorReports(data, q, p);
      ReportsConcat(DescriptorIssues(data, DescriptorAt(data, q)), Issues(data, sections[1..]), p);
      CrcReportedIff(data, sections[1..], p);
      if VisitsBadCrc(data, sections[1..], p) {
        var k :| 0 <= k < |sections[1..]| && sections[1..][k].offset == p && BadCrc(data, p);
        assert sections[k + 1].offset == p;
      }
    }
  }

  /** And it is reported with the type, the checksum of the first 72 bytes and the stored checksum. */
  lemma CrcReported(data: Segment, p: nat, name: string, computed: U32, stored: U32)
    requires p + DESCRIPTOR_SIZE <= |data|
    ensures CrcMismatch(p, name, computed, stored) in DescriptorIssues(data, DescriptorAt(data, p)) <==>
            && name == DescriptorAt(data, p).sectionType
            && computed == Adler32(data[p..p + 72]) && stored == Le32(data, p + 72) && computed != stored
  {
    hide Adler32, NulTerminated;
    var d, x := DescriptorAt(data, p), CrcMismatch(p, name, computed, stored);
    var c, t, l := CrcIssue(data, d), TypeIssue(d), LinkIssue(data, d);
    var raw := data[p..p + DESCRIPTOR_SIZE];
    assert raw[..72] == data[p..p + 72] && Le32(raw, 72) == Le32(data, p + 72);
    InConcat(c + t, l, x);
    InConcat(c, t, x);
  }

  /** A segment whose descriptor at `p` was valid before one covered byte changed. */
  ghost predicate OneByteTampered(data: Segment, was: Segment, p: nat, i: nat) {
    && p + DESCRIPTOR_SIZE <= |was| && i < DESCRIPTOR_CRC_OFFSET
    && DescriptorAt(was, p).VerifyCrc(was[p..p + DESCRIPTOR_SIZE])
    && |data| == |was| && data[p + i] != was[p + i]
    && data == was[p + i := data[p + i]]
  }

  /** A segment whose descriptor at `p` was valid before two different covered bytes changed places. */
  ghost predicate SwapTampered(data: Segment, was: Segment, p: nat, i: nat, j: nat) {
    && p + DESCRIPTOR_SIZE <= |was| && i < j < DESCRIPTOR_CRC_OFFSET
    && DescriptorAt(was, p).VerifyCrc(was[p..p + DESCRIPTOR_SIZE])
    && was[p + i] != was[p + j]
    && data == Swap(was, p + i, p + j)
  }

  lemma OneByteTamperFails(data: Segment, was: Segment, p: nat, i: nat)
    requires OneByteTampered(data, was, p, i)
    ensures !DescriptorAt(was, p).VerifyCrc(data[p..p + DESCRIPTOR_SIZE])
    ensures !DescriptorAt(data, p).VerifyCrc(data[p..p + DESCRIPTOR_SIZE])
  {
    var raw, raw' := was[p..p + DESCRIPTOR_SIZE], data[p..p + DESCRIPTOR_SIZE];
    var n := DESCRIPTOR_CRC_OFFSET;
    assert raw'[..n] == raw[..n][i := data[p + i]];
    OneByteChangeDetected(raw[..n], i, data[p + i]);
    assert forall k :: n <= k < DESCRIPTOR_SIZE ==> raw'[k] == raw[k];
  }

  lemma SwapInside(d: Data, p: nat, n: nat, i: nat, j: nat)
    requires p + n <= |d| && i < n && j < n
    ensures Swap(d, p + i, p + j)[p..p + n] == Swap(d[p..p + n], i, j)
  {
    var x, y := Swap(d, p + i, p + j)[p..p + n], Swap(d[p..p + n], i, j);
    forall k | 0 <= k < n
      ensures x[k] == y[k]
    {
      assert x[k] == Swap(d, p + i, p + j)[p + k];
    }
  }

  lemma SwapTamperFails(data: Segment, was: Segment, p: nat, i: nat, j: nat)
    requires SwapTampered(data, was, p, i, j)
    ensures !DescriptorAt(was, p).VerifyCrc(data[p..p + DESCRIPTOR_SIZE])
    ensures !DescriptorAt(data, p).VerifyCrc(data[p..p + DESCRIPTOR_SIZE])
  {
    var raw, raw' := was[p..p + DESCRIPTOR_SIZE], data[p..p + DESCRIPTOR_SIZE];
    var n := DESCRIPTOR_CRC_OFFSET;
    var covered := Swap(raw[..n], i, j);
    SwapInside(was, p, n, i, j);
    assert raw'[..n] == data[p..p + n] && raw[..n] == was[p..p + n];
    assert raw'[..n] == covered;
    SwapDetectedInShortRange(raw[..n], i, j);
    assert forall k :: n <= k < DESCRIPTOR_SIZE ==> raw'[k] == raw[k];
  }

  /** The analyser reports either kind of tampering whenever its walk reaches the descriptor. */
  lemma TamperReported(data: Segment, was: Segment, p: nat, i: nat, j: nat)
    requires OneByteTampered(data, was, p, i) || SwapTampered(data, was, p, i, j)
    requires exists s :: s in Walk(data, FILE_HEADER_SIZE) && s.offset == p
    ensures forall s :: s in Walk(data, FILE_HEADER_SIZE) ==> s.offset + DESCRIPTOR_SIZE <= |data|
    ensures ReportsCrc(Issues(data, Walk(data, FILE_HEADER_SIZE)), p)
  {
    WalkAscending(data, FILE_HEADER_SIZE);
    if OneByteTampered(data, was, p, i) {
      OneByteTamperFails(data, was, p, i);
    } else {
      SwapTamperFails(data, was, p, i, j);
    }
    CrcReportedIff(data, Walk(data, FILE_HEADER_SIZE), p);
  }

  /** Nothing before the tampered descriptor stops the walk from reaching it: the chain up to `p` is
      read from bytes the tampering left alone. */
  lemma {:induction false} WalkReaches(data: Segment, was: Segment, pos: nat, p: nat)
    requires |data| == |was| && p + DESCRIPTOR_SIZE <= |was|
    requires forall k :: 0 <= k < |was| && !(p <= k < p + DESCRIPTOR_SIZE) ==> data[k] == was[k]
    requires exists s :: s in Walk(was, pos) && s.offset == p
    requires forall s :: s in Walk(was, pos) && s.offset < p ==> s.offset + DESCRIPTOR_SIZE <= p
    ensures exists s :: s in Walk(data, pos) && s.offset == p
    decreases SatSub(|data|, pos)
  {
    WalkAscending(was, pos);
    WalkAscending(data, pos);
    var w, w' := Walk(was, pos), Walk(data, pos);
    if pos == p {
      assert w'[0] in w' && w'[0].offset == p;
    } else {
      var d := DescriptorAt(was, pos);
      assert w[0] in w && w[0] == SectionOf(d);
      assert data[pos..pos + DESCRIPTOR_SIZE] == was[pos..pos + DESCRIPTOR_SIZE];
      assert w[1..] == if Continues(was, d) then Walk(was, d.next) else [];
      assert forall s :: s in w <==> s == w[0] || s in w[1..];
      WalkReaches(data, was, d.next, p);
      assert w' == [w'[0]] + Walk(data, d.next);
    }
  }

  /** Tampering with a descriptor the original walk reaches, and no earlier descriptor overlaps, is always
      reported by the walk of the tampered segment. */
  lemma ReachedTamperReported(data: Segment, was: Segment, p: nat, i: nat, j: nat)
    requires OneByteTampered(data, was, p, i) || SwapTampered(data, was, p, i, j)
    requires exists s :: s in Walk(was, FILE_HEADER_SIZE) && s.offset == p
    requires forall s :: s in Walk(was, FILE_HEADER_SIZE) && s.offset < p ==> s.offset + DESCRIPTOR_SIZE <= p
    ensures forall s :: s in Walk(data, FILE_HEADER_SIZE) ==> s.offset + DESCRIPTOR_SIZE <= |data|
    ensures ReportsCrc(Issues(data, Walk(data, FILE_HEADER_SIZE)), p)
  {
    hide Walk, DescriptorAt, Issues;
    WalkReaches(data, was, FILE_HEADER_SIZE, p);
    TamperReported(data, was, p, i, j);
  }
}
