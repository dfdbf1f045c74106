/** The backward-linked section list of an EWF2 segment, and the two walks along it. */
module Ewf2 {
  import opened Bytes
  import opened Errors
  import SegmentWriter

  const DESCRIPTOR_LEN := 64
  const HEADER_LEN := 32
  const CHUNK_TABLE := 4

  datatype Descriptor = Descriptor(
    sectionType: U32,
    dataFlags: U32,
    previousOffset: U64,
    dataSize: U64,
    descriptorSize: U32,
    paddingSize: U32,
    integrityHash: Data,
    offset: nat)
  {
    predicate Encrypted() { dataFlags / 2 % 2 == 1 }
  }

  /** The descriptor stored at `off`. */
  function DescriptorAt(data: Segment, off: nat): (d: Descriptor)
    requires off + DESCRIPTOR_LEN <= |data|
    ensures d.offset == off
  {
    Descriptor(Le32(data, off), Le32(data, off + 4), Le64(data, off + 8), Le64(data, off + 16), Le32(data, off + 24),
               Le32(data, off + 28), data[off + 32..off + 48], off)
  }

  /** The 64 bytes of a descriptor: its fields in order, each in its width, and 16 bytes of padding. */
  function Written(d: Descriptor): (w: Data)
    requires |d.integrityHash| == 16
    ensures |w| == DESCRIPTOR_LEN
  {
    SegmentWriter.Enc32(d.sectionType) + SegmentWriter.Enc32(d.dataFlags) + SegmentWriter.Enc64(d.previousOffset)
    + SegmentWriter.Enc64(d.dataSize) + SegmentWriter.Enc32(d.descriptorSize) + SegmentWriter.Enc32(d.paddingSize)
    + d.integrityHash + Zeros(16)
  }

  /** A written descriptor is read back where it was written. */
  lemma WrittenParses(d: Descriptor, data: Segment, off: nat)
    requires |d.integrityHash| == 16 && off + DESCRIPTOR_LEN <= |data|
    requires data[off..off + DESCRIPTOR_LEN] == Written(d)
    ensures DescriptorAt(data, off) == d.(offset := off)
  {
    hide Le32, Le64, SegmentWriter.Enc32, SegmentWriter.Enc64;
    var w, end := Written(d), off + DESCRIPTOR_LEN;
    assert w[0..4] == SegmentWriter.Enc32(d.sectionType) && w[4..8] == SegmentWriter.Enc32(d.dataFlags);
    assert w[8..16] == SegmentWriter.Enc64(d.previousOffset) && w[16..24] == SegmentWriter.Enc64(d.dataSize);
    assert w[24..28] == SegmentWriter.Enc32(d.descriptorSize) && w[28..32] == SegmentWriter.Enc32(d.paddingSize);
    assert w[32..48] == d.integrityHash;
    SliceOfSlice(data, off, end, 0, 4);
    SliceOfSlice(data, off, end, 4, 8);
    SliceOfSlice(data, off, end, 8, 16);
    SliceOfSlice(data, off, end, 16, 24);
    SliceOfSlice(data, off, end, 24, 28);
    SliceOfSlice(data, off, end, 28, 32);
    SliceOfSlice(data, off, end, 32, 48);
    SegmentWriter.DecodeEnc32(data, off, d.sectionType);
    SegmentWriter.DecodeEnc32(data, off + 4, d.dataFlags);
    SegmentWriter.DecodeEnc64(data, off + 8, d.previousOffset);
    SegmentWriter.DecodeEnc64(data, off + 16, d.dataSize);
    SegmentWriter.DecodeEnc32(data, off + 24, d.descriptorSize);
    SegmentWriter.DecodeEnc32(data, off + 28, d.paddingSize);
  }

  /** The second-lowest bit of the flags, whatever the others are. */
  lemma EncryptedIff(d: Descriptor, low: nat, high: nat, bit: bool)
    requires low < 2 && d.dataFlags == low + (if bit then 2 else 0) + 4 * high
    ensures d.Encrypted() <==> bit
  {
    hide Descriptor.Encrypted;
    var half := (if bit then 1 else 0) + 2 * high;
    DivModUnique(d.dataFlags, 2, half, low);
    DivModUnique(half, 2, high, if bit then 1 else 0);
    EncryptedIsBit(d, half);
  }

  lemma EncryptedIsBit(d: Descriptor, half: nat)
    requires d.dataFlags / 2 == half
    ensures d.Encrypted() <==> half % 2 == 1
  {
  }

  // ----- The reader's walk -----

  /** What following the links from `off` yields, in file order: everything before `off`, then `off`. */
  function Chase(data: Segment, off: nat, visited: set<nat>): Result<seq<Descriptor>>
    requires off < |data|
    decreases Unvisited(|data|, visited)
  {
    if off in visited then Err(CyclicDescriptors)
    else if off + DESCRIPTOR_LEN > |data| then Err(UnexpectedEof)
    else
      var d := DescriptorAt(data, off);
      var prev := d.previousOffset;
      if prev == 0 then Ok([d])
      else if prev >= |data| then Err(PreviousBeyondFile)
      else
        assert off in Unvisited(|data|, visited) && off !in Unvisited(|data|, visited + {off});
        Then(Chase(data, prev, visited + {off}), [d])
  }

  function Unvisited(len: nat, visited: set<nat>): set<nat> {
    set k: nat | k < len && k !in visited
  }

  function Then(r: Result<seq<Descriptor>>, tail: seq<Descriptor>): Result<seq<Descriptor>> {
    if r.Err? then r else Ok(r.value + tail)
  }

  function Collected(data: Segment): Result<seq<Descriptor>> {
    if |data| < DESCRIPTOR_LEN then Ok([]) else Chase(data, |data| - DESCRIPTOR_LEN, {})
  }

  /** Follow the links back from the last descriptor of the segment, refusing to visit any twice. The
      loop ends because every turn leaves one offset fewer unvisited. */
  method CollectDescriptors(data: Segment) returns (r: Result<seq<Descriptor>>)
    ensures r == Collected(data)
  {
    if |data| < DESCRIPTOR_LEN {
      return Ok([]);
    }
    var descriptors: seq<Descriptor> := [];
    var visited: set<nat> := {};
    var offset: nat := |data| - DESCRIPTOR_LEN;
    ghost var goal := Chase(data, offset, {});
    assert Then(goal, []) == goal by {
      ThenNothing(goal);
    }
    while true
      invariant offset < |data|
      invariant goal == Then(Chase(data, offset, visited), Reversed(descriptors))
      decreases Unvisited(|data|, visited)
    {
      if offset in visited {
        return Err(CyclicDescriptors);
      }
      ghost var before := visited;
      visited := visited + {offset};
      if offset + DESCRIPTOR_LEN > |data| {
        return Err(UnexpectedEof);
      }
      var d := DescriptorAt(data, offset);
      var prev := d.previousOffset;
      ReversedPush(descriptors, d);
      ThenThen(if 0 < prev < |data| then Chase(data, prev, visited) else goal, [d], Reversed(descriptors));
      descriptors := descriptors + [d];
      if prev == 0 {
        break;
      }
      if prev >= |data| {
        return Err(PreviousBeyondFile);
      }
      assert offset in Unvisited(|data|, before) && offset !in Unvisited(|data|, visited);
      offset := prev;
    }
    r := Ok(Reversed(descriptors));
  }

  lemma ThenNothing(r: Result<seq<Descriptor>>)
    ensures Then(r, []) == r
  {
    if r.Ok? {
      assert r.value + [] == r.value;
    }
  }

  lemma ThenThen(r: Result<seq<Descriptor>>, x: seq<Descriptor>, y: seq<Descriptor>)
    ensures Then(Then(r, x), y) == Then(r, x + y)
  {
    if r.Ok? {
      ConcatAssoc(r.value, x, y);
    }
  }

  // ----- What the list is -----

  /** `list` runs from a descriptor with no predecessor to the one at `last`, each naming the one before. */
  ghost predicate Chain(data: Segment, list: seq<Descriptor>, last: nat) {
    && list != [] && list[|list| - 1].offset == last
    && (forall k :: 0 <= k < |list| ==>
       list[k].offset + DESCRIPTOR_LEN <= |data| && list[k] == DescriptorAt(data, list[k].offset))
    && list[0].previousOffset == 0
    && (forall k :: 0 <= k < |list| - 1 ==> list[k + 1].previousOffset == list[k].offset != 0)
  }

  ghost predicate HasChain(data: Segment, last: nat) {
    exists list :: Chain(data, list, last)
  }

  lemma ChainFront(data: Segment, list: seq<Descriptor>, last: nat)
    requires Chain(data, list, last) && |list| > 1
    ensures list[|list| - 1] == DescriptorAt(data, last) && list[|list| - 1].previousOffset == list[|list| - 2].offset
    ensures Chain(data, list[..|list| - 1], list[|list| - 1].previousOffset)
  {
    var n := |list| - 1;
    assert list[n - 1 + 1].previousOffset == list[n - 1].offset != 0;
  }

  /** There is at most one such list. */
  lemma {:induction false} ChainUnique(data: Segment, a: seq<Descriptor>, b: seq<Descriptor>, last: nat)
    requires Chain(data, a, last) && Chain(data, b, last)
    ensures a == b
    decreases |a|
  {
    assert a[|a| - 1] == b[|b| - 1];
    if |a| > 1 {
      ChainFront(data, a, last);
    }
    if |b| > 1 {
      ChainFront(data, b, last);
    }
    if |a| > 1 && |b| > 1 {
      ChainUnique(data, a[..|a| - 1], b[..|b| - 1], a[|a| - 1].previousOffset);
      assert a == a[..|a| - 1] + [a[|a| - 1]] && b == b[..|b| - 1] + [b[|b| - 1]];
    }
  }

  ghost predicate NoneTwice(list: seq<Descriptor>) {
    forall i, j :: 0 <= i < j < |list| ==> list[i].offset != list[j].offset
  }

  /** It names no descriptor twice: two prefixes that end alike would have to be the same list. */
  lemma ChainDistinct(data: Segment, list: seq<Descriptor>, last: nat)
    requires Chain(data, list, last)
    ensures NoneTwice(list)
  {
    forall i, j | 0 <= i < j < |list|
      ensures list[i].offset != list[j].offset
    {
      ChainPrefix(data, list, last, i);
      ChainPrefix(data, list, last, j);
      if list[i].offset == list[j].offset {
        ChainUnique(data, list[..i + 1], list[..j + 1], list[i].offset);
        assert false;
      }
    }
  }

  lemma ChainPrefix(data: Segment, list: seq<Descriptor>, last: nat, i: nat)
    requires Chain(data, list, last) && i < |list|
    ensures Chain(data, list[..i + 1], list[i].offset)
  {
  }

  /** A chase that succeeds returns a chain, of unvisited descriptors. */
  lemma {:induction false} ChaseIsChain(data: Segment, off: nat, visited: set<nat>)
    requires off < |data| && Chase(data, off, visited).Ok?
    ensures Chain(data, Chase(data, off, visited).value, off)
    decreases Unvisited(|data|, visited)
  {
    if off !in visited && off + DESCRIPTOR_LEN <= |data| {
      var prev := DescriptorAt(data, off).previousOffset;
      if 0 < prev < |data| {
        assert off in Unvisited(|data|, visited) && off !in Unvisited(|data|, visited + {off});
        ChaseIsChain(data, prev, visited + {off});
      }
    }
  }

  /** Where there is a chain that avoids the visited offsets, the chase succeeds. */
  lemma {:induction false} ChaseFinds(data: Segment, list: seq<Descriptor>, off: nat, visited: set<nat>)
    requires off < |data| && Chain(data, list, off) && Unseen(list, visited)
    ensures Chase(data, off, visited).Ok?
    decreases |list|
  {
    var n := |list| - 1;
    assert list[n].offset !in visited;
    if n > 0 {
      ChainDistinct(data, list, off);
      ChainFront(data, list, off);
      assert list[n - 1].offset + DESCRIPTOR_LEN <= |data|;
      forall k | 0 <= k < n
        ensures list[..n][k].offset !in visited + {off}
      {
        assert list[k].offset != list[n].offset;
      }
      ChaseFinds(data, list[..n], list[n].previousOffset, visited + {off});
    }
  }

  /** The walk succeeds exactly when the links lead from the end of the segment to a first section, and
      then returns that list: it ends 64 bytes before the end, starts without a predecessor, is linked
      pairwise, and names no descriptor twice. */
  lemma CollectedIff(data: Segment)
    requires |data| >= DESCRIPTOR_LEN
    ensures Collected(data).Ok? <==> HasChain(data, |data| - DESCRIPTOR_LEN)
    ensures Collected(data).Ok? ==>
            Chain(data, Collected(data).value, |data| - DESCRIPTOR_LEN) && NoneTwice(Collected(data).value)
  {
    hide Chase, Chain, NoneTwice, DescriptorAt;
    var last := |data| - DESCRIPTOR_LEN;
    if Collected(data).Ok? {
      ChaseIsChain(data, last, {});
      ChainDistinct(data, Collected(data).value, last);
    }
    if HasChain(data, last) {
      var list :| Chain(data, list, last);
      NoneVisited(list);
      ChaseFinds(data, list, last, {});
    }
  }

  ghost predicate Unseen(list: seq<Descriptor>, visited: set<nat>) {
    forall k :: 0 <= k < |list| ==> list[k].offset !in visited
  }

  lemma NoneVisited(list: seq<Descriptor>)
    ensures Unseen(list, {})
  {
  }

  // ----- Why it fails -----

  /** The link of the descriptor at `off` leads to `next`, inside the segment. */
  predicate Links(data: Segment, off: nat, next: nat) {
    && off + DESCRIPTOR_LEN <= |data| && 0 < next < |data|
    && DescriptorAt(data, off).previousOffset == next
  }

  /** A way the links can be followed, through different offsets that were not visited before. */
  ghost predicate Path(data: Segment, path: seq<nat>, visited: set<nat>) {
    && path != []
    && (forall k :: 0 <= k < |path| ==> path[k] < |data| && path[k] !in visited)
    && (forall k :: 0 <= k < |path| - 1 ==> Links(data, path[k], path[k + 1]))
    && (forall j, k :: 0 <= j < k < |path| ==> path[j] != path[k])
  }

  /** It ends at a place where no whole descriptor is, or one that links beyond the segment, or back to an offset
      that was visited. */
  ghost predicate StuckAt(data: Segment, path: seq<nat>, visited: set<nat>, e: Error)
    requires path != []
  {
    var end := path[|path| - 1];
    match e
    case UnexpectedEof => end + DESCRIPTOR_LEN > |data|
    case PreviousBeyondFile =>
      end + DESCRIPTOR_LEN <= |data| && DescriptorAt(data, end).previousOffset >= |data|
    case CyclicDescriptors =>
      exists next: nat :: Links(data, end, next) && (next in path || next in visited)
    case _ => false
  }

  ghost predicate Fails(data: Segment, off: nat, visited: set<nat>, e: Error) {
    exists path :: Path(data, path, visited) && path[0] == off && StuckAt(data, path, visited, e)
  }

  lemma FailsHere(data: Segment, off: nat, visited: set<nat>, e: Error)
    requires off < |data| && off !in visited && StuckAt(data, [off], visited, e)
    ensures Fails(data, off, visited, e)
  {
    hide DescriptorAt;
    assert Path(data, [off], visited);
  }

  lemma FailsThrough(data: Segment, off: nat, next: nat, visited: set<nat>, e: Error)
    requires off < |data| && off !in visited && Links(data, off, next)
    requires Fails(data, next, visited + {off}, e)
    ensures Fails(data, off, visited, e)
  {
    hide DescriptorAt, Links;
    var path :| Path(data, path, visited + {off}) && path[0] == next && StuckAt(data, path, visited + {off}, e);
    var longer := [off] + path;
    assert Path(data, longer, visited);
    assert longer[|longer| - 1] == path[|path| - 1];
    assert longer[0] == off && forall k :: 0 <= k < |path| ==> longer[k + 1] == path[k];
    assert StuckAt(data, longer, visited, e);
  }

  /** A chase that fails is stuck. */
  lemma {:induction false} ChaseFails(data: Segment, off: nat, visited: set<nat>)
    requires off < |data| && off !in visited && Chase(data, off, visited).Err?
    ensures Fails(data, off, visited, Chase(data, off, visited).error)
    decreases Unvisited(|data|, visited)
  {
    hide Fails, Path;
    var e := Chase(data, off, visited).error;
    if off + DESCRIPTOR_LEN > |data| {
      FailsHere(data, off, visited, e);
    } else {
      var prev := DescriptorAt(data, off).previousOffset;
      if prev >= |data| {
        FailsHere(data, off, visited, e);
      } else if prev in visited + {off} {
        assert Links(data, off, prev);
        FailsHere(data, off, visited, e);
      } else {
        assert off in Unvisited(|data|, visited) && off !in Unvisited(|data|, visited + {off});
        ChaseFails(data, prev, visited + {off});
        FailsThrough(data, off, prev, visited, e);
      }
    }
  }

  lemma PathRest(data: Segment, path: seq<nat>, visited: set<nat>)
    requires Path(data, path, visited) && |path| > 1
    ensures Path(data, path[1..], visited + {path[0]})
  {
    hide Links;
    var rest := path[1..];
    forall k | 0 <= k < |rest| - 1
      ensures Links(data, rest[k], rest[k + 1])
    {
      var j := k + 1;
      assert Links(data, path[j], path[j + 1]);
    }
  }

  /** A chase that is stuck fails for that reason. */
  lemma {:induction false} StuckFails(data: Segment, path: seq<nat>, visited: set<nat>, e: Error)
    requires Path(data, path, visited) && StuckAt(data, path, visited, e)
    ensures Chase(data, path[0], visited) == Err(e)
    decreases |path|
  {
    hide DescriptorAt;
    var off := path[0];
    if |path| > 1 {
      assert Links(data, off, path[1]);
      var rest := path[1..];
      assert path == [off] + rest && rest[|rest| - 1] == path[|path| - 1];
      PathRest(data, path, visited);
      StuckFails(data, rest, visited + {off}, e);
    }
  }

  /** The walk fails exactly when following the links from the last descriptor, through different offsets, gets
      stuck; and how it gets stuck is the error. */
  lemma CollectFailsIff(data: Segment, e: Error)
    ensures Collected(data) == Err(e) <==> |data| >= DESCRIPTOR_LEN && Fails(data, |data| - DESCRIPTOR_LEN, {}, e)
    ensures |data| < DESCRIPTOR_LEN ==> Collected(data) == Ok([])
  {
    hide DescriptorAt, Links, Chase;
    if |data| >= DESCRIPTOR_LEN {
      var off := |data| - DESCRIPTOR_LEN;
      if Collected(data) == Err(e) {
        ChaseFails(data, off, {});
      }
      if Fails(data, off, {}, e) {
        var path :| Path(data, path, {}) && path[0] == off && StuckAt(data, path, {}, e);
        StuckFails(data, path, {}, e);
      }
    }
  }

  // ----- The analyser's walk -----

  /** The offsets the analyser visits from `off` on, which only ever decrease. */
  function BackWalk(data: Segment, off: nat): seq<nat>
    decreases off
  {
    if off + DESCRIPTOR_LEN > |data| || off < HEADER_LEN then []
    else
      var prev := DescriptorAt(data, off).previousOffset;
      [off] + if prev == 0 || prev >= off then [] else BackWalk(data, prev)
  }

  function TableBody(d: Descriptor): (nat, nat) {
    (SatSub(d.offset, d.dataSize), d.offset)
  }

  /** The body of the last unencrypted chunk table among the visited descriptors. */
  function ChosenTable(data: Segment, visited: seq<nat>): Option<(nat, nat)>
    requires forall k :: 0 <= k < |visited| ==> visited[k] + DESCRIPTOR_LEN <= |data|
  {
    if visited == [] then None
    else
      var d := DescriptorAt(data, visited[|visited| - 1]);
      if !d.Encrypted() && d.sectionType == CHUNK_TABLE then Some(TableBody(d))
      else ChosenTable(data, visited[..|visited| - 1])
  }

  lemma NoTable(data: Segment)
    ensures ChosenTable(data, []) == None
  {
  }

  lemma ChosenPush(data: Segment, visited: seq<nat>, off: nat)
    requires off + DESCRIPTOR_LEN <= |data| && forall k :: 0 <= k < |visited| ==> visited[k] + DESCRIPTOR_LEN <= |data|
    ensures var d := DescriptorAt(data, off);
            ChosenTable(data, visited + [off]) ==
            if !d.Encrypted() && d.sectionType == CHUNK_TABLE then Some(TableBody(d)) else ChosenTable(data, visited)
  {
    hide DescriptorAt, Descriptor.Encrypted;
    assert (visited + [off])[..|visited|] == visited;
  }

  lemma BackStep(data: Segment, visited: seq<nat>, off: nat)
    requires HEADER_LEN <= off && off + DESCRIPTOR_LEN <= |data|
    ensures var prev := DescriptorAt(data, off).previousOffset;
            visited + BackWalk(data, off) == visited + [off] + if 0 < prev < off then BackWalk(data, prev) else []
  {
    hide DescriptorAt;
    var prev := DescriptorAt(data, off).previousOffset;
    ConcatAssoc(visited, [off], if 0 < prev < off then BackWalk(data, prev) else []);
  }

  /** Is the descriptor at `off` an unencrypted chunk table? */
  predicate IsTable(data: Segment, off: nat)
    requires off + DESCRIPTOR_LEN <= |data|
  {
    var d := DescriptorAt(data, off);
    d.sectionType == 4 && !d.Encrypted()
  }

  /** The chosen table is the body in front of the last visited descriptor that is one: as many bytes as the
      descriptor says, as far as there are so many. */
  lemma {:induction false} ChosenIff(data: Segment, visited: seq<nat>, body: (nat, nat))
    requires forall k :: 0 <= k < |visited| ==> visited[k] + DESCRIPTOR_LEN <= |data|
    ensures ChosenTable(data, visited) == Some(body) <==>
            exists k :: 0 <= k < |visited| && IsTable(data, visited[k])
              && (forall j :: k < j < |visited| ==> !IsTable(data, visited[j]))
              && body.1 == visited[k]
              && body.0 == SatSub(visited[k], DescriptorAt(data, visited[k]).dataSize)
  {
    hide DescriptorAt, Descriptor.Encrypted;
    if visited != [] {
      var n := |visited| - 1;
      ChosenIff(data, visited[..n], body);
      assert forall k :: 0 <= k < n ==> visited[..n][k] == visited[k];
    }
  }

  method AnalyserWalk(data: Segment) returns (visited: seq<nat>, table: Option<(nat, nat)>)
    ensures visited == BackWalk(data, SatSub(|data|, DESCRIPTOR_LEN))
    ensures forall k :: 0 <= k < |visited| ==> visited[k] + DESCRIPTOR_LEN <= |data|
    ensures table == ChosenTable(data, visited)
  {
    hide DescriptorAt, Descriptor.Encrypted, ChosenTable;
    var offset: nat := SatSub(|data|, DESCRIPTOR_LEN);
    visited, table := [], None;
    NoTable(data);
    ghost var goal := BackWalk(data, offset);
    while true
      invariant forall k :: 0 <= k < |visited| ==> visited[k] + DESCRIPTOR_LEN <= |data|
      invariant goal == visited + BackWalk(data, offset)
      invariant table == ChosenTable(data, visited)
      decreases offset
    {
      if SatAdd(offset, DESCRIPTOR_LEN) > |data| || offset < HEADER_LEN {
        break;
      }
      var d := DescriptorAt(data, offset);
      if !d.Encrypted() && d.sectionType == CHUNK_TABLE {
        table := Some((SatSub(offset, d.dataSize), offset));
      }
      BackStep(data, visited, offset);
      ChosenPush(data, visited, offset);
      visited := visited + [offset];
      if d.previousOffset == 0 || d.previousOffset >= offset {
        break;
      }
      offset := d.previousOffset;
    }
  }

  // ----- When the two walks agree -----

  /** `offsets` are those of `list`, the other way round. */
  ghost predicate Mirrors(offsets: seq<nat>, list: seq<Descriptor>) {
    |offsets| == |list| && forall k :: 0 <= k < |list| ==> offsets[|list| - 1 - k] == list[k].offset
  }

  /** The descriptors lie one after the other behind the file header. */
  ghost predicate Forward(list: seq<Descriptor>) {
    && (forall i, j :: 0 <= i < j < |list| ==> list[i].offset < list[j].offset)
    && forall k :: 0 <= k < |list| ==> list[k].offset >= HEADER_LEN
  }

  ghost predicate Descends(w: seq<nat>, top: nat) {
    && (forall k :: 0 <= k < |w| ==> HEADER_LEN <= w[k] <= top)
    && forall i, j :: 0 <= i < j < |w| ==> w[i] > w[j]
  }

  /** The analyser's offsets strictly decrease and stay behind the file header. */
  lemma {:induction false} BackWalkDescends(data: Segment, off: nat)
    ensures Descends(BackWalk(data, off), off)
    decreases off
  {
    hide DescriptorAt;
    if off + DESCRIPTOR_LEN <= |data| && off >= HEADER_LEN {
      var prev := DescriptorAt(data, off).previousOffset;
      if 0 < prev < off {
        BackWalkDescends(data, prev);
        DescendsNext(BackWalk(data, prev), prev, off);
      }
    }
  }

  lemma DescendsNext(w: seq<nat>, prev: nat, off: nat)
    requires Descends(w, prev) && prev < off && HEADER_LEN <= off
    ensures Descends([off] + w, off)
  {
  }

  /** On a chain that runs forward through the file the analyser visits exactly its descriptors, backwards. */
  lemma {:induction false} BackWalkFollows(data: Segment, list: seq<Descriptor>, last: nat)
    requires Chain(data, list, last) && Forward(list)
    ensures Mirrors(BackWalk(data, last), list)
    decreases |list|
  {
    hide DescriptorAt;
    var n := |list| - 1;
    assert list[n] == DescriptorAt(data, last);
    if n > 0 {
      var prev := list[n].previousOffset;
      ChainFront(data, list, last);
      assert list[n - 1].offset == prev < last && prev != 0;
      BackWalkFollows(data, list[..n], prev);
      MirrorsNext(BackWalk(data, prev), list);
    }
  }

  lemma MirrorsNext(w: seq<nat>, list: seq<Descriptor>)
    requires list != [] && Mirrors(w, list[..|list| - 1])
    ensures Mirrors([list[|list| - 1].offset] + w, list)
  {
    var n := |list| - 1;
    var all := [list[n].offset] + w;
    forall k | 0 <= k < n
      ensures all[n - k] == list[k].offset
    {
      assert all[n - k] == w[n - 1 - k] && list[..n][k] == list[k];
    }
  }

  /** Where there is a list for the reader to collect, the analyser visits the same descriptors in the
      opposite order if and only if they lie in increasing order behind the file header. */
  lemma WalksAgreeIff(data: Segment, list: seq<Descriptor>, last: nat)
    requires Chain(data, list, last)
    ensures Mirrors(BackWalk(data, last), list) <==> Forward(list)
  {
    hide BackWalk, Chain, Mirrors, Forward, Descends;
    var w := BackWalk(data, last);
    BackWalkDescends(data, last);
    if Mirrors(w, list) {
      MirrorIsForward(w, list, last);
    }
    if Forward(list) {
      BackWalkFollows(data, list, last);
    }
  }

  lemma MirrorIsForward(w: seq<nat>, list: seq<Descriptor>, top: nat)
    requires Mirrors(w, list) && Descends(w, top)
    ensures Forward(list)
  {
    forall i, j | 0 <= i < j < |list|
      ensures list[i].offset < list[j].offset
    {
      assert w[|list| - 1 - j] > w[|list| - 1 - i];
    }
  }
}
