/** What every parsed entry tree looks like, however damaged the text it came from. */
module LtreeShape {
  import opened Bytes
  import opened Text
  import opened Ltree

  /** The parent of entry `c`, if any, comes before it and has it among its children. */
  ghost predicate ParentLinked(entries: seq<Entry>, c: nat)
    requires c < |entries|
  {
    entries[c].parent.Some? ==> var p := entries[c].parent.value; p < c && c in entries[p].children
  }

  /** The children of entry `p` are listed once each, in order, and have it for parent. */
  ghost predicate ChildrenLinked(entries: seq<Entry>, p: nat)
    requires p < |entries|
  {
    && Increasing(entries[p].children)
    && forall c :: c in entries[p].children ==> c < |entries| && entries[c].parent == Some(p)
  }

  /** Parents come before their children, and the two directions of every link agree. */
  ghost predicate Linked(entries: seq<Entry>) {
    && (forall c :: 0 <= c < |entries| ==> ParentLinked(entries, c))
    && (forall p :: 0 <= p < |entries| ==> ChildrenLinked(entries, p))
  }

  /** Pushing one entry keeps the links right. */
  lemma PushKeepsLinks(entries: seq<Entry>, parent: Option<nat>, e: Entry)
    requires Linked(entries) && (parent.Some? ==> parent.value < |entries|)
    requires e.parent == parent && e.children == []
    ensures Linked(Adopt(entries, parent, [|entries|]) + [e])
  {
    var n := |entries|;
    var after := Adopt(entries, parent, [n]) + [e];
    assert after[n] == e;
    forall p | 0 <= p < n
      ensures ChildrenLinked(after, p) && ParentLinked(after, p)
    {
      PushKeepsOne(entries, parent, after, p);
    }
  }

  lemma PushKeepsOne(entries: seq<Entry>, parent: Option<nat>, after: seq<Entry>, p: nat)
    requires Linked(entries) && p < |entries| < |after|
    requires forall k :: 0 <= k < |entries| ==> after[k].parent == entries[k].parent
    requires after[|entries|].parent == parent
    requires forall k :: 0 <= k < |entries| ==>
      after[k].children == if parent == Some(k) then entries[k].children + [|entries|] else entries[k].children
    ensures ChildrenLinked(after, p) && ParentLinked(after, p)
  {
    hide Increasing;
    assert ChildrenLinked(entries, p) && ParentLinked(entries, p);
    AppendIncreasing(entries[p].children, |entries|);
  }

  /** Whatever the text declares: the links stay right, the cursor moves forward and stays in the text,
      and every entry used up two lines of its own. */
  lemma {:induction false} OneEntryShape(lines: seq<string>, i: nat, parent: Option<nat>, indicators: seq<string>,
                                         a: Arena)
    requires Linked(a.entries) && (parent.Some? ==> parent.value < |a.entries|)
    ensures var r := OneEntry(lines, i, parent, indicators, a);
            && Linked(r.arena.entries)
            && i <= r.at && (i <= |lines| ==> r.at <= |lines|)
            && 2 * (|r.arena.entries| - |a.entries|) <= r.at - i
    decreases SatSub(|lines|, i), 0
  {
    hide Linked, EntryOf, WarningsOf, RawOf, SubCount, Adopt;
    if i + 1 < |lines| {
      var values := Split(lines[i + 1], '\t');
      var pushed := Push(a, i, parent, indicators, values);
      PushKeepsLinks(a.entries, parent, EntryWith(indicators, values, parent));
      SubEntriesShape(lines, i + 2, SubCount(lines[i]), Some(|a.entries|), indicators, pushed);
    }
  }

  /** The entry of a row, not yet linked to any child. */
  function EntryWith(indicators: seq<string>, values: seq<string>, parent: Option<nat>): (e: Entry)
    ensures e.parent == parent && e.children == []
  {
    EntryOf(RawOf(indicators, values), parent)
  }

  lemma {:induction false} SubEntriesShape(lines: seq<string>, i: nat, n: nat, parent: Option<nat>,
                                           indicators: seq<string>,
                                           a: Arena)
    requires Linked(a.entries) && (parent.Some? ==> parent.value < |a.entries|)
    ensures var r := SubEntries(lines, i, n, parent, indicators, a);
            && Linked(r.arena.entries)
            && i <= r.at && (i <= |lines| ==> r.at <= |lines|)
            && 2 * (|r.arena.entries| - |a.entries|) <= r.at - i
    decreases SatSub(|lines|, i), n + 1
  {
    hide Linked;
    if n > 0 {
      OneEntryShape(lines, i, parent, indicators, a);
      var first := OneEntry(lines, i, parent, indicators, a);
      SubEntriesShape(lines, first.at, n - 1, parent, indicators, first.arena);
    }
  }

  /** Every text that parses at all gives a well-linked tree of at most half as many entries as lines. */
  lemma TreeShape(text: string)
    requires TreeOf(text).Parsed?
    ensures var entries := TreeOf(text).value.arena.entries;
            Linked(entries) && 2 * |entries| <= |LinesOf(text)|
  {
    hide CountOf, LinesOf, Split;
    var lines := LinesOf(text);
    var start := Position(lines, "entry").value + 5;
    var count, indicators := RootCountOf(lines, start - 5).value, IndicatorsOf(lines, start - 5).value;
    assert Linked([]);
    SubEntriesShape(lines, start, count, None, indicators, Arena([], []));
    if start > |lines| {
      PastTheEnd(lines, start, count, indicators);
    }
  }

  lemma {:induction false} PastTheEnd(lines: seq<string>, i: nat, n: nat, indicators: seq<string>)
    requires i >= |lines|
    ensures SubEntries(lines, i, n, None, indicators, Arena([], [])) == Cursor(i, Arena([], []))
    decreases n
  {
    if n > 0 {
      PastTheEnd(lines, i, n - 1, indicators);
    }
  }

  // ----- Paths -----

  /** The non-empty names from the root down to entry `i`. */
  ghost function NamesTo(entries: seq<Entry>, i: nat): seq<string>
    requires Linked(entries) && i < |entries|
    decreases i
  {
    assert ParentLinked(entries, i);
    var e := entries[i];
    var above := if e.parent.Some? then NamesTo(entries, e.parent.value) else [];
    if e.name == "" then above else above + [e.name]
  }

  /** The path of an entry: climb to the root, then join the names the other way round. The climb ends
      because parents come before children. */
  method FullPath(entries: seq<Entry>, i: nat) returns (path: string)
    requires Linked(entries) && i < |entries|
    ensures path == Join(NamesTo(entries, i), '/')
  {
    hide Increasing, Join, ChildrenLinked;
    var parts: seq<string> := [];
    var cur: Option<nat> := Some(i);
    while cur.Some?
      invariant cur.Some? ==> cur.value <= i
      invariant NamesTo(entries, i) ==
        if cur.Some? then NamesTo(entries, cur.value) + Reversed(parts) else Reversed(parts)
      decreases if cur.Some? then cur.value + 1 else 0
    {
      assert ParentLinked(entries, cur.value);
      var e := entries[cur.value];
      if e.name != "" {
        ReversedPush(parts, e.name);
        parts := parts + [e.name];
      }
      cur := e.parent;
    }
    parts := Reversed(parts);
    path := Join(parts, '/');
  }

  /** The entries from a root down to `i`, each a child of the one before. */
  ghost predicate Lineage(entries: seq<Entry>, chain: seq<nat>, i: nat) {
    && chain != [] && chain[|chain| - 1] == i
    && (forall k :: 0 <= k < |chain| ==> chain[k] < |entries|)
    && entries[chain[0]].parent == None
    && forall k :: 0 < k < |chain| ==> entries[chain[k]].parent == Some(chain[k - 1])
  }

  /** The non-empty names along a list of entries. */
  function NamesAlong(entries: seq<Entry>, chain: seq<nat>): seq<string>
    requires forall k :: 0 <= k < |chain| ==> chain[k] < |entries|
  {
    if chain == [] then []
    else
      var name := entries[chain[0]].name;
      (if name == "" then [] else [name]) + NamesAlong(entries, chain[1..])
  }

  lemma {:induction false} NamesAppend(entries: seq<Entry>, chain: seq<nat>, i: nat)
    requires i < |entries| && forall k :: 0 <= k < |chain| ==> chain[k] < |entries|
    ensures forall k :: 0 <= k < |chain| + 1 ==> (chain + [i])[k] < |entries|
    ensures NamesAlong(entries, chain + [i]) ==
            NamesAlong(entries, chain) + if entries[i].name == "" then [] else [entries[i].name]
  {
    if chain == [] {
      assert (chain + [i])[1..] == [];
    } else {
      assert (chain + [i])[1..] == chain[1..] + [i];
      NamesAppend(entries, chain[1..], i);
    }
  }

  /** The names of a path are those along the entry's lineage. */
  lemma {:induction false} PathIsLineage(entries: seq<Entry>, chain: seq<nat>, i: nat)
    requires Linked(entries) && i < |entries| && Lineage(entries, chain, i)
    ensures NamesTo(entries, i) == NamesAlong(entries, chain)
    decreases |chain|
  {
    hide Linked;
    var n := |chain| - 1;
    assert chain == chain[..n] + [i];
    NamesAppend(entries, chain[..n], i);
    if n > 0 {
      PathIsLineage(entries, chain[..n], chain[n - 1]);
    }
  }

  // ----- Malformed texts -----

  /** A text is malformed for one of three reasons: no line is the name of the category; or the first that is, is not
      followed by an indicator row; or that by a line whose second column is a number. */
  lemma MalformedIff(text: string, n: nat)
    ensures TreeOf(text) == Malformed(NoEntryCategory) <==> "entry" !in LinesOf(text)
    ensures n < |LinesOf(text)| && LinesOf(text)[n] == "entry" && "entry" !in LinesOf(text)[..n] ==>
      var lines := LinesOf(text);
      && (TreeOf(text) == Malformed(NoIndicators) <==> n + 2 >= |lines|)
      && (TreeOf(text) == Malformed(BadRootCount) <==>
           n + 2 < |lines| && (n + 3 < |lines| ==>
             |Split(lines[n + 3], '\t')| < 2 || ParseU64(Trim(Split(lines[n + 3], '\t')[1])).None?))
  {
    hide LinesOf, Split, ParseU64, Trim, SubEntries;
    var lines := LinesOf(text);
    var p := Position(lines, "entry");
    if n < |lines| && lines[n] == "entry" && "entry" !in lines[..n] {
      assert lines[n] in lines;
      FirstIsFirst(lines, "entry", n, p.value);
    }
  }

  lemma FirstIsFirst(lines: seq<string>, name: string, m: nat, n: nat)
    requires m < |lines| && lines[m] == name && name !in lines[..m]
    requires n < |lines| && lines[n] == name && name !in lines[..n]
    ensures m == n
  {
  }

  /** An entry whose count is not a number has no sub-entries. */
  lemma LeafWithoutCount(lines: seq<string>, i: nat, parent: Option<nat>, indicators: seq<string>, a: Arena)
    requires i + 1 < |lines| && (parent.Some? ==> parent.value < |a.entries|) && CountOf(lines[i]).None?
    ensures OneEntry(lines, i, parent, indicators, a) ==
            Cursor(i + 2, Push(a, i, parent, indicators, Split(lines[i + 1], '\t')))
  {
    hide Push, Split, CountOf;
  }
}
