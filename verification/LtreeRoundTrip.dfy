/** Printing an entry forest in the documented two-lines-per-entry form and parsing it back. */
module LtreeRoundTrip {
  import opened Bytes
  import opened Text
  import opened Ltree
  import opened LtreeShape

  datatype Node = Node(values: seq<string>, kids: seq<Node>)

  // ----- Printing -----

  function Size(forest: seq<Node>): nat {
    if forest == [] then 0 else 1 + Size(forest[0].kids) + Size(forest[1..])
  }

  function CountsLine(first: string, count: nat): string {
    first + ['\t'] + Decimal(count)
  }

  /** Preorder, each entry as a line of counts and a line of values. */
  function Print(forest: seq<Node>): (lines: seq<string>)
    ensures |lines| == 2 * Size(forest)
  {
    if forest == [] then []
    else
      var node := forest[0];
      [CountsLine("0", |node.kids|), Join(node.values, '\t')] + Print(node.kids) + Print(forest[1..])
  }

  function Blank(n: nat): seq<string> {
    seq(n, _ => "")
  }

  /** The whole `entry` category, behind the lines of other categories; `declared` is the sub-count of its root. */
  function PrintTree(before: seq<string>, indicators: seq<string>, declared: U64, forest: seq<Node>): string {
    Unlines(before + Head(indicators, declared) + Print(forest))
  }

  /** Lines of which none is the name of the category. */
  ghost predicate OtherLines(before: seq<string>) {
    forall k :: 0 <= k < |before| ==> '\n' !in before[k] && TrimCr(before[k]) != "entry"
  }

  function Head(indicators: seq<string>, declared: U64): seq<string> {
    ["entry", Decimal(declared) + "\t1", Join(indicators, '\t'), CountsLine("26", declared),
     Join(Blank(|indicators|), '\t')]
  }

  /** A row that survives being written as one line and split again. */
  ghost predicate Printable(row: seq<string>) {
    && row != []
    && (forall v :: v in row ==> '\t' !in v && '\n' !in v)
    && TrimCr(Join(row, '\t')) == Join(row, '\t')
  }

  ghost predicate PrintableForest(forest: seq<Node>) {
    forest != [] ==>
      && Printable(forest[0].values) && |forest[0].kids| < U64_LIMIT
      && PrintableForest(forest[0].kids) && PrintableForest(forest[1..])
  }

  // ----- The arena it stands for -----

  /** The preorder numbers of the trees of a forest whose first is `base`. */
  function ChildIds(forest: seq<Node>, base: nat): seq<nat> {
    if forest == [] then []
    else [base] + ChildIds(forest[1..], base + 1 + Size(forest[0].kids))
  }

  /** The forest's entries in preorder, numbered from `base`. */
  function Entries(indicators: seq<string>, forest: seq<Node>, parent: Option<nat>, base: nat): (entries: seq<Entry>)
    ensures |entries| == Size(forest)
    decreases forest
  {
    if forest == [] then []
    else
      var node := forest[0];
      [EntryWith(indicators, node.values, parent).(children := ChildIds(node.kids, base + 1))]
      + Entries(indicators, node.kids, Some(base), base + 1)
      + Entries(indicators, forest[1..], parent, base + 1 + Size(node.kids))
  }

  function Warnings(indicators: seq<string>, forest: seq<Node>, line: nat): seq<Warning>
    decreases forest
  {
    if forest == [] then []
    else
      var node := forest[0];
      WarningsOf(line, indicators, node.values) + Warnings(indicators, node.kids, line + 2)
      + Warnings(indicators, forest[1..], line + 2 + 2 * Size(node.kids))
  }

  /** The arena once the forest has been read in. */
  function Grown(a: Arena, line: nat, parent: Option<nat>, indicators: seq<string>, forest: seq<Node>): Arena
    requires parent.Some? ==> parent.value < |a.entries|
  {
    Arena(Adopt(a.entries, parent, ChildIds(forest, |a.entries|)) + Entries(indicators, forest, parent, |a.entries|),
          a.warnings + Warnings(indicators, forest, line))
  }

  // ----- Parsing what was printed -----

  lemma CountsLineParses(first: string, count: U64)
    requires '\t' !in first && '\n' !in first
    ensures CountOf(CountsLine(first, count)) == Some(count)
    ensures SubCount(CountsLine(first, count)) == count && '\n' !in CountsLine(first, count)
  {
    hide ParseU64, Decimal, Trim, Split;
    ParseDecimal(count);
    SplitFront(first, Decimal(count), '\t');
    SplitPart(Decimal(count), '\t');
  }

  /** Reading one node and its kids. */
  lemma GrowKids(a: Arena, line: nat, parent: Option<nat>, indicators: seq<string>, node: Node)
    requires parent.Some? ==> parent.value < |a.entries|
    ensures Grown(Push(a, line, parent, indicators, node.values), line + 2, Some(|a.entries|), indicators, node.kids) ==
            Grown(a, line, parent, indicators, [node])
  {
    hide EntryOf, WarningsOf, RawOf, Size, ChildIds, Entries, Warnings;
    var n := |a.entries|;
    var e := EntryWith(indicators, node.values, parent);
    var ids, kids := ChildIds(node.kids, n + 1), Entries(indicators, node.kids, Some(n), n + 1);
    var pushed := Push(a, line, parent, indicators, node.values);
    OneTree(indicators, node, parent, n, line);
    AdoptLast(Adopt(a.entries, parent, [n]), e, ids);
    ConcatAssoc(Adopt(a.entries, parent, [n]), [e.(children := ids)], kids);
    ConcatAssoc(a.warnings, WarningsOf(line, indicators, node.values), Warnings(indicators, node.kids, line + 2));
  }

  lemma AdoptLast(entries: seq<Entry>, e: Entry, ids: seq<nat>)
    requires e.children == []
    ensures Adopt(entries + [e], Some(|entries|), ids) == entries + [e.(children := ids)]
  {
    assert [] + ids == ids;
  }

  lemma OneTree(indicators: seq<string>, node: Node, parent: Option<nat>, base: nat, line: nat)
    ensures ChildIds([node], base) == [base]
    ensures Entries(indicators, [node], parent, base) ==
            [EntryWith(indicators, node.values, parent).(children := ChildIds(node.kids, base + 1))]
            + Entries(indicators, node.kids, Some(base), base + 1)
    ensures Warnings(indicators, [node], line) ==
            WarningsOf(line, indicators, node.values) + Warnings(indicators, node.kids, line + 2)
  {
    hide EntryWith, WarningsOf, Size;
    var none: seq<Node> := [node][1..];
    assert none == [];
    assert Entries(indicators, none, parent, base + 1 + Size(node.kids)) == [];
    assert Warnings(indicators, none, line + 2 + 2 * Size(node.kids)) == [];
    assert ChildIds(none, base + 1 + Size(node.kids)) == [];
  }

  /** A forest is its first tree and then the others, in every respect that matters here. */
  lemma FirstAndRest(forest: seq<Node>, base: nat)
    requires forest != []
    ensures var first, rest := [forest[0]], forest[1..];
            && Size(first) == 1 + Size(forest[0].kids) && Size(forest) == Size(first) + Size(rest)
            && ChildIds(first, base) == [base] && ChildIds(forest, base) == [base] + ChildIds(rest, base + Size(first))
  {
    var first := [forest[0]];
    assert first[1..] == [];
    assert ChildIds(first[1..], base + 1 + Size(forest[0].kids)) == [];
  }

  lemma FirstEntries(indicators: seq<string>, forest: seq<Node>, parent: Option<nat>, base: nat)
    requires forest != []
    ensures var first, rest := [forest[0]], forest[1..];
            Entries(indicators, forest, parent, base) ==
            Entries(indicators, first, parent, base)
              + Entries(indicators, rest, parent, base + 1 + Size(forest[0].kids))
  {
    hide EntryWith, Size, ChildIds, Warnings;
    OneTree(indicators, forest[0], parent, base, 0);
  }

  lemma FirstWarnings(indicators: seq<string>, forest: seq<Node>, line: nat)
    requires forest != []
    ensures var first, rest := [forest[0]], forest[1..];
            Warnings(indicators, forest, line) ==
            Warnings(indicators, first, line) + Warnings(indicators, rest, line + 2 + 2 * Size(forest[0].kids))
  {
    hide WarningsOf, Size, Entries, ChildIds;
    OneTree(indicators, forest[0], None, 0, line);
  }

  /** Reading the first tree and then the others is reading the forest. */
  lemma GrowRest(a: Arena, line: nat, parent: Option<nat>, indicators: seq<string>, forest: seq<Node>)
    requires forest != [] && (parent.Some? ==> parent.value < |a.entries|)
    ensures Size([forest[0]]) == 1 + Size(forest[0].kids)
    ensures var first := Grown(a, line, parent, indicators, [forest[0]]);
            Grown(first, line + 2 * Size([forest[0]]), parent, indicators, forest[1..]) ==
            Grown(a, line, parent, indicators, forest)
  {
    hide Adopt, Entries, Warnings, ChildIds, Size;
    var n, first, rest := |a.entries|, [forest[0]], forest[1..];
    FirstAndRest(forest, n);
    FirstEntries(indicators, forest, parent, n);
    FirstWarnings(indicators, forest, line);
    var m := n + Size(first);
    var x, y := Entries(indicators, first, parent, n), Entries(indicators, rest, parent, m);
    AdoptTwice(a.entries, parent, ChildIds(first, n), ChildIds(rest, m), x);
    ConcatAssoc(Adopt(a.entries, parent, ChildIds(forest, n)), x, y);
    ConcatAssoc(a.warnings, Warnings(indicators, first, line), Warnings(indicators, rest, line + 2 * Size(first)));
  }

  lemma AdoptTwice(entries: seq<Entry>, parent: Option<nat>, ids: seq<nat>, more: seq<nat>, tail: seq<Entry>)
    requires parent.Some? ==> parent.value < |entries|
    ensures Adopt(Adopt(entries, parent, ids) + tail, parent, more) == Adopt(entries, parent, ids + more) + tail
  {
    if parent.Some? {
      var c := entries[parent.value].children;
      assert c + ids + more == c + (ids + more);
    }
  }

  /** The parser, on the printed lines of a forest, grows the arena by that forest and nothing else. */
  lemma {:induction false} ParsePrinted(lines: seq<string>, i: nat, forest: seq<Node>, parent: Option<nat>,
                                        indicators: seq<string>, a: Arena)
    requires i + 2 * Size(forest) <= |lines| && lines[i..i + 2 * Size(forest)] == Print(forest)
    requires PrintableForest(forest) && (parent.Some? ==> parent.value < |a.entries|)
    ensures SubEntries(lines, i, |forest|, parent, indicators, a) ==
            Cursor(i + 2 * Size(forest), Grown(a, i, parent, indicators, forest))
    decreases forest
  {
    hide Push, Grown, SubCount, CountsLine, Split, Join, Printable, Print, SubEntries;
    if forest == [] {
      NoneOfMany(lines, i, parent, indicators, a);
      GrownNothing(a, i, parent, indicators);
    } else {
      var node, rest := forest[0], forest[1..];
      var mid := i + 2 + 2 * Size(node.kids);
      PrintedParts(lines, i, forest);
      FirstOfMany(lines, i, |forest|, parent, indicators, a);
      var pushed := Push(a, i, parent, indicators, node.values);
      ParsePrinted(lines, i + 2, node.kids, Some(|a.entries|), indicators, pushed);
      GrowKids(a, i, parent, indicators, node);
      GrowRest(a, i, parent, indicators, forest);
      ParsePrinted(lines, mid, rest, parent, indicators, Grown(a, i, parent, indicators, [node]));
    }
  }

  lemma FirstOfMany(lines: seq<string>, i: nat, n: nat, parent: Option<nat>, indicators: seq<string>, a: Arena)
    requires n > 0 && i + 1 < |lines| && (parent.Some? ==> parent.value < |a.entries|)
    ensures var pushed := Push(a, i, parent, indicators, Split(lines[i + 1], '\t'));
            var kids := SubEntries(lines, i + 2, SubCount(lines[i]), Some(|a.entries|), indicators, pushed);
            SubEntries(lines, i, n, parent, indicators, a) ==
              SubEntries(lines, kids.at, n - 1, parent, indicators, kids.arena)
  {
    hide Push, SubCount, Split;
  }

  lemma NoneOfMany(lines: seq<string>, i: nat, parent: Option<nat>, indicators: seq<string>, a: Arena)
    requires parent.Some? ==> parent.value < |a.entries|
    ensures SubEntries(lines, i, 0, parent, indicators, a) == Cursor(i, a)
  {
  }

  lemma GrownNothing(a: Arena, line: nat, parent: Option<nat>, indicators: seq<string>)
    requires parent.Some? ==> parent.value < |a.entries|
    ensures Grown(a, line, parent, indicators, []) == a
  {
    if parent.Some? {
      assert a.entries[parent.value].children + [] == a.entries[parent.value].children;
    }
    assert Adopt(a.entries, parent, []) == a.entries;
  }

  lemma PrintedParts(lines: seq<string>, i: nat, forest: seq<Node>)
    requires forest != [] && PrintableForest(forest)
    requires i + 2 * Size(forest) <= |lines| && lines[i..i + 2 * Size(forest)] == Print(forest)
    ensures var node, mid := forest[0], i + 2 + 2 * Size(forest[0].kids);
            && i + 1 < |lines| && SubCount(lines[i]) == |node.kids| && Split(lines[i + 1], '\t') == node.values
            && mid + 2 * Size(forest[1..]) == i + 2 * Size(forest)
            && lines[i + 2..mid] == Print(node.kids) && lines[mid..i + 2 * Size(forest)] == Print(forest[1..])
  {
    hide SubCount, Split, Printable, Print, Size, CountsLine, Join;
    RowParses(forest[0]);
    PrintedSlices(lines, i, forest, i + 2 + 2 * Size(forest[0].kids), i + 2 * Size(forest));
  }

  lemma PrintedSlices(lines: seq<string>, i: nat, forest: seq<Node>, mid: nat, end: nat)
    requires forest != [] && mid == i + 2 + 2 * Size(forest[0].kids) && end == i + 2 * Size(forest) <= |lines|
    requires lines[i..end] == Print(forest)
    ensures mid + 2 * Size(forest[1..]) == end && lines[i + 2..mid] == Print(forest[0].kids)
            && lines[mid..end] == Print(forest[1..])
    ensures lines[i] == CountsLine("0", |forest[0].kids|) && lines[i + 1] == Join(forest[0].values, '\t')
  {
    hide CountsLine, Join;
    var x, y, z := [CountsLine("0", |forest[0].kids|), Join(forest[0].values, '\t')], Print(forest[0].kids),
      Print(forest[1..]);
    assert lines[i..end] == x + y + z && |y| == 2 * Size(forest[0].kids) && |z| == 2 * Size(forest[1..]);
    hide Print, Size;
    ThreeParts(lines, i, x, y, z, mid, end);
  }

  lemma RowParses(node: Node)
    requires Printable(node.values) && |node.kids| < U64_LIMIT
    ensures SubCount(CountsLine("0", |node.kids|)) == |node.kids|
    ensures Split(Join(node.values, '\t'), '\t') == node.values
  {
    CountsLineParses("0", |node.kids|);
    SplitJoin(node.values, '\t');
  }

  lemma ThreeParts(lines: seq<string>, i: nat, x: seq<string>, y: seq<string>, z: seq<string>, mid: nat, end: nat)
    requires |x| == 2 && mid == i + 2 + |y| && end == mid + |z| <= |lines| && lines[i..end] == x + y + z
    ensures lines[i] == x[0] && lines[i + 1] == x[1] && lines[i + 2..mid] == y && lines[mid..end] == z
  {
    var all, b := lines[i..end], 2 + |y|;
    assert all[..2] == x && all[2..b] == y && all[b..end - i] == z;
    assert all[0] == lines[i] && all[1] == lines[i + 1];
    SliceOfSlice(lines, i, end, 2, b);
    SliceOfSlice(lines, i, end, b, end - i);
  }

  // ----- The whole text -----

  /** Iterations left over when the text has run out change nothing. */
  lemma {:induction false} NothingLeft(lines: seq<string>, i: nat, n: nat, indicators: seq<string>, a: Arena)
    requires i + 1 >= |lines|
    ensures SubEntries(lines, i, n, None, indicators, a).arena == a
    decreases n
  {
    if n > 0 {
      NothingLeft(lines, OneEntry(lines, i, None, indicators, a).at, n - 1, indicators, a);
    }
  }

  lemma {:induction false} SubEntriesSplit(lines: seq<string>, i: nat, n: nat, m: nat, indicators: seq<string>,
                                           a: Arena)
    ensures var r := SubEntries(lines, i, n, None, indicators, a);
            SubEntries(lines, i, n + m, None, indicators, a) == SubEntries(lines, r.at, m, None, indicators, r.arena)
    decreases n
  {
    hide OneEntry;
    if n > 0 {
      var first := OneEntry(lines, i, None, indicators, a);
      SubEntriesSplit(lines, first.at, n - 1, m, indicators, first.arena);
    }
  }

  lemma {:induction false} JoinWithout(parts: seq<string>, sep: char, c: char)
    requires c != sep && forall p :: p in parts ==> c !in p
    ensures c !in Join(parts, sep)
  {
    if |parts| > 1 {
      JoinWithout(parts[1..], sep, c);
    }
  }

  /** Printed lines hold no line break and do not end in a carriage return. */
  lemma {:induction false} PrintIsLines(forest: seq<Node>)
    requires PrintableForest(forest)
    ensures forall l :: l in Print(forest) ==> '\n' !in l && TrimCr(l) == l
  {
    hide CountsLine, Join, TrimCr;
    if forest != [] {
      var node := forest[0];
      PrintIsLines(node.kids);
      PrintIsLines(forest[1..]);
      CountsLineParses("0", |node.kids|);
      CountsLineTrimmed("0", |node.kids|);
      JoinWithout(node.values, '\t', '\n');
    }
  }

  lemma CountsLineTrimmed(first: string, count: nat)
    ensures TrimCr(CountsLine(first, count)) == CountsLine(first, count)
  {
    var s := CountsLine(first, count);
    assert s[|s| - 1] == Decimal(count)[|Decimal(count)| - 1];
  }

  lemma HeadIsLines(indicators: seq<string>, declared: U64)
    requires Printable(indicators)
    ensures forall l :: l in Head(indicators, declared) ==> '\n' !in l
    ensures var h := Head(indicators, declared); TrimCr(h[0]) == h[0] && TrimCr(h[2]) == h[2] && TrimCr(h[3]) == h[3]
  {
    hide Join, Decimal, CountsLine, TrimCr, Blank, CountOf, SubCount, ParseU64;
    ParseDecimal(declared);
    JoinWithout(indicators, '\t', '\n');
    JoinWithout(Blank(|indicators|), '\t', '\n') by {
      BlankIsEmpty(|indicators|);
    }
    CountsLineParses("26", declared);
    CountsLineTrimmed("26", declared);
    EntryTrimmed();
  }

  lemma BlankIsEmpty(n: nat)
    ensures forall p :: p in Blank(n) ==> p == ""
  {
  }

  lemma EntryTrimmed()
    ensures TrimCr("entry") == "entry"
  {
  }

  /** The lines of the printed text: those printed, and an empty one after the last line break. */
  lemma PrintedLines(before: seq<string>, indicators: seq<string>, declared: U64, forest: seq<Node>)
    requires OtherLines(before) && Printable(indicators) && PrintableForest(forest)
    ensures var lines, n := LinesOf(PrintTree(before, indicators, declared, forest)), |before|;
            var head := Head(indicators, declared);
            && |lines| == n + 5 + 2 * Size(forest) + 1 && "entry" !in lines[..n]
            && lines[n] == "entry" && lines[n + 2] == head[2] && lines[n + 3] == head[3]
            && lines[n + 5..n + 5 + 2 * Size(forest)] == Print(forest)
  {
    hide Head, Print, TrimCr, Split, Unlines, Join, Printable;
    var head, body, n := Head(indicators, declared), Print(forest), |before|;
    HeadIsLines(indicators, declared);
    HeadShape(indicators, declared);
    PrintIsLines(forest);
    NoBreaks(before, head, body);
    SplitUnlines(before + head + body);
    var split := before + head + body + [""];
    var lines := LinesOf(PrintTree(before, indicators, declared, forest));
    assert lines == TrimmedLines(split);
    forall k | 0 <= k < n
      ensures lines[..n][k] != "entry"
    {
      assert split[k] == before[k];
    }
    assert split[n] == head[0] && split[n + 2] == head[2] && split[n + 3] == head[3];
    forall k | 0 <= k < |body|
      ensures lines[n + 5 + k] == body[k]
    {
      assert split[n + 5 + k] == body[k] && body[k] in body;
    }
  }

  lemma NoBreaks(before: seq<string>, head: seq<string>, body: seq<string>)
    requires OtherLines(before)
    requires (forall l :: l in head ==> '\n' !in l) && forall l :: l in body ==> '\n' !in l
    ensures forall l :: l in before + head + body ==> '\n' !in l
  {
    hide TrimCr;
  }

  lemma HeadShape(indicators: seq<string>, declared: U64)
    ensures |Head(indicators, declared)| == 5 && Head(indicators, declared)[0] == "entry"
  {
  }

  /** Round trip: the printed forest parses to its preorder arena, with the same names, fields, parents
      and children, under any indicator row and behind whatever other categories, whenever the root declares at
      least its top-level entries. */
  lemma RoundTrip(before: seq<string>, indicators: seq<string>, declared: U64, forest: seq<Node>)
    requires OtherLines(before) && Printable(indicators) && PrintableForest(forest) && |forest| <= declared
    ensures TreeOf(PrintTree(before, indicators, declared, forest)) ==
            Parsed(Tree(indicators, Arena(Entries(indicators, forest, None, 0),
                                          Warnings(indicators, forest, |before| + 5))))
  {
    hide PrintTree, LinesOf, Split, Join, CountOf, Print, PrintableForest, Printable, OtherLines, Entries, Warnings,
         SubEntries, TreeOf, Position, Grown, Head;
    var lines, n := LinesOf(PrintTree(before, indicators, declared, forest)), |before|;
    PrintedLines(before, indicators, declared, forest);
    IndicatorsParse(indicators, declared);
    PositionIs(lines, "entry", n);
    TreeOfLines(PrintTree(before, indicators, declared, forest), n, indicators, declared);
    ForestParsed(lines, n + 5, indicators, declared, forest);
    GrownFromNothing(indicators, forest, n + 5);
  }

  lemma TreeOfLines(text: string, n: nat, indicators: seq<string>, declared: U64)
    requires Position(LinesOf(text), "entry") == Some(n) && n + 3 < |LinesOf(text)|
    requires Split(LinesOf(text)[n + 2], '\t') == indicators && CountOf(LinesOf(text)[n + 3]) == Some(declared)
    ensures var r := SubEntries(LinesOf(text), n + 5, declared, None, indicators, Arena([], []));
            TreeOf(text) == Parsed(Tree(indicators, r.arena))
  {
    hide LinesOf, Split, CountOf, SubEntries, Position;
  }

  lemma SplitAfter(lines: seq<string>, i: nat, n: nat, m: nat, indicators: seq<string>, a: Arena, r: Cursor)
    requires SubEntries(lines, i, n, None, indicators, a) == r
    ensures SubEntries(lines, i, n + m, None, indicators, a) == SubEntries(lines, r.at, m, None, indicators, r.arena)
  {
    hide SubEntries;
    SubEntriesSplit(lines, i, n, m, indicators, a);
  }

  /** The walk over the whole category: the forest, and then nothing. */
  lemma ForestParsed(lines: seq<string>, at: nat, indicators: seq<string>, declared: nat, forest: seq<Node>)
    requires at + 2 * Size(forest) + 1 == |lines| && lines[at..at + 2 * Size(forest)] == Print(forest)
    requires PrintableForest(forest) && |forest| <= declared
    ensures SubEntries(lines, at, declared, None, indicators, Arena([], [])).arena ==
            Grown(Arena([], []), at, None, indicators, forest)
  {
    hide Print, PrintableForest, Size, SubEntries, OneEntry, Grown;
    var none, rest, end := Arena([], []), declared - |forest|, at + 2 * Size(forest);
    var grown := Grown(none, at, None, indicators, forest);
    ParsePrinted(lines, at, forest, None, indicators, none);
    SplitAfter(lines, at, |forest|, rest, indicators, none, Cursor(end, grown));
    NothingLeft(lines, end, rest, indicators, grown);
  }

  lemma {:induction false} PositionIs(lines: seq<string>, name: string, n: nat)
    requires n < |lines| && lines[n] == name && name !in lines[..n]
    ensures Position(lines, name) == Some(n)
  {
    if n > 0 {
      assert lines[..n] == [lines[0]] + lines[1..][..n - 1];
      PositionIs(lines[1..], name, n - 1);
    }
  }

  lemma IndicatorsParse(indicators: seq<string>, declared: U64)
    requires Printable(indicators)
    ensures Split(Head(indicators, declared)[2], '\t') == indicators
    ensures CountOf(Head(indicators, declared)[3]) == Some(declared)
  {
    SplitJoin(indicators, '\t');
    CountsLineParses("26", declared);
  }

  lemma GrownFromNothing(indicators: seq<string>, forest: seq<Node>, line: nat)
    ensures Grown(Arena([], []), line, None, indicators, forest) ==
            Arena(Entries(indicators, forest, None, 0), Warnings(indicators, forest, line))
  {
    hide Entries, Warnings, ChildIds;
    assert [] + Entries(indicators, forest, None, 0) == Entries(indicators, forest, None, 0);
    assert [] + Warnings(indicators, forest, line) == Warnings(indicators, forest, line);
  }

  // ----- Column order -----

  ghost predicate Distinct(s: seq<string>) {
    forall i, j :: 0 <= i < j < |s| ==> s[i] != s[j]
  }

  /** Under each of the first `n` indicators `raw` holds the value of its column, and it holds nothing else. */
  ghost predicate Reads(raw: map<string, string>, indicators: seq<string>, values: seq<string>, n: nat)
    requires |values| == |indicators| && n <= |indicators|
  {
    && (forall k :: k in raw ==> exists j :: 0 <= j < n && indicators[j] == k)
    && forall j :: 0 <= j < n ==> indicators[j] in raw && raw[indicators[j]] == values[j]
  }

  /** With distinct indicators and a value for each, every field can be read back by its name. */
  lemma {:induction false} FieldsByName(indicators: seq<string>, values: seq<string>, n: nat)
    requires Distinct(indicators) && |values| == |indicators| && n <= |indicators|
    ensures Reads(RawFirst(indicators, values, n), indicators, values, n)
  {
    if n > 0 {
      FieldsByName(indicators, values, n - 1);
    }
  }

  ghost predicate IsPermutation(perm: seq<nat>, n: nat) {
    && |perm| == n
    && (forall j :: 0 <= j < n ==> perm[j] < n)
    && (forall j, k :: 0 <= j < k < n ==> perm[j] != perm[k])
    && (forall k: nat :: k < n ==> k in perm)
  }

  ghost function Permute(row: seq<string>, perm: seq<nat>): (r: seq<string>)
    requires IsPermutation(perm, |row|)
    ensures |r| == |row|
    ensures forall j :: 0 <= j < |row| ==> r[j] == row[perm[j]]
  {
    seq(|row|, j requires 0 <= j < |row| => row[perm[j]])
  }

  ghost predicate Rectangular(forest: seq<Node>, n: nat) {
    forest != [] ==> |forest[0].values| == n && Rectangular(forest[0].kids, n) && Rectangular(forest[1..], n)
  }

  ghost function PermuteForest(forest: seq<Node>, perm: seq<nat>, n: nat): (r: seq<Node>)
    requires IsPermutation(perm, n) && Rectangular(forest, n)
    ensures |r| == |forest|
  {
    if forest == [] then []
    else
      [Node(Permute(forest[0].values, perm), PermuteForest(forest[0].kids, perm, n))]
      + PermuteForest(forest[1..], perm, n)
  }

  lemma DistinctPermuted(row: seq<string>, perm: seq<nat>)
    requires Distinct(row) && IsPermutation(perm, |row|)
    ensures Distinct(Permute(row, perm))
  {
    forall i, j | 0 <= i < j < |row|
      ensures row[perm[i]] != row[perm[j]]
    {
      assert perm[i] != perm[j];
    }
  }

  lemma SameReading(x: map<string, string>, y: map<string, string>, indicators: seq<string>, values: seq<string>,
                    perm: seq<nat>)
    requires |values| == |indicators| && IsPermutation(perm, |indicators|)
    requires Reads(x, Permute(indicators, perm), Permute(values, perm), |indicators|)
             && Reads(y, indicators, values, |indicators|)
    ensures x == y
  {
    var ind, vals := Permute(indicators, perm), Permute(values, perm);
    forall k | k in x
      ensures k in y && x[k] == y[k]
    {
      var j :| 0 <= j < |ind| && ind[j] == k;
      assert indicators[perm[j]] == k && values[perm[j]] == vals[j];
    }
    forall k | k in y
      ensures k in x
    {
      var j :| 0 <= j < |indicators| && indicators[j] == k;
      assert j in perm;
      var i :| 0 <= i < |perm| && perm[i] == j;
      assert ind[i] == k;
    }
  }

  lemma SameRow(indicators: seq<string>, values: seq<string>, perm: seq<nat>, parent: Option<nat>, line: nat)
    requires Distinct(indicators) && |values| == |indicators| && IsPermutation(perm, |indicators|)
    ensures var ind, vals := Permute(indicators, perm), Permute(values, perm);
            && EntryWith(ind, vals, parent) == EntryWith(indicators, values, parent)
            && WarningsOf(line, ind, vals) == WarningsOf(line, indicators, values)
  {
    hide RawFirst, EntryOf, IsPermutation, Distinct;
    var ind, vals := Permute(indicators, perm), Permute(values, perm);
    DistinctPermuted(indicators, perm);
    FieldsByName(indicators, values, |indicators|);
    FieldsByName(ind, vals, |ind|);
    SameReading(RawOf(ind, vals), RawOf(indicators, values), indicators, values, perm);
  }

  lemma {:induction false} PermutedSize(forest: seq<Node>, perm: seq<nat>, n: nat, base: nat)
    requires IsPermutation(perm, n) && Rectangular(forest, n)
    ensures Size(PermuteForest(forest, perm, n)) == Size(forest)
    ensures ChildIds(PermuteForest(forest, perm, n), base) == ChildIds(forest, base)
    decreases forest
  {
    hide Permute, IsPermutation;
    if forest != [] {
      var p := PermuteForest(forest, perm, n);
      assert p[1..] == PermuteForest(forest[1..], perm, n);
      PermutedSize(forest[0].kids, perm, n, base + 1);
      PermutedSize(forest[1..], perm, n, base + 1 + Size(forest[0].kids));
    }
  }

  lemma {:induction false} PermutedEntries(indicators: seq<string>, forest: seq<Node>, perm: seq<nat>,
                                           parent: Option<nat>,
                                           base: nat)
    requires Distinct(indicators) && IsPermutation(perm, |indicators|) && Rectangular(forest, |indicators|)
    ensures Entries(Permute(indicators, perm), PermuteForest(forest, perm, |indicators|), parent, base) ==
            Entries(indicators, forest, parent, base)
    decreases forest
  {
    hide EntryWith, WarningsOf, IsPermutation, Distinct, Permute, Size, ChildIds;
    var n := |indicators|;
    if forest != [] {
      var kids, rest := forest[0].kids, forest[1..];
      var p := PermuteForest(forest, perm, n);
      assert p[0] == Node(Permute(forest[0].values, perm), PermuteForest(kids, perm, n));
      assert p[1..] == PermuteForest(rest, perm, n);
      SameRow(indicators, forest[0].values, perm, parent, 0);
      PermutedSize(kids, perm, n, base + 1);
      PermutedEntries(indicators, kids, perm, Some(base), base + 1);
      PermutedEntries(indicators, rest, perm, parent, base + 1 + Size(kids));
    }
  }

  lemma {:induction false} PermutedWarnings(indicators: seq<string>, forest: seq<Node>, perm: seq<nat>, line: nat)
    requires Distinct(indicators) && IsPermutation(perm, |indicators|) && Rectangular(forest, |indicators|)
    ensures Warnings(Permute(indicators, perm), PermuteForest(forest, perm, |indicators|), line) ==
            Warnings(indicators, forest, line)
    decreases forest
  {
    hide EntryWith, WarningsOf, IsPermutation, Distinct, Permute, Size, ChildIds;
    var n := |indicators|;
    if forest != [] {
      var kids, rest := forest[0].kids, forest[1..];
      var p := PermuteForest(forest, perm, n);
      assert p[0] == Node(Permute(forest[0].values, perm), PermuteForest(kids, perm, n));
      assert p[1..] == PermuteForest(rest, perm, n);
      SameRow(indicators, forest[0].values, perm, None, line);
      PermutedSize(kids, perm, n, 0);
      PermutedWarnings(indicators, kids, perm, line + 2);
      PermutedWarnings(indicators, rest, perm, line + 2 + 2 * Size(kids));
    }
  }

  /** The order in which a file declares its columns makes no difference to what is parsed. */
  lemma ColumnOrderIrrelevant(before: seq<string>, indicators: seq<string>, declared: U64, forest: seq<Node>,
                              perm: seq<nat>)
    requires Distinct(indicators) && IsPermutation(perm, |indicators|) && Rectangular(forest, |indicators|)
    requires |forest| <= declared && OtherLines(before) && Printable(indicators) && PrintableForest(forest)
    requires Printable(Permute(indicators, perm)) && PrintableForest(PermuteForest(forest, perm, |indicators|))
    ensures var a := TreeOf(PrintTree(before, indicators, declared, forest));
            var permuted := PermuteForest(forest, perm, |indicators|);
            var b := TreeOf(PrintTree(before, Permute(indicators, perm), declared, permuted));
            a.Parsed? && b.Parsed? && b.value.indicators == Permute(indicators, perm) && b.value.arena == a.value.arena
  {
    hide PrintTree, TreeOf, Entries, Warnings, Printable, PrintableForest, OtherLines, Rectangular, PermuteForest;
    RoundTrip(before, indicators, declared, forest);
    RoundTrip(before, Permute(indicators, perm), declared, PermuteForest(forest, perm, |indicators|));
    PermutedEntries(indicators, forest, perm, None, 0);
    PermutedWarnings(indicators, forest, perm, |before| + 5);
  }

  // ----- Line endings -----

  /** Every line followed by a carriage return and a line break. */
  function UnlinesCr(lines: seq<string>): string {
    if lines == [] then "" else (lines[0] + ['\r']) + ['\n'] + UnlinesCr(lines[1..])
  }

  function WithCr(lines: seq<string>): (r: seq<string>)
    ensures |r| == |lines|
    ensures forall k :: 0 <= k < |r| ==> r[k] == lines[k] + ['\r']
  {
    seq(|lines|, k requires 0 <= k < |lines| => lines[k] + ['\r'])
  }

  lemma {:induction false} UnlinesCrIs(lines: seq<string>)
    ensures UnlinesCr(lines) == Unlines(WithCr(lines))
  {
    if lines != [] {
      UnlinesCrIs(lines[1..]);
      assert WithCr(lines)[1..] == WithCr(lines[1..]);
    }
  }

  lemma TrimsCr(line: string)
    ensures TrimCr(line + ['\r']) == TrimCr(line)
  {
    assert (line + ['\r'])[..|line|] == line;
  }

  /** A text parses to the same tree whichever way its lines end. */
  lemma LineEndingsIrrelevant(lines: seq<string>)
    requires forall l :: l in lines ==> '\n' !in l
    ensures TreeOf(UnlinesCr(lines)) == TreeOf(Unlines(lines))
  {
    hide Split, Unlines, UnlinesCr, TrimCr, Position, SubEntries, IndicatorsOf, RootCountOf;
    var cr := WithCr(lines);
    UnlinesCrIs(lines);
    SplitUnlines(lines);
    forall l | l in cr
      ensures '\n' !in l
    {
      var k :| 0 <= k < |cr| && cr[k] == l;
      assert lines[k] in lines;
    }
    SplitUnlines(cr);
    var a, b := TrimmedLines(cr + [""]), TrimmedLines(lines + [""]);
    forall k | 0 <= k < |a|
      ensures a[k] == b[k]
    {
      if k < |lines| {
        assert (cr + [""])[k] == lines[k] + ['\r'] && (lines + [""])[k] == lines[k];
        TrimsCr(lines[k]);
      }
    }
    assert a == b;
  }
}
