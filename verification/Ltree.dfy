/** The entry tree of a logical container: a recursive cursor-passing parser that builds an arena of
    entries linked by index. */
module Ltree {
  import opened Bytes
  import opened Text

  // ----- Entries -----

  datatype Entry = Entry(
    name: string,
    shortName: string,
    isDir: bool,
    size: U64,
    md5: Option<string>,
    id: U64,
    children: seq<nat>,
    parent: Option<nat>,
    raw: map<string, string>)

  datatype Warning =
    | ValueCount(line: nat, values: nat, indicators: nat)
    | ShortNameSize(line: nat, declared: string)

  datatype TreeError = NoEntryCategory | NoIndicators | BadRootCount

  datatype Outcome<+T> = Parsed(value: T) | Malformed(error: TreeError)

  /** The first `n` fields by indicator name; of two columns with one name the later wins. */
  function RawFirst(indicators: seq<string>, values: seq<string>, n: nat): map<string, string>
    requires n <= |indicators| && n <= |values|
  {
    if n == 0 then map[] else RawFirst(indicators, values, n - 1)[indicators[n - 1] := values[n - 1]]
  }

  /** Every declared field that has a value. */
  function RawOf(indicators: seq<string>, values: seq<string>): map<string, string> {
    RawFirst(indicators, values, Min(|indicators|, |values|))
  }

  function Field(raw: map<string, string>, k: string): string {
    if k in raw then raw[k] else ""
  }

  function NumberOr0(s: string): U64 {
    var n := ParseU64(Trim(s));
    if n.Some? then n.value else 0
  }

  /** An empty or all-zero hash field means there is no hash. */
  function Md5Of(h: string): Option<string> {
    if forall c :: c in h ==> c == '0' then None else Some(h)
  }

  function ShortNameOf(snh: string): string {
    var parts := SplitOnce(snh, ' ');
    if parts.None? then snh else parts.value.1
  }

  function EntryOf(raw: map<string, string>, parent: Option<nat>): Entry {
    Entry(Field(raw, "n"), ShortNameOf(Field(raw, "snh")), Field(raw, "p") == "1", NumberOr0(Field(raw, "ls")),
          Md5Of(Field(raw, "ha")), NumberOr0(Field(raw, "id")), [], parent, raw)
  }

  /** The declared size of the short name must be its length and the terminating NUL. */
  predicate ShortNameAgrees(snh: string) {
    var parts := SplitOnce(snh, ' ');
    parts.Some? ==> ParseU64(parts.value.0) == Some(|parts.value.1| + 1)
  }

  function WarningsOf(line: nat, indicators: seq<string>, values: seq<string>): seq<Warning> {
    var snh := Field(RawOf(indicators, values), "snh");
    (if |values| != |indicators| then [ValueCount(line, |values|, |indicators|)] else []) +
    (if ShortNameAgrees(snh) then [] else [ShortNameSize(line, SplitOnce(snh, ' ').value.0)])
  }

  // ----- The arena -----

  datatype Arena = Arena(entries: seq<Entry>, warnings: seq<Warning>)

  /** `entries` with the indices `ids` added to the children of `parent`. */
  function Adopt(entries: seq<Entry>, parent: Option<nat>, ids: seq<nat>): (r: seq<Entry>)
    requires parent.Some? ==> parent.value < |entries|
    ensures |r| == |entries|
  {
    if parent.None? then entries
    else entries[parent.value := entries[parent.value].(children := entries[parent.value].children + ids)]
  }

  /** The arena after the pair of lines at `i` became a new entry under `parent`. */
  function Push(a: Arena, i: nat, parent: Option<nat>, indicators: seq<string>, values: seq<string>): (r: Arena)
    requires parent.Some? ==> parent.value < |a.entries|
    ensures |r.entries| == |a.entries| + 1
  {
    Arena(Adopt(a.entries, parent, [|a.entries|]) + [EntryOf(RawOf(indicators, values), parent)],
          a.warnings + WarningsOf(i, indicators, values))
  }

  /** The second column of a counts line, as the number of sub-entries. */
  function CountOf(line: string): Option<U64> {
    var columns := Split(line, '\t');
    if |columns| < 2 then None else ParseU64(Trim(columns[1]))
  }

  function SubCount(line: string): U64 {
    var n := CountOf(line);
    if n.Some? then n.value else 0
  }

  // ----- What the parser computes -----

  datatype Cursor = Cursor(at: nat, arena: Arena)

  /** The entry at `i` and everything below it, as deep as the declared sub-counts and the text allow. */
  function OneEntry(lines: seq<string>, i: nat, parent: Option<nat>, indicators: seq<string>, a: Arena): (r: Cursor)
    requires parent.Some? ==> parent.value < |a.entries|
    ensures i <= r.at && |a.entries| <= |r.arena.entries|
    decreases SatSub(|lines|, i), 0
  {
    if i >= |lines| then Cursor(i, a)
    else if i + 1 >= |lines| then Cursor(i + 1, a)
    else
      var pushed := Push(a, i, parent, indicators, Split(lines[i + 1], '\t'));
      SubEntries(lines, i + 2, SubCount(lines[i]), Some(|a.entries|), indicators, pushed)
  }

  /** `n` entries in a row, all under `parent`. */
  function SubEntries(lines: seq<string>, i: nat, n: nat, parent: Option<nat>, indicators: seq<string>,
                      a: Arena): (r: Cursor)
    requires parent.Some? ==> parent.value < |a.entries|
    ensures i <= r.at && |a.entries| <= |r.arena.entries|
    decreases SatSub(|lines|, i), n + 1
  {
    if n == 0 then Cursor(i, a)
    else
      var first := OneEntry(lines, i, parent, indicators, a);
      SubEntries(lines, first.at, n - 1, parent, indicators, first.arena)
  }

  function TrimmedLines(lines: seq<string>): (r: seq<string>)
    ensures |r| == |lines|
    ensures forall k :: 0 <= k < |r| ==> r[k] == TrimCr(lines[k])
  {
    seq(|lines|, k requires 0 <= k < |lines| => TrimCr(lines[k]))
  }

  function LinesOf(text: string): seq<string> {
    TrimmedLines(Split(text, '\n'))
  }

  /** The first line that is exactly `name`. */
  function Position(lines: seq<string>, name: string): (r: Option<nat>)
    ensures r.Some? ==> r.value < |lines| && lines[r.value] == name && name !in lines[..r.value]
    ensures r.None? ==> name !in lines
  {
    if lines == [] then None
    else if lines[0] == name then Some(0)
    else
      var r := Position(lines[1..], name);
      if r.None? then None
      else
        assert lines[..r.value + 1] == [lines[0]] + lines[1..][..r.value];
        Some(r.value + 1)
  }

  function IndicatorsOf(lines: seq<string>, category: nat): Outcome<seq<string>> {
    if category + 2 >= |lines| then Malformed(NoIndicators) else Parsed(Split(lines[category + 2], '\t'))
  }

  function RootCountOf(lines: seq<string>, category: nat): Outcome<U64> {
    if category + 3 >= |lines| || CountOf(lines[category + 3]).None? then Malformed(BadRootCount)
    else Parsed(CountOf(lines[category + 3]).value)
  }

  datatype Tree = Tree(indicators: seq<string>, arena: Arena)

  /** What a whole text parses to. */
  function TreeOf(text: string): Outcome<Tree> {
    var lines := LinesOf(text);
    var category := Position(lines, "entry");
    if category.None? then Malformed(NoEntryCategory)
    else
      var indicators, count := IndicatorsOf(lines, category.value), RootCountOf(lines, category.value);
      if indicators.Malformed? then Malformed(indicators.error)
      else if count.Malformed? then Malformed(count.error)
      else
        var r := SubEntries(lines, category.value + 5, count.value, None, indicators.value, Arena([], []));
        Parsed(Tree(indicators.value, r.arena))
  }

  // ----- The parser -----

  class LogicalTree {
    var entries: seq<Entry>
    var warnings: seq<Warning>
    const indicators: seq<string>

    function Contents(): Arena
      reads this
    {
      Arena(entries, warnings)
    }

    constructor (indicators: seq<string>)
      ensures this.indicators == indicators && Contents() == Arena([], [])
    {
      this.indicators := indicators;
      entries, warnings := [], [];
    }

    /** Read the values of one entry into the tree, and link it to its parent. */
    method AddEntry(line: nat, parent: Option<nat>, values: seq<string>) returns (idx: nat)
      requires parent.Some? ==> parent.value < |entries|
      modifies this
      ensures idx == old(|entries|)
      ensures Contents() == Push(old(Contents()), line, parent, indicators, values)
    {
      hide EntryOf, WarningsOf, RawOf;
      var entry, issues := ReadFields(line, parent, indicators, values);
      warnings := warnings + issues;
      idx := |entries|;
      entries := entries + [entry];
      if parent.Some? {
        var p := parent.value;
        entries := entries[p := entries[p].(children := entries[p].children + [idx])];
      }
    }

    /** Read the two lines at the cursor as an entry, then everything nested below it; the result is where
        the next entry starts. */
    method ParseOne(lines: seq<string>, start: nat, parent: Option<nat>) returns (i: nat)
      requires parent.Some? ==> parent.value < |entries|
      modifies this
      ensures Cursor(i, Contents()) == OneEntry(lines, start, parent, indicators, old(Contents()))
      decreases SatSub(|lines|, start)
    {
      hide Push, CountOf, SubCount, Split;
      i := start;
      if i >= |lines| {
        return;
      }
      var subCount := SubCount(lines[i]);
      if i + 1 >= |lines| {
        i := i + 1;
        return;
      }
      var idx := AddEntry(i, parent, Split(lines[i + 1], '\t'));
      i := i + 2;
      ghost var goal := SubEntries(lines, i, subCount, Some(idx), indicators, Contents());
      for k := 0 to subCount
        invariant start < i && idx < |entries|
        invariant SubEntries(lines, i, subCount - k, Some(idx), indicators, Contents()) == goal
      {
        i := ParseOne(lines, i, Some(idx));
      }
    }
  }

  /** Pair the indicators with the values, as far as both go. */
  method ReadRow(indicators: seq<string>, values: seq<string>) returns (raw: map<string, string>)
    ensures raw == RawOf(indicators, values)
  {
    raw := map[];
    for k := 0 to Min(|indicators|, |values|)
      invariant raw == RawFirst(indicators, values, k)
    {
      raw := raw[indicators[k] := values[k]];
    }
  }

  /** The fields of one entry, with a warning for each that makes no sense. */
  method ReadFields(line: nat, parent: Option<nat>, indicators: seq<string>, values: seq<string>)
    returns (entry: Entry, issues: seq<Warning>)
    ensures entry == EntryOf(RawOf(indicators, values), parent)
    ensures issues == WarningsOf(line, indicators, values)
  {
    hide RawOf, SplitOnce, ParseU64, NumberOr0, Field;
    issues := [];
    if |values| != |indicators| {
      issues := issues + [ValueCount(line, |values|, |indicators|)];
    }
    var raw := ReadRow(indicators, values);
    var h := Field(raw, "ha");
    var md5 := if h == "" then None else if forall b :: b in h ==> b == '0' then None else Some(h);
    var snh := Field(raw, "snh");
    var parts := SplitOnce(snh, ' ');
    var shortName := snh;
    if parts.Some? {
      shortName := parts.value.1;
      if ParseU64(parts.value.0) != Some(|shortName| + 1) {
        issues := issues + [ShortNameSize(line, parts.value.0)];
      }
    }
    entry := Entry(Field(raw, "n"), shortName, Field(raw, "p") == "1", NumberOr0(Field(raw, "ls")), md5,
                   NumberOr0(Field(raw, "id")), [], parent, raw);
  }

  method ParseEntryTree(text: string) returns (r: Outcome<LogicalTree>)
    ensures r.Malformed? ==> TreeOf(text) == Malformed(r.error)
    ensures r.Parsed? ==> fresh(r.value) && TreeOf(text) == Parsed(Tree(r.value.indicators, r.value.Contents()))
  {
    hide LinesOf, CountOf, Split, Position;
    var lines := LinesOf(text);
    var category := Position(lines, "entry");
    if category.None? {
      return Malformed(NoEntryCategory);
    }
    if category.value + 2 >= |lines| {
      return Malformed(NoIndicators);
    }
    var indicators := Split(lines[category.value + 2], '\t');
    var tree := new LogicalTree(indicators);
    var cursor: nat := category.value + 3;
    if cursor >= |lines| || CountOf(lines[cursor]).None? {
      return Malformed(BadRootCount);
    }
    var rootSubs := CountOf(lines[cursor]).value;
    cursor := cursor + 2;
    ghost var goal := SubEntries(lines, cursor, rootSubs, None, indicators, Arena([], []));
    for k := 0 to rootSubs
      invariant SubEntries(lines, cursor, rootSubs - k, None, indicators, tree.Contents()) == goal
    {
      cursor := tree.ParseOne(lines, cursor, None);
    }
    r := Parsed(tree);
  }
}
