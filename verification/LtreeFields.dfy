/** What the fields of a parsed entry are: whatever the order of the columns, an entry printed under the
    documented indicator names is parsed to the record it was printed from. */
module LtreeFields {
  import opened Bytes
  import opened Text
  import opened Ltree
  import opened LtreeShape
  import opened LtreeRoundTrip

  /** What a file system knows of an entry. */
  datatype Record = Record(
    name: string,
    shortName: string,
    isDir: bool,
    size: U64,
    md5: Option<string>,
    id: U64)

  // ----- Writing a record -----

  predicate WritesNumber(text: string, n: U64) {
    text == Decimal(n) || (text == "" && n == 0)
  }

  /** No hash is written as any number of zeros; a hash is not all zeros. */
  ghost predicate WritesHash(text: string, md5: Option<string>) {
    if md5.Some? then text == md5.value && exists i :: 0 <= i < |text| && text[i] != '0'
    else forall i :: 0 <= i < |text| ==> text[i] == '0'
  }

  /** Behind a declared size, right or wrong, and a space; or bare. */
  ghost predicate WritesShortName(text: string, shortName: string) {
    || (text == shortName && ' ' !in shortName)
    || exists declared :: Sized(text, declared, shortName)
  }

  predicate Sized(text: string, declared: string, shortName: string) {
    ' ' !in declared && text == declared + [' '] + shortName
  }

  /** `text` is what the column of that name may hold for the record. */
  ghost predicate Writes(column: string, text: string, r: Record) {
    match column
    case "n" => text == r.name
    case "snh" => WritesShortName(text, r.shortName)
    case "p" => text == "1" <==> r.isDir
    case "ls" => WritesNumber(text, r.size)
    case "ha" => WritesHash(text, r.md5)
    case "id" => WritesNumber(text, r.id)
    case _ => true
  }

  /** Every column that has a value holds what it may for the record, and so does an empty text for every column
      that is missing. */
  ghost predicate Describes(indicators: seq<string>, row: seq<string>, r: Record) {
    var n := Min(|indicators|, |row|);
    && (forall j :: 0 <= j < n ==> Writes(indicators[j], row[j], r))
    && forall c :: c !in indicators[..n] ==> Writes(c, "", r)
  }

  /** One column for each field. */
  function FieldNames(): seq<string> {
    ["n", "snh", "p", "ls", "ha", "id"]
  }

  /** The row of a record under those columns. */
  function RowOf(r: Record): (row: seq<string>)
    ensures |row| == 6
  {
    [r.name, Decimal(|r.shortName| + 1) + [' '] + r.shortName, if r.isDir then "1" else "", Decimal(r.size),
     if r.md5.Some? then r.md5.value else "00000000000000000000000000000000", Decimal(r.id)]
  }

  /** Every record whose hash, if it has one, is not all zeros has a row that describes it. */
  lemma RowDescribes(r: Record)
    requires r.md5.Some? ==> exists i :: 0 <= i < |r.md5.value| && r.md5.value[i] != '0'
    ensures Describes(FieldNames(), RowOf(r), r)
  {
    hide Decimal;
    var names, row, size := FieldNames(), RowOf(r), Decimal(|r.shortName| + 1);
    assert Sized(row[1], size, r.shortName) by {
      assert forall i :: 0 <= i < |size| ==> IsDigit(size[i]);
    }
    forall c | c !in names[..6]
      ensures Writes(c, "", r)
    {
      assert names[..6] == names;
      NotAField(c, names, r);
    }
  }

  lemma NotAField(c: string, names: seq<string>, r: Record)
    requires names == FieldNames() && c !in names
    ensures Writes(c, "", r)
  {
    assert names[0] in names && names[1] in names && names[2] in names;
    assert names[3] in names && names[4] in names && names[5] in names;
  }

  predicate IsRecord(e: Entry, r: Record) {
    && e.name == r.name && e.shortName == r.shortName && e.isDir == r.isDir
    && e.size == r.size && e.md5 == r.md5 && e.id == r.id
  }

  // ----- Reading it back -----

  lemma {:induction false} FieldWritten(indicators: seq<string>, row: seq<string>, n: nat, c: string, r: Record)
    requires n <= |indicators| && n <= |row|
    requires forall j :: 0 <= j < n ==> Writes(indicators[j], row[j], r)
    requires c !in indicators[..n] ==> Writes(c, "", r)
    ensures Writes(c, Field(RawFirst(indicators, row, n), c), r)
  {
    hide Writes;
    if n > 0 && indicators[n - 1] != c {
      assert indicators[..n] == indicators[..n - 1] + [indicators[n - 1]];
      FieldWritten(indicators, row, n - 1, c, r);
    }
  }

  lemma {:induction false} FirstSpace(declared: string, shortName: string)
    requires ' ' !in declared
    ensures SplitOnce(declared + [' '] + shortName, ' ') == Some((declared, shortName))
  {
    var s := declared + [' '] + shortName;
    if declared == "" {
      assert s[1..] == shortName;
    } else {
      FirstSpace(declared[1..], shortName);
      assert s[1..] == declared[1..] + [' '] + shortName;
      assert [declared[0]] + declared[1..] == declared;
    }
  }

  lemma ShortNameRead(text: string, shortName: string)
    requires WritesShortName(text, shortName)
    ensures ShortNameOf(text) == shortName
  {
    if declared :| Sized(text, declared, shortName) {
      FirstSpace(declared, shortName);
    }
  }

  lemma NumberRead(text: string, n: U64)
    requires WritesNumber(text, n)
    ensures NumberOr0(text) == n
  {
    hide Decimal;
    ParseDecimal(n);
  }

  lemma HashRead(text: string, md5: Option<string>)
    requires WritesHash(text, md5)
    ensures Md5Of(text) == md5
  {
    if md5.Some? {
      var i :| 0 <= i < |text| && text[i] != '0';
      assert text[i] in text;
    }
  }

  /** The entry read from a row that describes a record is that record. */
  lemma RecordRead(indicators: seq<string>, row: seq<string>, parent: Option<nat>, r: Record)
    requires Describes(indicators, row, r)
    ensures IsRecord(EntryWith(indicators, row, parent), r)
  {
    hide RawFirst, Field, WritesNumber, WritesHash, WritesShortName, ShortNameOf, NumberOr0, Md5Of;
    var n := Min(|indicators|, |row|);
    var raw := RawOf(indicators, row);
    FieldWritten(indicators, row, n, "n", r);
    FieldWritten(indicators, row, n, "snh", r);
    FieldWritten(indicators, row, n, "p", r);
    FieldWritten(indicators, row, n, "ls", r);
    FieldWritten(indicators, row, n, "ha", r);
    FieldWritten(indicators, row, n, "id", r);
    ShortNameRead(Field(raw, "snh"), r.shortName);
    NumberRead(Field(raw, "ls"), r.size);
    NumberRead(Field(raw, "id"), r.id);
    HashRead(Field(raw, "ha"), r.md5);
  }

  // ----- When a row is warned about -----

  /** The last column of that name that has a value. */
  predicate LastColumn(indicators: seq<string>, row: seq<string>, j: nat, c: string) {
    var n := Min(|indicators|, |row|);
    j < n && indicators[j] == c && c !in indicators[j + 1..n]
  }

  /** The short name is written behind the size `declared`, which is not its length and a terminating NUL. */
  ghost predicate BadSize(indicators: seq<string>, row: seq<string>, declared: string) {
    exists j: nat, shortName :: LastColumn(indicators, row, j, "snh") && Sized(row[j], declared, shortName)
      && ParseU64(declared) != Some(|shortName| + 1)
  }

  ghost predicate Warned(line: nat, indicators: seq<string>, row: seq<string>, w: Warning) {
    match w
    case ValueCount(l, values, columns) => l == line && values == |row| && columns == |indicators| && values != columns
    case ShortNameSize(l, declared) => l == line && BadSize(indicators, row, declared)
  }

  lemma {:induction false} FieldIsLast(indicators: seq<string>, row: seq<string>, n: nat, c: string)
    requires n <= |indicators| && n <= |row|
    ensures c !in indicators[..n] ==> Field(RawFirst(indicators, row, n), c) == ""
    ensures forall j :: 0 <= j < n && indicators[j] == c && c !in indicators[j + 1..n] ==>
              Field(RawFirst(indicators, row, n), c) == row[j]
  {
    if n > 0 {
      FieldIsLast(indicators, row, n - 1, c);
      assert indicators[..n] == indicators[..n - 1] + [indicators[n - 1]];
      forall j | 0 <= j < n && indicators[j] == c && c !in indicators[j + 1..n]
        ensures Field(RawFirst(indicators, row, n), c) == row[j]
      {
        if j < n - 1 {
          assert indicators[j + 1..n] == indicators[j + 1..n - 1] + [indicators[n - 1]];
          assert indicators[n - 1] in indicators[j + 1..n];
        }
      }
    }
  }

  lemma {:induction false} HasLast(indicators: seq<string>, n: nat, c: string) returns (j: nat)
    requires n <= |indicators| && c in indicators[..n]
    ensures j < n && indicators[j] == c && c !in indicators[j + 1..n]
  {
    assert indicators[..n] == indicators[..n - 1] + [indicators[n - 1]];
    if indicators[n - 1] == c {
      j := n - 1;
    } else {
      j := HasLast(indicators, n - 1, c);
      assert indicators[j + 1..n] == indicators[j + 1..n - 1] + [indicators[n - 1]];
    }
  }

  /** The declared size in front of a text's first space, if it has one. */
  lemma SizedIs(text: string, declared: string, shortName: string)
    ensures Sized(text, declared, shortName) <==> SplitOnce(text, ' ') == Some((declared, shortName))
  {
    if ' ' !in declared {
      FirstSpace(declared, shortName);
    }
  }

  lemma BadSizeIff(indicators: seq<string>, row: seq<string>, declared: string)
    ensures var snh := Field(RawOf(indicators, row), "snh");
            BadSize(indicators, row, declared) <==>
            !ShortNameAgrees(snh) && SplitOnce(snh, ' ').Some? && SplitOnce(snh, ' ').value.0 == declared
  {
    hide RawFirst, SplitOnce, ParseU64, Sized, Field;
    var n := Min(|indicators|, |row|);
    var snh := Field(RawOf(indicators, row), "snh");
    FieldIsLast(indicators, row, n, "snh");
    var parts := SplitOnce(snh, ' ');
    if parts.Some? {
      SizedIs(snh, parts.value.0, parts.value.1);
    }
    if BadSize(indicators, row, declared) {
      var j: nat, shortName :| LastColumn(indicators, row, j, "snh") && Sized(row[j], declared, shortName)
        && ParseU64(declared) != Some(|shortName| + 1);
      SizedIs(row[j], declared, shortName);
    }
    if parts.Some? && !ShortNameAgrees(snh) && parts.value.0 == declared {
      NoSpaceInNothing();
      var j := HasLast(indicators, n, "snh");
      assert LastColumn(indicators, row, j, "snh") && Sized(row[j], declared, parts.value.1);
    }
  }

  lemma NoSpaceInNothing()
    ensures SplitOnce("", ' ').None?
  {
  }

  /** A row is warned about exactly when it has too many or too few values, or its short name is not as long as
      its declared size says. */
  lemma WarnedIff(line: nat, indicators: seq<string>, row: seq<string>, w: Warning)
    ensures w in WarningsOf(line, indicators, row) <==> Warned(line, indicators, row, w)
  {
    hide RawOf, Field, SplitOnce, BadSize, ParseU64;
    if w.ShortNameSize? {
      BadSizeIff(indicators, row, w.declared);
    }
    AgreesWithoutSpace(Field(RawOf(indicators, row), "snh"));
  }

  lemma AgreesWithoutSpace(snh: string)
    ensures !ShortNameAgrees(snh) ==> SplitOnce(snh, ' ').Some?
  {
  }

  // ----- The whole tree -----

  /** The rows of a forest, in the order they are printed. */
  function Rows(forest: seq<Node>): (rows: seq<seq<string>>)
    ensures |rows| == Size(forest)
  {
    if forest == [] then [] else [forest[0].values] + Rows(forest[0].kids) + Rows(forest[1..])
  }

  ghost predicate AllDescribe(indicators: seq<string>, rows: seq<seq<string>>, records: seq<Record>) {
    |rows| == |records| && forall k :: 0 <= k < |rows| ==> Describes(indicators, rows[k], records[k])
  }

  predicate AreRecords(entries: seq<Entry>, records: seq<Record>) {
    |entries| == |records| && forall k :: 0 <= k < |entries| ==> IsRecord(entries[k], records[k])
  }

  lemma ThreeRecords(a: seq<Entry>, b: seq<Entry>, c: seq<Entry>, records: seq<Record>, i: nat, j: nat)
    requires i == |a| && j == i + |b| && j + |c| == |records|
    requires AreRecords(a, records[..i]) && AreRecords(b, records[i..j]) && AreRecords(c, records[j..])
    ensures AreRecords(a + b + c, records)
  {
    var all := a + b + c;
    forall k | 0 <= k < |all|
      ensures IsRecord(all[k], records[k])
    {
      if k < i {
        assert all[k] == a[k] && records[..i][k] == records[k];
      } else if k < j {
        assert all[k] == b[k - i] && records[i..j][k - i] == records[k];
      } else {
        assert all[k] == c[k - j] && records[j..][k - j] == records[k];
      }
    }
  }

  lemma ThreeDescribe(indicators: seq<string>, a: seq<seq<string>>, b: seq<seq<string>>, c: seq<seq<string>>,
                      records: seq<Record>, i: nat, j: nat)
    requires i == |a| && j == i + |b| && AllDescribe(indicators, a + b + c, records)
    ensures AllDescribe(indicators, a, records[..i]) && AllDescribe(indicators, b, records[i..j])
    ensures AllDescribe(indicators, c, records[j..])
  {
    hide Describes;
    var all := a + b + c;
    assert forall k :: 0 <= k < |a| ==> a[k] == all[k];
    assert forall k :: 0 <= k < |b| ==> b[k] == all[i + k];
    assert forall k :: 0 <= k < |c| ==> c[k] == all[j + k];
  }

  lemma {:induction false} EntriesAreRecords(indicators: seq<string>, forest: seq<Node>, parent: Option<nat>,
                                             base: nat, records: seq<Record>)
    requires AllDescribe(indicators, Rows(forest), records)
    ensures AreRecords(Entries(indicators, forest, parent, base), records)
    decreases forest
  {
    hide Describes, EntryWith, ChildIds, AllDescribe, IsRecord, AreRecords, Rows, Entries, Size;
    SameLength(indicators, Rows(forest), records);
    if forest == [] {
      NothingPrinted(indicators, parent, base, records);
    } else {
      RowsSplit(forest);
      EntriesSplit(indicators, forest, parent, base);
      var node, rest := forest[0], forest[1..];
      var i, j := 1, 1 + Size(node.kids);
      ThreeDescribe(indicators, [node.values], Rows(node.kids), Rows(rest), records, i, j);
      FirstRecord(indicators, node, parent, base, records);
      EntriesAreRecords(indicators, node.kids, Some(base), base + 1, records[i..j]);
      EntriesAreRecords(indicators, rest, parent, base + j, records[j..]);
      ThreeRecords([EntryWith(indicators, node.values, parent).(children := ChildIds(node.kids, base + 1))],
                   Entries(indicators, node.kids, Some(base), base + 1),
                   Entries(indicators, rest, parent, base + 1 + Size(node.kids)), records, i, j);
    }
  }

  lemma NothingPrinted(indicators: seq<string>, parent: Option<nat>, base: nat, records: seq<Record>)
    requires |records| == |Rows([])|
    ensures AreRecords(Entries(indicators, [], parent, base), records)
  {
  }

  lemma RowsSplit(forest: seq<Node>)
    requires forest != []
    ensures Rows(forest) == [forest[0].values] + Rows(forest[0].kids) + Rows(forest[1..])
    ensures Size(forest) == 1 + Size(forest[0].kids) + Size(forest[1..])
  {
  }

  lemma EntriesSplit(indicators: seq<string>, forest: seq<Node>, parent: Option<nat>, base: nat)
    requires forest != []
    ensures var node := forest[0];
            Entries(indicators, forest, parent, base) ==
            [EntryWith(indicators, node.values, parent).(children := ChildIds(node.kids, base + 1))]
            + Entries(indicators, node.kids, Some(base), base + 1)
            + Entries(indicators, forest[1..], parent, base + 1 + Size(node.kids))
  {
    hide EntryWith, ChildIds, Size;
  }

  lemma WarningsSplit(indicators: seq<string>, forest: seq<Node>, line: nat)
    requires forest != []
    ensures var node := forest[0];
            Warnings(indicators, forest, line) ==
            WarningsOf(line, indicators, node.values) + Warnings(indicators, node.kids, line + 2)
            + Warnings(indicators, forest[1..], line + 2 + 2 * Size(node.kids))
  {
    hide WarningsOf, Size;
  }

  lemma SameLength(indicators: seq<string>, rows: seq<seq<string>>, records: seq<Record>)
    requires AllDescribe(indicators, rows, records)
    ensures |rows| == |records|
  {
  }

  lemma FirstRecord(indicators: seq<string>, node: Node, parent: Option<nat>, base: nat, records: seq<Record>)
    requires records != [] && AllDescribe(indicators, [node.values], records[..1])
    ensures AreRecords([EntryWith(indicators, node.values, parent).(children := ChildIds(node.kids, base + 1))],
                       records[..1])
  {
    hide Describes, EntryWith, ChildIds;
    assert Describes(indicators, [node.values][0], records[..1][0]);
    RecordRead(indicators, node.values, parent, records[0]);
  }

  /** Row `k` is warned about with `w`. */
  ghost predicate WarnedAt(indicators: seq<string>, rows: seq<seq<string>>, line: nat, w: Warning, k: nat) {
    k < |rows| && Warned(line + 2 * k, indicators, rows[k], w)
  }

  ghost predicate WarnedSomewhere(indicators: seq<string>, rows: seq<seq<string>>, line: nat, w: Warning) {
    exists k: nat :: WarnedAt(indicators, rows, line, w, k)
  }

  lemma WarnedConcat(indicators: seq<string>, a: seq<seq<string>>, b: seq<seq<string>>, line: nat, w: Warning)
    ensures WarnedSomewhere(indicators, a + b, line, w) <==>
            WarnedSomewhere(indicators, a, line, w) || WarnedSomewhere(indicators, b, line + 2 * |a|, w)
  {
    hide Warned;
    var mid := line + 2 * |a|;
    if k: nat :| WarnedAt(indicators, a, line, w, k) {
      assert WarnedAt(indicators, a + b, line, w, k);
    }
    if k: nat :| WarnedAt(indicators, b, mid, w, k) {
      assert WarnedAt(indicators, a + b, line, w, |a| + k);
    }
    if k: nat :| WarnedAt(indicators, a + b, line, w, k) {
      if k < |a| {
        assert WarnedAt(indicators, a, line, w, k);
      } else {
        assert WarnedAt(indicators, b, mid, w, k - |a|);
      }
    }
  }

  lemma {:induction false} WarningsAre(indicators: seq<string>, forest: seq<Node>, line: nat, w: Warning)
    ensures w in Warnings(indicators, forest, line) <==> WarnedSomewhere(indicators, Rows(forest), line, w)
    decreases forest
  {
    hide Warned, WarningsOf, WarnedSomewhere, Rows, Warnings, Size;
    if forest == [] {
      NoRows(indicators, line, w);
    } else {
      RowsSplit(forest);
      WarningsSplit(indicators, forest, line);
      var node, rest := forest[0], forest[1..];
      WarnedIff(line, indicators, node.values, w);
      OneRow(indicators, node.values, line, w);
      WarningsAre(indicators, node.kids, line + 2, w);
      WarningsAre(indicators, rest, line + 2 + 2 * Size(node.kids), w);
      WarnedConcat(indicators, [node.values], Rows(node.kids), line, w);
      WarnedConcat(indicators, [node.values] + Rows(node.kids), Rows(rest), line, w);
    }
  }

  lemma NoRows(indicators: seq<string>, line: nat, w: Warning)
    ensures !WarnedSomewhere(indicators, Rows([]), line, w) && w !in Warnings(indicators, [], line)
  {
  }

  lemma OneRow(indicators: seq<string>, row: seq<string>, line: nat, w: Warning)
    ensures WarnedSomewhere(indicators, [row], line, w) <==> Warned(line, indicators, row, w)
  {
    hide Warned;
    if Warned(line, indicators, row, w) {
      assert WarnedAt(indicators, [row], line, w, 0);
    }
  }

  /** The warnings are those the rows, the first of them at `line`, call for. */
  ghost predicate AreWarnings(warnings: seq<Warning>, indicators: seq<string>, rows: seq<seq<string>>, line: nat) {
    forall w :: w in warnings <==> WarnedSomewhere(indicators, rows, line, w)
  }

  lemma AllWarningsAre(indicators: seq<string>, forest: seq<Node>, line: nat)
    ensures AreWarnings(Warnings(indicators, forest, line), indicators, Rows(forest), line)
  {
    hide Warnings, Rows, WarnedSomewhere;
    var warnings, rows := Warnings(indicators, forest, line), Rows(forest);
    forall w: Warning
      ensures w in warnings <==> WarnedSomewhere(indicators, rows, line, w)
    {
      WarningsAre(indicators, forest, line, w);
    }
  }

  /** Round trip of the fields: a forest whose rows describe records, under any indicator row, is parsed to
      entries that are those records, and is warned about exactly where a row calls for it. */
  lemma RecordsRoundTrip(before: seq<string>, indicators: seq<string>, declared: U64, forest: seq<Node>,
                         records: seq<Record>)
    requires OtherLines(before) && Printable(indicators) && PrintableForest(forest) && |forest| <= declared
    requires AllDescribe(indicators, Rows(forest), records)
    ensures var t := TreeOf(PrintTree(before, indicators, declared, forest));
            && t.Parsed? && t.value.indicators == indicators && AreRecords(t.value.arena.entries, records)
            && AreWarnings(t.value.arena.warnings, indicators, Rows(forest), |before| + 5)
  {
    hide Printable, PrintableForest, OtherLines, AllDescribe, AreRecords, AreWarnings, TreeOf, PrintTree, Entries,
         Warnings, Rows;
    RoundTrip(before, indicators, declared, forest);
    EntriesAreRecords(indicators, forest, None, 0, records);
    AllWarningsAre(indicators, forest, |before| + 5);
  }
}
