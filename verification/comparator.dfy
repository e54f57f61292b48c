/** The pure part of `compare_large_csv`: index both files, build the
    unified column list, split the keys into matched, only-in-file1 and
    only-in-file2, and write one section of rows per part. Two versions
    exist: one writes each section to a single sheet and counts matched
    keys, the other writes through the page-splitting sink and counts
    matched rows. */
module Comparator {
  import opened Prelude
  import opened Text
  import opened CsvIndexer
  import opened ExcelWriter

  // ---------------------------------------------------------------------
  // Columns

  /** The entries of `s` that are not in `drop`, in their order: a list
      comprehension with a filter. */
  function Erase(s: seq<string>, drop: set<string>): (r: seq<string>)
    ensures forall x :: x in r <==> x in s && x !in drop
    ensures |r| <= |s|
  {
    if |s| == 0 then []
    else (if s[0] in drop then [] else [s[0]]) + Erase(s[1..], drop)
  }

  /** Filtering distributes over concatenation, so `Erase` keeps the
      relative order of what it keeps. */
  lemma {:induction false} EraseAppend(a: seq<string>, b: seq<string>, drop: set<string>)
    ensures Erase(a + b, drop) == Erase(a, drop) + Erase(b, drop)
  {
    if |a| > 0 {
      var head := if a[0] in drop then [] else [a[0]];
      assert (a + b)[0] == a[0] && (a + b)[1..] == a[1..] + b;
      assert Erase(a + b, drop) == head + Erase(a[1..] + b, drop);
      EraseAppend(a[1..], b, drop);
      assert Erase(a, drop) == head + Erase(a[1..], drop);
      assert head + (Erase(a[1..], drop) + Erase(b, drop)) == (head + Erase(a[1..], drop)) + Erase(b, drop);
    } else {
      assert a + b == b;
    }
  }

  /** Filtering keeps a list free of duplicates. */
  lemma {:induction false} EraseNoDup(s: seq<string>, drop: set<string>)
    requires NoDup(s)
    ensures NoDup(Erase(s, drop))
  {
    if |s| > 0 {
      assert NoDup(s[1..]) by {
        forall i, j | 0 <= i < j < |s[1..]| ensures s[1..][i] != s[1..][j] {
          assert s[1..][i] == s[i + 1] && s[1..][j] == s[j + 1];
        }
      }
      EraseNoDup(s[1..], drop);
      assert s[0] !in s[1..] by {
        forall i | 0 <= i < |s[1..]| ensures s[1..][i] != s[0] {
          assert s[1..][i] == s[i + 1];
        }
      }
      NoDupConcat(if s[0] in drop then [] else [s[0]], Erase(s[1..], drop));
    }
  }

  /** Two duplicate-free lists with no element in common concatenate to a
      duplicate-free list. */
  lemma NoDupConcat(a: seq<string>, b: seq<string>)
    requires NoDup(a) && NoDup(b)
    requires forall x :: x in a ==> x !in b
    ensures NoDup(a + b)
  {
    var c := a + b;
    forall i, j | 0 <= i < j < |c| ensures c[i] != c[j] {
      if j < |a| {
        assert c[i] == a[i] && c[j] == a[j];
      } else if i >= |a| {
        assert c[i] == b[i - |a|] && c[j] == b[j - |a|];
      } else {
        assert c[i] == a[i] && c[j] == b[j - |a|];
        assert a[i] in a && b[j - |a|] in b;
      }
    }
  }

  /** The header1 columns other than the key, in header1 order. */
  function FirstColumns(keycol: string, h1: seq<string>): seq<string> {
    Erase(h1, {keycol})
  }

  /** The header2 columns that are neither the key nor in header1. */
  function SecondColumns(keycol: string, h1: seq<string>, h2: seq<string>): seq<string> {
    Erase(h2, {keycol} + Elements(h1))
  }

  /** `all_columns`: the key, then header1's other columns in order, then
      the header2 columns header1 lacks, in order. */
  function AllColumns(keycol: string, h1: seq<string>, h2: seq<string>): (cols: seq<string>)
    ensures |cols| > 0 && cols[0] == keycol
    ensures forall c :: c in cols <==> c == keycol || c in h1 || c in h2
    ensures keycol !in cols[1..]
    ensures |cols| == 1 + |FirstColumns(keycol, h1)| + |SecondColumns(keycol, h1, h2)|
    ensures cols[1..1 + |FirstColumns(keycol, h1)|] == FirstColumns(keycol, h1)
    ensures cols[1 + |FirstColumns(keycol, h1)|..] == SecondColumns(keycol, h1, h2)
    ensures forall i, j :: 0 < i < |cols| && 0 < j < |cols| && cols[i] in h1 && cols[j] !in h1 ==> i < j
  {
    var a := FirstColumns(keycol, h1);
    var b := SecondColumns(keycol, h1, h2);
    var cols := [keycol] + a + b;
    assert cols[1..] == a + b;
    assert cols[1..1 + |a|] == a;
    assert cols[1 + |a|..] == b;
    forall i | 0 < i < |cols| ensures cols[i] in h1 <==> i < 1 + |a| {
      if i < 1 + |a| {
        assert cols[i] == a[i - 1];
      } else {
        assert cols[i] == b[i - 1 - |a|];
      }
    }
    cols
  }

  /** With duplicate-free headers the unified column list has no duplicate. */
  lemma AllColumnsNoDup(keycol: string, h1: seq<string>, h2: seq<string>)
    requires NoDup(h1) && NoDup(h2)
    ensures NoDup(AllColumns(keycol, h1, h2))
  {
    var a := FirstColumns(keycol, h1);
    var b := SecondColumns(keycol, h1, h2);
    EraseNoDup(h1, {keycol});
    EraseNoDup(h2, {keycol} + Elements(h1));
    NoDupConcat(a, b);
    NoDupConcat([keycol], a + b);
    assert [keycol] + (a + b) == [keycol] + a + b;
  }

  // ---------------------------------------------------------------------
  // Partitions

  /** The three key sets the loops run over. */
  datatype Partition = Partition(both: set<string>, only1: set<string>, only2: set<string>)

  /** `keys1 & keys2`, `keys1 - keys2`, `keys2 - keys1`. */
  function Partitions(keys1: set<string>, keys2: set<string>): (p: Partition)
    ensures p.both * p.only1 == {} && p.both * p.only2 == {} && p.only1 * p.only2 == {}
    ensures p.both + p.only1 == keys1 && p.both + p.only2 == keys2
    ensures p.both + p.only1 + p.only2 == keys1 + keys2
  {
    Partition(keys1 * keys2, keys1 - keys2, keys2 - keys1)
  }

  /** Every key of file1 is written once, matched or not; likewise file2. */
  lemma PartitionSizes(keys1: set<string>, keys2: set<string>)
    ensures var p := Partitions(keys1, keys2);
            |p.both| + |p.only1| == |keys1| && |p.both| + |p.only2| == |keys2|
  {
    var p := Partitions(keys1, keys2);
    assert |p.both + p.only1| == |p.both| + |p.only1|;
    assert |p.both + p.only2| == |p.both| + |p.only2|;
  }

  // ---------------------------------------------------------------------
  // Rows

  /** `row.get(col, '')`. */
  function Get(row: map<string, string>, col: string): string {
    if col in row then row[col] else ""
  }

  /** What a fetched row shows under a column: the line's field at the
      column's position when the column names one header position within
      the line's fields, '' when the header lacks the column or the line is
      too short. */
  lemma ProjectedValue(text: string, o: nat, header: seq<string>, col: string)
    ensures col !in header ==> Get(GetRowDictByOffset(text, o, header), col) == ""
    ensures OccursOnce(header, col) ==>
              var i := IndexOf(header, col).value;
              Get(GetRowDictByOffset(text, o, header), col)
                == if i < |Fields(text, o)| then Fields(text, o)[i] else ""
  {
    var row := GetRowDictByOffset(text, o, header);
    var fields := Fields(text, o);
    var n := Min(|header|, |fields|);
    if col in header && OccursOnce(header, col) {
      var i := IndexOf(header, col).value;
      OccursOnceAtIndex(header, col, i);
      if i < |fields| {
        assert col !in header[i + 1..n];
      } else {
        assert col !in header[..n];
      }
    }
  }

  /** The header row of every section: `['SourceFile'] + all_columns`. */
  function HeaderRow(cols: seq<string>): (row: Row)
    ensures |row| == 1 + |cols| && row[0] == Cell("SourceFile", false)
    ensures forall i :: 1 <= i < |row| ==> row[i] == Cell(cols[i - 1], false)
  {
    [Cell("SourceFile", false)] + seq(|cols|, i requires 0 <= i < |cols| => Cell(cols[i], false))
  }

  /** The difference rule: a column is highlighted iff both headers have it
      and the two values (with '' for a missing one) differ. */
  predicate Differs(col: string, h1: seq<string>, h2: seq<string>, row1: map<string, string>, row2: map<string, string>) {
    col in h1 && col in h2 && Get(row1, col) != Get(row2, col)
  }

  /** The two rows written for a matched key: each source tag, then one
      cell per unified column holding that file's value, both cells of a
      column highlighted together under the difference rule. */
  function MatchPair(tag1: string, tag2: string, row1: map<string, string>, row2: map<string, string>,
                     h1: seq<string>, h2: seq<string>, cols: seq<string>): (pair: (Row, Row))
    ensures |pair.0| == 1 + |cols| && |pair.1| == 1 + |cols|
    ensures pair.0[0] == Cell(tag1, false) && pair.1[0] == Cell(tag2, false)
    ensures forall i :: 1 <= i < |pair.0| ==>
              pair.0[i] == Cell(Get(row1, cols[i - 1]), Differs(cols[i - 1], h1, h2, row1, row2))
    ensures forall i :: 1 <= i < |pair.1| ==>
              pair.1[i] == Cell(Get(row2, cols[i - 1]), Differs(cols[i - 1], h1, h2, row1, row2))
  {
    var flags := seq(|cols|, i requires 0 <= i < |cols| => Differs(cols[i], h1, h2, row1, row2));
    (TaggedRow(tag1, row1, cols, flags), TaggedRow(tag2, row2, cols, flags))
  }

  /** A tag cell followed by one cell per column: the row's value for the
      column, highlighted as `flags` says. */
  function TaggedRow(tag: string, row: map<string, string>, cols: seq<string>, flags: seq<bool>): (out: Row)
    requires |flags| == |cols|
    ensures |out| == 1 + |cols| && out[0] == Cell(tag, false)
    ensures forall i :: 1 <= i < |out| ==> out[i] == Cell(Get(row, cols[i - 1]), flags[i - 1])
  {
    [Cell(tag, false)] + seq(|cols|, i requires 0 <= i < |cols| => Cell(Get(row, cols[i]), flags[i]))
  }

  /** A column only one header has is never highlighted, whatever the
      values. */
  lemma OneSidedNeverFlagged(tag1: string, tag2: string, row1: map<string, string>, row2: map<string, string>,
                             h1: seq<string>, h2: seq<string>, cols: seq<string>, i: nat)
    requires i < |cols| && (cols[i] !in h1 || cols[i] !in h2)
    ensures !MatchPair(tag1, tag2, row1, row2, h1, h2, cols).0[i + 1].flagged
    ensures !MatchPair(tag1, tag2, row1, row2, h1, h2, cols).1[i + 1].flagged
  {
  }

  /** Swapping the files swaps the two rows and keeps every highlight. */
  lemma MatchPairSymmetric(tag1: string, tag2: string, row1: map<string, string>, row2: map<string, string>,
                           h1: seq<string>, h2: seq<string>, cols: seq<string>)
    ensures var p := MatchPair(tag1, tag2, row1, row2, h1, h2, cols);
            var q := MatchPair(tag2, tag1, row2, row1, h2, h1, cols);
            p.0 == q.1 && p.1 == q.0
  {
    var p := MatchPair(tag1, tag2, row1, row2, h1, h2, cols);
    var q := MatchPair(tag2, tag1, row2, row1, h2, h1, cols);
    assert forall i :: 1 <= i < |p.0| ==> p.0[i] == q.1[i];
    assert forall i :: 1 <= i < |p.1| ==> p.1[i] == q.0[i];
  }

  /** The row written for a key found in one file only: the source tag, then
      the file's value for every unified column; nothing is highlighted. */
  function OnlyRow(tag: string, row: map<string, string>, cols: seq<string>): (out: Row)
    ensures |out| == 1 + |cols| && out[0] == Cell(tag, false)
    ensures forall i :: 1 <= i < |out| ==> out[i] == Cell(Get(row, cols[i - 1]), false)
  {
    TaggedRow(tag, row, cols, seq(|cols|, i => false))
  }

  // ---------------------------------------------------------------------
  // Planning: both indexes and the column list

  /** A file: the name its rows are tagged with (its base name) and its
      text. */
  datatype Source = Source(name: string, text: string)

  /** The key column is missing from the header of the named file. */
  datatype CompareError = KeyColumnMissing(file: string, keycol: string)

  /** Everything the writing loops need: both indexes and headers and the
      unified column list. */
  datatype Plan = Plan(index1: map<string, nat>, header1: seq<string>,
                       index2: map<string, nat>, header2: seq<string>,
                       columns: seq<string>)

  /** Indexing both files, file1 first, then building `all_columns`. A key
      column missing from either header stops the comparison before any
      output exists, naming the first file that lacks it. */
  function PlanComparison(f1: Source, f2: Source, keycol: string): (r: Result<Plan, CompareError>)
    ensures r.Err? <==> keycol !in Header(f1.text) || keycol !in Header(f2.text)
    ensures r.Err? ==> r.error == KeyColumnMissing(if keycol !in Header(f1.text) then f1.name else f2.name, keycol)
    ensures r.Ok? ==> r.value.header1 == Header(f1.text) && r.value.header2 == Header(f2.text)
    ensures r.Ok? ==> r.value.columns == AllColumns(keycol, r.value.header1, r.value.header2)
    ensures r.Ok? ==> exists i1 :: IndexOf(Header(f1.text), keycol) == Some(i1) && IsKeyIndex(f1.text, i1, r.value.index1)
    ensures r.Ok? ==> exists i2 :: IndexOf(Header(f2.text), keycol) == Some(i2) && IsKeyIndex(f2.text, i2, r.value.index2)
  {
    match BuildKeyIndexAndHeader(f1.text, keycol)
    case Err(_) => Err(KeyColumnMissing(f1.name, keycol))
    case Ok(ix1) =>
      match BuildKeyIndexAndHeader(f2.text, keycol)
      case Err(_) => Err(KeyColumnMissing(f2.name, keycol))
      case Ok(ix2) =>
        Ok(Plan(ix1.index, ix1.header, ix2.index, ix2.header, AllColumns(keycol, ix1.header, ix2.header)))
  }

  /** The partitions of a plan's key sets. */
  function PlanPartitions(plan: Plan): Partition {
    Partitions(plan.index1.Keys, plan.index2.Keys)
  }

  /** The order in which each loop visits its key set (Python leaves the
      iteration order of a set unspecified, so it is a parameter). */
  datatype Orders = Orders(both: seq<string>, only1: seq<string>, only2: seq<string>)

  /** Each order visits its partition, every key once. */
  ghost predicate OrdersFit(plan: Plan, orders: Orders) {
    var p := PlanPartitions(plan);
    Enumerates(orders.both, p.both) && Enumerates(orders.only1, p.only1) && Enumerates(orders.only2, p.only2)
  }

  /** The matched-key rows of `key`, fetched from both files. */
  function KeyPair(f1: Source, f2: Source, plan: Plan, key: string): (Row, Row)
    requires key in plan.index1 && key in plan.index2
  {
    MatchPair(f1.name, f2.name,
              GetRowDictByOffset(f1.text, plan.index1[key], plan.header1),
              GetRowDictByOffset(f2.text, plan.index2[key], plan.header2),
              plan.header1, plan.header2, plan.columns)
  }

  /** The only-in row of `key`, fetched from one file. */
  function KeyOnlyRow(f: Source, index: map<string, nat>, header: seq<string>, cols: seq<string>, key: string): Row
    requires key in index
  {
    OnlyRow(f.name, GetRowDictByOffset(f.text, index[key], header), cols)
  }

  /** The pairs written for the matched keys, in visiting order. */
  function KeyPairs(f1: Source, f2: Source, plan: Plan, keys: seq<string>): (pairs: seq<(Row, Row)>)
    requires forall k :: k in keys ==> k in plan.index1 && k in plan.index2
    ensures |pairs| == |keys|
  {
    seq(|keys|, i requires 0 <= i < |keys| => KeyPair(f1, f2, plan, keys[i]))
  }

  /** The only-in rows written for the keys of one file, in visiting order. */
  function KeyOnlyRows(f: Source, index: map<string, nat>, header: seq<string>, cols: seq<string>, keys: seq<string>): (rows: seq<Row>)
    requires forall k :: k in keys ==> k in index
    ensures |rows| == |keys|
  {
    seq(|keys|, i requires 0 <= i < |keys| => KeyOnlyRow(f, index, header, cols, keys[i]))
  }

  /** The rows of a list of pairs in writing order: the first and then the
      second row of each pair. */
  function Flatten(pairs: seq<(Row, Row)>): seq<Row> {
    if |pairs| == 0 then [] else [pairs[0].0, pairs[0].1] + Flatten(pairs[1..])
  }

  /** Two rows per pair. */
  lemma {:induction false} FlattenLength(pairs: seq<(Row, Row)>)
    ensures |Flatten(pairs)| == 2 * |pairs|
  {
    if |pairs| > 0 {
      FlattenLength(pairs[1..]);
    }
  }

  /** Row `i` of the flattened list is the first row of pair `i / 2` when
      `i` is even and its second row when `i` is odd. */
  lemma {:induction false} FlattenIndex(pairs: seq<(Row, Row)>)
    ensures |Flatten(pairs)| == 2 * |pairs|
    ensures forall i :: 0 <= i < |Flatten(pairs)| ==>
              Flatten(pairs)[i] == if i % 2 == 0 then pairs[i / 2].0 else pairs[i / 2].1
  {
    if |pairs| > 0 {
      FlattenIndex(pairs[1..]);
      var rows := Flatten(pairs);
      var rest := Flatten(pairs[1..]);
      forall i | 2 <= i < |rows|
        ensures rows[i] == if i % 2 == 0 then pairs[i / 2].0 else pairs[i / 2].1
      {
        assert rows[i] == rest[i - 2];
        assert (i - 2) / 2 == i / 2 - 1 && (i - 2) % 2 == i % 2;
        assert pairs[1..][i / 2 - 1] == pairs[i / 2];
      }
    }
  }

  /** Two rows per matched key, every row as wide as the header row, the
      first of each pair tagged with file1's name and the second with
      file2's. */
  lemma MatchRowsShape(f1: Source, f2: Source, plan: Plan, keys: seq<string>)
    requires forall k :: k in keys ==> k in plan.index1 && k in plan.index2
    ensures var rows := Flatten(KeyPairs(f1, f2, plan, keys));
            && |rows| == 2 * |keys|
            && (forall i :: 0 <= i < |rows| ==> |rows[i]| == 1 + |plan.columns|)
            && (forall i :: 0 <= i < |rows| ==> rows[i][0] == Cell(if i % 2 == 0 then f1.name else f2.name, false))
  {
    FlattenIndex(KeyPairs(f1, f2, plan, keys));
  }

  /** One row per only-in key, as wide as the header row, tagged with its
      file's name and never highlighted. */
  lemma OnlyRowsShape(f: Source, index: map<string, nat>, header: seq<string>, cols: seq<string>, keys: seq<string>)
    requires forall k :: k in keys ==> k in index
    ensures var rows := KeyOnlyRows(f, index, header, cols, keys);
            && (forall i :: 0 <= i < |rows| ==> |rows[i]| == 1 + |cols| && rows[i][0] == Cell(f.name, false))
            && (forall i, j :: 0 <= i < |rows| && 0 <= j < |rows[i]| ==> !rows[i][j].flagged)
  {
    var rows: seq<Row> := KeyOnlyRows(f, index, header, cols, keys);
    forall i, j | 0 <= i < |rows| && 0 <= j < |rows[i]| ensures !rows[i][j].flagged {
      assert rows[i] == KeyOnlyRow(f, index, header, cols, keys[i]);
    }
  }

  // ---------------------------------------------------------------------
  // compare_csv_files.py: one sheet per section, counting matched keys

  const MatchingTitle: string := "Matching Rows"
  const Only1Title: string := "Only in File1"
  const Only2Title: string := "Only in File2"

  /** The three sheets' rows (header row included) and the three counters. */
  datatype FlatReport = FlatReport(matching: seq<Row>, only1: seq<Row>, only2: seq<Row>,
                                   matchCount: nat, only1Count: nat, only2Count: nat)

  /** A section being written to a single sheet: its rows so far and the
      loop's counter. */
  datatype FlatSection = FlatSection(rows: seq<Row>, count: nat)

  /** The matching loop of compare_csv_files.py: both rows of each pair
      appended, the counter advanced by one per key. */
  function FlatMatching(pairs: seq<(Row, Row)>, s: FlatSection): FlatSection {
    if |pairs| == 0 then s
    else FlatMatching(pairs[1..], FlatSection(s.rows + [pairs[0].0] + [pairs[0].1], s.count + 1))
  }

  /** An only-in loop of compare_csv_files.py: one row and one count per key. */
  function FlatOnly(rows: seq<Row>, s: FlatSection): FlatSection {
    if |rows| == 0 then s
    else FlatOnly(rows[1..], FlatSection(s.rows + [rows[0]], s.count + 1))
  }

  /** The matching loop appends the rows of its pairs in order and counts
      the pairs (that is, the keys). */
  lemma {:induction false} FlatMatchingMeaning(pairs: seq<(Row, Row)>, s: FlatSection)
    ensures FlatMatching(pairs, s) == FlatSection(s.rows + Flatten(pairs), s.count + |pairs|)
  {
    if |pairs| > 0 {
      var next := FlatSection(s.rows + [pairs[0].0] + [pairs[0].1], s.count + 1);
      FlatMatchingMeaning(pairs[1..], next);
      assert s.rows + [pairs[0].0] + [pairs[0].1] + Flatten(pairs[1..]) == s.rows + Flatten(pairs);
    }
  }

  /** An only-in loop appends its rows in order and counts them. */
  lemma {:induction false} FlatOnlyMeaning(rows: seq<Row>, s: FlatSection)
    ensures FlatOnly(rows, s) == FlatSection(s.rows + rows, s.count + |rows|)
  {
    if |rows| > 0 {
      FlatOnlyMeaning(rows[1..], FlatSection(s.rows + [rows[0]], s.count + 1));
      HeadTail(rows);
      assert s.rows + [rows[0]] + rows[1..] == s.rows + rows;
    }
  }

  /** The three single-sheet loops over the rows of a plan: each sheet
      starts with the header row and each counter at 0. */
  function FlatWrite(header: Row, pairs: seq<(Row, Row)>, rows1: seq<Row>, rows2: seq<Row>): FlatReport {
    var m := FlatMatching(pairs, FlatSection([header], 0));
    var o1 := FlatOnly(rows1, FlatSection([header], 0));
    var o2 := FlatOnly(rows2, FlatSection([header], 0));
    FlatReport(m.rows, o1.rows, o2.rows, m.count, o1.count, o2.count)
  }

  /** Each sheet is the header row followed by its section's rows, in
      order; the counters count pairs and rows. */
  lemma FlatWriteMeaning(header: Row, pairs: seq<(Row, Row)>, rows1: seq<Row>, rows2: seq<Row>)
    ensures var r := FlatWrite(header, pairs, rows1, rows2);
            && r.matching == [header] + Flatten(pairs) && r.matchCount == |pairs|
            && r.only1 == [header] + rows1 && r.only1Count == |rows1|
            && r.only2 == [header] + rows2 && r.only2Count == |rows2|
            && |r.matching| == 1 + 2 * r.matchCount
  {
    FlatMatchingMeaning(pairs, FlatSection([header], 0));
    FlatOnlyMeaning(rows1, FlatSection([header], 0));
    FlatOnlyMeaning(rows2, FlatSection([header], 0));
    FlattenLength(pairs);
  }

  /** The writing phase of compare_csv_files.py for a plan, visiting each
      part in its order. */
  function WriteFlat(f1: Source, f2: Source, plan: Plan, orders: Orders): FlatReport
    requires OrdersFit(plan, orders)
  {
    FlatWrite(HeaderRow(plan.columns), KeyPairs(f1, f2, plan, orders.both),
              KeyOnlyRows(f1, plan.index1, plan.header1, plan.columns, orders.only1),
              KeyOnlyRows(f2, plan.index2, plan.header2, plan.columns, orders.only2))
  }

  /** `compare_large_csv` of compare_csv_files.py. */
  function CompareCsvFiles(f1: Source, f2: Source, keycol: string, orders: Orders): (r: Result<FlatReport, CompareError>)
    requires PlanComparison(f1, f2, keycol).Ok? ==> OrdersFit(PlanComparison(f1, f2, keycol).value, orders)
    ensures r.Err? <==> keycol !in Header(f1.text) || keycol !in Header(f2.text)
    ensures r.Err? ==> r.error == KeyColumnMissing(if keycol !in Header(f1.text) then f1.name else f2.name, keycol)
  {
    match PlanComparison(f1, f2, keycol)
    case Err(e) => Err(e)
    case Ok(plan) => Ok(WriteFlat(f1, f2, plan, orders))
  }

  /** What compare_csv_files.py writes: every sheet opens with the header
      row; the matching sheet then holds the two rows of every matched key,
      each only-in sheet one row per key of its part; the counters count
      keys. */
  lemma FlatReportMeaning(f1: Source, f2: Source, plan: Plan, orders: Orders)
    requires OrdersFit(plan, orders)
    ensures var r := WriteFlat(f1, f2, plan, orders);
            var p := PlanPartitions(plan);
            var header := HeaderRow(plan.columns);
            && r.matching == [header] + Flatten(KeyPairs(f1, f2, plan, orders.both))
            && r.only1 == [header] + KeyOnlyRows(f1, plan.index1, plan.header1, plan.columns, orders.only1)
            && r.only2 == [header] + KeyOnlyRows(f2, plan.index2, plan.header2, plan.columns, orders.only2)
            && r.matchCount == |p.both| && r.only1Count == |p.only1| && r.only2Count == |p.only2|
            && |r.matching| == 1 + 2 * r.matchCount
  {
    var p := PlanPartitions(plan);
    FlatWriteMeaning(HeaderRow(plan.columns), KeyPairs(f1, f2, plan, orders.both),
                     KeyOnlyRows(f1, plan.index1, plan.header1, plan.columns, orders.only1),
                     KeyOnlyRows(f2, plan.index2, plan.header2, plan.columns, orders.only2));
    EnumerationSize(orders.both, p.both);
    EnumerationSize(orders.only1, p.only1);
    EnumerationSize(orders.only2, p.only2);
  }

  // ---------------------------------------------------------------------
  // comparator.py: sections written through the page-splitting sink,
  // counting matched rows

  /** The three sections' sheet lists and the three counters. */
  datatype Report = Report(matching: seq<Tracked>, only1: seq<Tracked>, only2: seq<Tracked>,
                           matchCount: nat, only1Count: nat, only2Count: nat)

  /** A section being written through the sink: its sheet list and the
      loop's counter. */
  datatype Section = Section(sheets: seq<Tracked>, count: nat)

  /** The matching loop of comparator.py: both rows of each pair go
      through the sink in turn, the row counters running on from the loop
      counter plus one, and the counter advances by two per key. */
  function PagedMatching(pairs: seq<(Row, Row)>, header: Row, s: Section): Section
    requires |s.sheets| > 0
  {
    Section(AppendAll(s.sheets, Flatten(pairs), s.count + 1, MatchingTitle, header), s.count + 2 * |pairs|)
  }

  /** An only-in loop of comparator.py: one row through the sink and one
      count per key. */
  function PagedOnly(rows: seq<Row>, title: string, header: Row, s: Section): Section
    requires |s.sheets| > 0
  {
    Section(AppendAll(s.sheets, rows, s.count + 1, title, header), s.count + |rows|)
  }

  /** The three paged loops over the rows of a plan: each section opens
      as a single sheet holding the header row, with count 1, and each
      counter at 0. */
  function PagedWrite(header: Row, pairs: seq<(Row, Row)>, rows1: seq<Row>, rows2: seq<Row>): Report {
    var m := PagedMatching(pairs, header, Section(InitialSheets(MatchingTitle, header), 0));
    var o1 := PagedOnly(rows1, Only1Title, header, Section(InitialSheets(Only1Title, header), 0));
    var o2 := PagedOnly(rows2, Only2Title, header, Section(InitialSheets(Only2Title, header), 0));
    Report(m.sheets, o1.sheets, o2.sheets, m.count, o1.count, o2.count)
  }

  /** Each section is a well-formed sheet list whose rows after the headers
      are exactly its section's rows, in order; the matching counter counts
      rows (two per pair), the others count rows. */
  lemma PagedWriteMeaning(header: Row, pairs: seq<(Row, Row)>, rows1: seq<Row>, rows2: seq<Row>)
    ensures var r := PagedWrite(header, pairs, rows1, rows2);
            && WellFormed(r.matching, MatchingTitle, header)
            && WellFormed(r.only1, Only1Title, header)
            && WellFormed(r.only2, Only2Title, header)
            && Content(r.matching) == Flatten(pairs) && r.matchCount == 2 * |pairs|
            && Content(r.only1) == rows1 && r.only1Count == |rows1|
            && Content(r.only2) == rows2 && r.only2Count == |rows2|
  {
    InitialWellFormed(MatchingTitle, header);
    InitialWellFormed(Only1Title, header);
    InitialWellFormed(Only2Title, header);
    AppendAllContent(InitialSheets(MatchingTitle, header), Flatten(pairs), 1, MatchingTitle, header);
    AppendAllContent(InitialSheets(Only1Title, header), rows1, 1, Only1Title, header);
    AppendAllContent(InitialSheets(Only2Title, header), rows2, 1, Only2Title, header);
  }

  /** The writing phase of comparator.py for a plan, visiting each part in
      its order. */
  function WritePaged(f1: Source, f2: Source, plan: Plan, orders: Orders): Report
    requires OrdersFit(plan, orders)
  {
    PagedWrite(HeaderRow(plan.columns), KeyPairs(f1, f2, plan, orders.both),
               KeyOnlyRows(f1, plan.index1, plan.header1, plan.columns, orders.only1),
               KeyOnlyRows(f2, plan.index2, plan.header2, plan.columns, orders.only2))
  }

  /** `compare_large_csv` of comparator.py. */
  function CompareLargeCsv(f1: Source, f2: Source, keycol: string, orders: Orders): (r: Result<Report, CompareError>)
    requires PlanComparison(f1, f2, keycol).Ok? ==> OrdersFit(PlanComparison(f1, f2, keycol).value, orders)
    ensures r.Err? <==> keycol !in Header(f1.text) || keycol !in Header(f2.text)
    ensures r.Err? ==> r.error == KeyColumnMissing(if keycol !in Header(f1.text) then f1.name else f2.name, keycol)
  {
    match PlanComparison(f1, f2, keycol)
    case Err(e) => Err(e)
    case Ok(plan) => Ok(WritePaged(f1, f2, plan, orders))
  }

  /** What comparator.py writes: every section is a well-formed sheet list
      (each sheet opens with the header row, is titled by its position and
      holds no more rows than the limit, and its count is its row count);
      the sections hold the rows of the single-sheet version; the counters
      are twice the matched keys and the number of keys in each only-in
      part. */
  lemma PagedReportMeaning(f1: Source, f2: Source, plan: Plan, orders: Orders)
    requires OrdersFit(plan, orders)
    ensures var r := WritePaged(f1, f2, plan, orders);
            var p := PlanPartitions(plan);
            var header := HeaderRow(plan.columns);
            && WellFormed(r.matching, MatchingTitle, header)
            && WellFormed(r.only1, Only1Title, header)
            && WellFormed(r.only2, Only2Title, header)
            && Content(r.matching) == Flatten(KeyPairs(f1, f2, plan, orders.both))
            && Content(r.only1) == KeyOnlyRows(f1, plan.index1, plan.header1, plan.columns, orders.only1)
            && Content(r.only2) == KeyOnlyRows(f2, plan.index2, plan.header2, plan.columns, orders.only2)
            && r.matchCount == 2 * |p.both| && r.only1Count == |p.only1| && r.only2Count == |p.only2|
  {
    var p := PlanPartitions(plan);
    PagedWriteMeaning(HeaderRow(plan.columns), KeyPairs(f1, f2, plan, orders.both),
                      KeyOnlyRows(f1, plan.index1, plan.header1, plan.columns, orders.only1),
                      KeyOnlyRows(f2, plan.index2, plan.header2, plan.columns, orders.only2));
    EnumerationSize(orders.both, p.both);
    EnumerationSize(orders.only1, p.only1);
    EnumerationSize(orders.only2, p.only2);
  }

  /** The two versions write the same rows: the rows of each paged section,
      every sheet's header row dropped, are the rows after the header of the
      corresponding single sheet; the matching counter of the paged version
      is twice that of the other. */
  lemma PagedAgreesWithFlat(f1: Source, f2: Source, plan: Plan, orders: Orders)
    requires OrdersFit(plan, orders)
    ensures var paged := WritePaged(f1, f2, plan, orders);
            var flat := WriteFlat(f1, f2, plan, orders);
            && [HeaderRow(plan.columns)] + Content(paged.matching) == flat.matching
            && [HeaderRow(plan.columns)] + Content(paged.only1) == flat.only1
            && [HeaderRow(plan.columns)] + Content(paged.only2) == flat.only2
            && paged.matchCount == 2 * flat.matchCount
            && paged.only1Count == flat.only1Count && paged.only2Count == flat.only2Count
  {
    FlatReportMeaning(f1, f2, plan, orders);
    PagedReportMeaning(f1, f2, plan, orders);
  }

  // ---------------------------------------------------------------------
  // The key column of a matched pair

  /** For a matched key, when the key column names exactly one position in
      each header, both rows show the key itself in the key column (the
      first column after the tag), and that column is never highlighted.
      Stated for any plan whose entries for the key point at data lines
      carrying it at the key column's position, as `IsKeyIndex` (promised
      by `PlanComparison`) guarantees for every entry. */
  lemma MatchedKeyColumn(f1: Source, f2: Source, plan: Plan, keycol: string, i1: nat, i2: nat, k: string)
    requires |plan.columns| > 0 && plan.columns[0] == keycol
    requires IndexOf(plan.header1, keycol) == Some(i1) && OccursOnce(plan.header1, keycol)
    requires IndexOf(plan.header2, keycol) == Some(i2) && OccursOnce(plan.header2, keycol)
    requires k in plan.index1 && k in plan.index2
    requires KeyedLine(f1.text, i1, plan.index1[k], k) && KeyedLine(f2.text, i2, plan.index2[k], k)
    ensures KeyPair(f1, f2, plan, k).0[1] == Cell(k, false)
    ensures KeyPair(f1, f2, plan, k).1[1] == Cell(k, false)
  {
    OccursOnceAtIndex(plan.header1, keycol, i1);
    OccursOnceAtIndex(plan.header2, keycol, i2);
    FetchKeyedLine(f1.text, i1, plan.index1[k], k, plan.header1);
    FetchKeyedLine(f2.text, i2, plan.index2[k], k, plan.header2);
  }
}
