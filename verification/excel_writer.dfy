/** The page-splitting sink (`append_row_with_split`): a section of the
    workbook is a list of (sheet, row count) pairs; rows go to the last
    sheet until it holds `EXCEL_MAX_ROWS` rows, then a new sheet, titled
    after the section and its position and opened with the header row,
    takes over. */
module ExcelWriter {
  import opened Prelude

  /** Rows per worksheet in the .xlsx format. */
  const ExcelMaxRows: nat := 1048576

  /** A written cell: its text and whether it carries the highlight fill.
      A plain string in a row is a cell without the fill. */
  datatype Cell = Cell(value: string, flagged: bool)

  type Row = seq<Cell>

  datatype Sheet = Sheet(title: string, rows: seq<Row>)

  /** One entry of the sheet list: a sheet and the row count kept for it. */
  datatype Tracked = Tracked(sheet: Sheet, count: nat)

  /** The title of the `idx`-th sheet of a section, counted from 1. */
  function SheetTitle(base: string, idx: nat): string {
    base + "_" + NatToString(idx)
  }

  /** A section as it is opened: one sheet titled after the section, holding
      only the header row, with count 1. */
  function InitialSheets(base: string, header: Row): (ws: seq<Tracked>)
    ensures |ws| == 1 && ws[0].sheet.title == base && ws[0].sheet.rows == [header]
    ensures ws[0].count == |ws[0].sheet.rows|
  {
    [Tracked(Sheet(base, [header]), 1)]
  }

  /** `append_row_with_split`. The row counter argument is accepted and
      ignored. */
  function AppendRowWithSplit(wsList: seq<Tracked>, row: Row, rowCounter: int, baseTitle: string, header: Row): (r: seq<Tracked>)
    requires |wsList| > 0
    ensures |wsList| <= |r| <= |wsList| + 1
    ensures r[..|wsList| - 1] == wsList[..|wsList| - 1]
    ensures |r[|r| - 1].sheet.rows| > 0 && r[|r| - 1].sheet.rows[|r[|r| - 1].sheet.rows| - 1] == row
  {
    var last := wsList[|wsList| - 1];
    if last.count >= ExcelMaxRows then
      var started := Tracked(Sheet(SheetTitle(baseTitle, |wsList| + 1), [header]), 1);
      wsList + [Tracked(Sheet(started.sheet.title, started.sheet.rows + [row]), started.count + 1)]
    else
      wsList[..|wsList| - 1] + [Tracked(Sheet(last.sheet.title, last.sheet.rows + [row]), last.count + 1)]
  }

  /** Below the limit the row joins the last sheet, whose count grows by one;
      no sheet is created. */
  lemma AppendBelowLimit(wsList: seq<Tracked>, row: Row, rowCounter: int, baseTitle: string, header: Row)
    requires |wsList| > 0 && wsList[|wsList| - 1].count < ExcelMaxRows
    ensures var r := AppendRowWithSplit(wsList, row, rowCounter, baseTitle, header);
            var last := wsList[|wsList| - 1];
            && |r| == |wsList|
            && r[|r| - 1].sheet == Sheet(last.sheet.title, last.sheet.rows + [row])
            && r[|r| - 1].count == last.count + 1
  {
  }

  /** At the limit a new sheet is added after the full one, titled
      `<base>_<n>` where n is its 1-based position; it holds the header and
      the row, and its count is 2. */
  lemma AppendAtLimit(wsList: seq<Tracked>, row: Row, rowCounter: int, baseTitle: string, header: Row)
    requires |wsList| > 0 && wsList[|wsList| - 1].count >= ExcelMaxRows
    ensures var r := AppendRowWithSplit(wsList, row, rowCounter, baseTitle, header);
            && r == wsList + [r[|wsList|]]
            && r[|wsList|] == Tracked(Sheet(SheetTitle(baseTitle, |r|), [header, row]), 2)
  {
  }

  /** The result does not depend on the row counter. */
  lemma RowCounterIrrelevant(wsList: seq<Tracked>, row: Row, c1: int, c2: int, baseTitle: string, header: Row)
    requires |wsList| > 0
    ensures AppendRowWithSplit(wsList, row, c1, baseTitle, header)
         == AppendRowWithSplit(wsList, row, c2, baseTitle, header)
  {
  }

  /** The expected title of the sheet at (0-based) position `i`. */
  function TitleAt(base: string, i: nat): string {
    if i == 0 then base else SheetTitle(base, i + 1)
  }

  /** The entry at (0-based) position `i` of a section: its count is the
      number of rows of its sheet, between 1 and the limit (at least 2 for
      a sheet opened by a rotation, which holds a row beside the header);
      the sheet opens with the header and carries the title of its
      position. */
  predicate EntryOk(t: Tracked, i: nat, base: string, header: Row) {
    && t.count == |t.sheet.rows|
    && 1 <= t.count <= ExcelMaxRows
    && (i > 0 ==> 2 <= t.count)
    && t.sheet.rows[0] == header
    && t.sheet.title == TitleAt(base, i)
  }

  /** The invariant of a section's sheet list: every entry is as above and
      every sheet but the last is full. */
  predicate WellFormed(ws: seq<Tracked>, base: string, header: Row) {
    && |ws| > 0
    && (forall i :: 0 <= i < |ws| ==> EntryOk(ws[i], i, base, header))
    && (forall i :: 0 <= i < |ws| - 1 ==> ws[i].count == ExcelMaxRows)
  }

  lemma InitialWellFormed(base: string, header: Row)
    ensures WellFormed(InitialSheets(base, header), base, header)
  {
  }

  /** `append_row_with_split` keeps the invariant: counts stay within the
      limit and keep tracking the rows actually held. */
  lemma AppendPreservesWellFormed(ws: seq<Tracked>, row: Row, rowCounter: int, base: string, header: Row)
    requires WellFormed(ws, base, header)
    ensures WellFormed(AppendRowWithSplit(ws, row, rowCounter, base, header), base, header)
  {
    var r := AppendRowWithSplit(ws, row, rowCounter, base, header);
    var n := |ws|;
    if ws[n - 1].count >= ExcelMaxRows {
      assert r[..n] == ws;
      forall i | 0 <= i < n ensures r[i] == ws[i] {
        assert r[..n][i] == r[i];
      }
      assert EntryOk(r[n], n, base, header);
    } else {
      forall i | 0 <= i < n - 1 ensures r[i] == ws[i] {
        assert r[..n - 1][i] == ws[..n - 1][i];
      }
      assert EntryOk(r[n - 1], n - 1, base, header);
    }
  }

  /** The rows of a sheet after its header. */
  function Body(t: Tracked): seq<Row> {
    if |t.sheet.rows| == 0 then [] else t.sheet.rows[1..]
  }

  /** Every sheet's rows, each without its header, in sheet order. */
  function Content(ws: seq<Tracked>): seq<Row> {
    if |ws| == 0 then [] else Content(ws[..|ws| - 1]) + Body(ws[|ws| - 1])
  }

  /** Each call adds its row at the end of the content: nothing is lost,
      repeated or reordered by a rotation. */
  lemma AppendContent(ws: seq<Tracked>, row: Row, rowCounter: int, base: string, header: Row)
    requires WellFormed(ws, base, header)
    ensures Content(AppendRowWithSplit(ws, row, rowCounter, base, header)) == Content(ws) + [row]
  {
    var r := AppendRowWithSplit(ws, row, rowCounter, base, header);
    var last := ws[|ws| - 1];
    if last.count >= ExcelMaxRows {
      assert r[..|r| - 1] == ws;
      assert Body(r[|r| - 1]) == [row];
    } else {
      assert r[..|r| - 1] == ws[..|ws| - 1];
      assert Body(r[|r| - 1]) == Body(last) + [row];
    }
  }

  /** Rows appended one call at a time, the counter advancing by one per
      call from `counter`. */
  function AppendAll(ws: seq<Tracked>, rows: seq<Row>, counter: int, base: string, header: Row): seq<Tracked>
    requires |ws| > 0
    decreases |rows|
  {
    if |rows| == 0 then ws
    else AppendAll(AppendRowWithSplit(ws, rows[0], counter, base, header), rows[1..], counter + 1, base, header)
  }

  /** Appending a sequence of rows keeps the invariant, and the content
      grows by exactly those rows in call order. */
  lemma {:induction false} AppendAllContent(ws: seq<Tracked>, rows: seq<Row>, counter: int, base: string, header: Row)
    requires WellFormed(ws, base, header)
    ensures WellFormed(AppendAll(ws, rows, counter, base, header), base, header)
    ensures Content(AppendAll(ws, rows, counter, base, header)) == Content(ws) + rows
    decreases |rows|
  {
    if |rows| > 0 {
      var next := AppendRowWithSplit(ws, rows[0], counter, base, header);
      AppendPreservesWellFormed(ws, rows[0], counter, base, header);
      AppendContent(ws, rows[0], counter, base, header);
      AppendAllContent(next, rows[1..], counter + 1, base, header);
      assert AppendAll(ws, rows, counter, base, header) == AppendAll(next, rows[1..], counter + 1, base, header);
      HeadTail(rows);
    }
  }

  /** The content of a well-formed list is as long as its counts say: every
      full sheet holds `EXCEL_MAX_ROWS - 1` content rows, the last one its
      count minus the header. */
  lemma {:induction false} ContentSize(ws: seq<Tracked>, base: string, header: Row)
    requires WellFormed(ws, base, header)
    ensures |Content(ws)| == (|ws| - 1) * (ExcelMaxRows - 1) + ws[|ws| - 1].count - 1
  {
    if |ws| > 1 {
      var front := ws[..|ws| - 1];
      assert WellFormed(front, base, header);
      ContentSize(front, base, header);
    }
  }

  /** The number of sheets a section needs for `n` rows after its header:
      one while they fit beside the header, one more per further
      `EXCEL_MAX_ROWS - 1` rows. */
  lemma SheetCount(ws: seq<Tracked>, base: string, header: Row)
    requires WellFormed(ws, base, header)
    ensures |ws| == if |Content(ws)| == 0 then 1 else (|Content(ws)| - 1) / (ExcelMaxRows - 1) + 1
  {
    ContentSize(ws, base, header);
    var n := |Content(ws)|;
    var last: int := ws[|ws| - 1].count;
    if n > 0 {
      assert n - 1 == (|ws| - 1) * (ExcelMaxRows - 1) + (last - 2);
      assert 0 <= last - 2 < ExcelMaxRows - 1;
    }
  }

  /** Distinct positions give distinct titles. */
  lemma TitlesDistinct(base: string, i: nat, j: nat)
    requires i != j
    ensures TitleAt(base, i) != TitleAt(base, j)
  {
    if i > 0 && j > 0 {
      var prefix := |base| + 1;
      assert SheetTitle(base, i + 1)[prefix..] == NatToString(i + 1);
      assert SheetTitle(base, j + 1)[prefix..] == NatToString(j + 1);
      NatToStringInjective(i + 1, j + 1);
    } else if i > 0 {
      assert |SheetTitle(base, i + 1)| > |base|;
    } else {
      assert |SheetTitle(base, j + 1)| > |base|;
    }
  }

  /** The sheets of a well-formed section have pairwise distinct titles. */
  lemma WellFormedTitlesDistinct(ws: seq<Tracked>, base: string, header: Row)
    requires WellFormed(ws, base, header)
    ensures forall i, j :: 0 <= i < j < |ws| ==> ws[i].sheet.title != ws[j].sheet.title
  {
    forall i, j | 0 <= i < j < |ws| ensures ws[i].sheet.title != ws[j].sheet.title {
      TitlesDistinct(base, i, j);
    }
  }
}
