/** `parseSchedule` and `splitTableRow` (script.js:950-974, 987-992): the lines of a
    section that start with `|` form a pipe table; the first gives the headers,
    the second is skipped as the separator, and each later line whose cell count
    matches the headers becomes a row keyed by header. */
module Schedule {
  import opened Strings

  /** A schedule row: the value of each header. */
  type Row = map<string, string>

  datatype Schedule = Schedule(headers: seq<string>, rows: seq<Row>)

  /** The trimmed parts that are not empty, in order. */
  function NonEmptyTrimmed(parts: seq<string>): (cells: seq<string>)
    ensures forall i :: 0 <= i < |cells| ==> cells[i] != [] && IsTrimmed(cells[i])
  {
    if parts == [] then []
    else
      var cell := Trim(parts[0]);
      (if cell != [] then [cell] else []) + NonEmptyTrimmed(parts[1..])
  }

  /** `splitTableRow`: the trimmed, non-empty pieces between the `|` characters. */
  function Cells(row: string): seq<string> {
    NonEmptyTrimmed(Split(row, '|'))
  }

  /** The cells hold no `|`. */
  lemma {:induction false} NonEmptyTrimmedFrom(parts: seq<string>)
    requires forall i :: 0 <= i < |parts| ==> '|' !in parts[i]
    ensures forall c :: c in NonEmptyTrimmed(parts) ==> '|' !in c
    decreases |parts|
  {
    if parts != [] {
      NonEmptyTrimmedFrom(parts[1..]);
      TrimSlice(parts[0]);
      var cell := Trim(parts[0]);
      var i := |parts[0]| - |TrimStart(parts[0])|;
      assert cell == parts[0][i..i + |cell|];
      assert forall k :: 0 <= k < |cell| ==> cell[k] == parts[0][i + k];
    }
  }

  lemma CellsHaveNoBar(row: string)
    ensures forall c :: c in Cells(row) ==> c != [] && IsTrimmed(c) && '|' !in c
  {
    NonEmptyTrimmedFrom(Split(row, '|'));
  }

  /** The trimmed lines that start with `|`, in order. */
  function TableLines(lines: seq<string>): (table: seq<string>)
    ensures |table| <= |lines|
    ensures forall i :: 0 <= i < |table| ==> StartsWith(table[i], "|") && IsTrimmed(table[i])
  {
    if lines == [] then []
    else
      var line := Trim(lines[0]);
      (if StartsWith(line, "|") then [line] else []) + TableLines(lines[1..])
  }

  /** The row the source builds from matching headers and cells: each header in
      turn is set to its cell, so a later duplicate header overwrites an earlier
      one. */
  function MakeRow(headers: seq<string>, cells: seq<string>): Row
    requires |headers| == |cells|
    decreases |headers|
  {
    if headers == [] then map[]
    else
      var n := |headers| - 1;
      MakeRow(headers[..n], cells[..n])[headers[n] := cells[n]]
  }

  /** A row has exactly the headers as keys, and each header holds the cell at
      its last position among the headers. */
  lemma {:induction false} MakeRowSpec(headers: seq<string>, cells: seq<string>)
    requires |headers| == |cells|
    ensures forall h :: h in MakeRow(headers, cells) <==> h in headers
    ensures forall i :: (0 <= i < |headers| && (forall j :: i < j < |headers| ==> headers[j] != headers[i]))
                        ==> MakeRow(headers, cells)[headers[i]] == cells[i]
    decreases |headers|
  {
    if headers != [] {
      var n := |headers| - 1;
      MakeRowSpec(headers[..n], cells[..n]);
      assert headers == headers[..n] + [headers[n]];
      forall i | 0 <= i < |headers| && (forall j :: i < j < |headers| ==> headers[j] != headers[i])
        ensures MakeRow(headers, cells)[headers[i]] == cells[i]
      {
        if i < n {
          assert headers[..n][i] == headers[i];
          assert forall j :: i < j < n ==> headers[..n][j] == headers[j];
        }
      }
    }
  }

  /** With distinct headers, each header holds its own cell. */
  lemma MakeRowDistinct(headers: seq<string>, cells: seq<string>)
    requires |headers| == |cells|
    requires forall i, j :: 0 <= i < j < |headers| ==> headers[i] != headers[j]
    ensures MakeRow(headers, cells).Keys == set h | h in headers
    ensures forall i :: 0 <= i < |headers| ==> MakeRow(headers, cells)[headers[i]] == cells[i]
  {
    MakeRowSpec(headers, cells);
  }

  /** The row a data line gives, when its cell count matches the headers. */
  function RowOf(headers: seq<string>, line: string): seq<Row> {
    var cells := Cells(line);
    if |cells| == |headers| then [MakeRow(headers, cells)] else []
  }

  /** The rows of the data lines, in order. */
  function Rows(headers: seq<string>, lines: seq<string>): seq<Row>
    decreases |lines|
  {
    if lines == [] then []
    else Rows(headers, lines[..|lines| - 1]) + RowOf(headers, lines[|lines| - 1])
  }

  /** The schedule of the table lines: nothing unless there are at least two. */
  function ScheduleOfTable(table: seq<string>): Schedule {
    if |table| < 2 then Schedule([], [])
    else
      var headers := Cells(table[0]);
      Schedule(headers, Rows(headers, table[2..]))
  }

  /** The schedule of a section, declaratively. */
  function ScheduleOf(section: string): Schedule {
    if section == [] then Schedule([], []) else ScheduleOfTable(TableLines(Split(section, '\n')))
  }

  /** The source's inner `forEach` over the headers, setting each to its cell. */
  method BuildRow(headers: seq<string>, cells: seq<string>) returns (row: Row)
    requires |headers| == |cells|
    ensures row == MakeRow(headers, cells)
  {
    row := map[];
    for i := 0 to |headers|
      invariant row == MakeRow(headers[..i], cells[..i])
    {
      assert headers[..i + 1][..i] == headers[..i] && cells[..i + 1][..i] == cells[..i];
      row := row[headers[i] := cells[i]];
    }
    assert headers[..|headers|] == headers && cells[..|cells|] == cells;
  }

  /** `parseSchedule`. */
  method ParseSchedule(section: string) returns (schedule: Schedule)
    ensures schedule == ScheduleOf(section)
  {
    if section == [] {
      return Schedule([], []);
    }
    var lines := TableLines(Split(section, '\n'));
    if |lines| < 2 {
      return Schedule([], []);
    }
    var headers := Cells(lines[0]);
    var rows: seq<Row> := [];
    for i := 2 to |lines|
      invariant rows == Rows(headers, lines[2..i])
    {
      RowsStep(headers, lines, i);
      var cells := Cells(lines[i]);
      if |cells| == |headers| {
        var row := BuildRow(headers, cells);
        rows := rows + [row];
      }
    }
    assert lines[2..|lines|] == lines[2..];
    return Schedule(headers, rows);
  }

  /** One more data line adds its row, if any, at the end. */
  lemma RowsStep(headers: seq<string>, lines: seq<string>, i: nat)
    requires 2 <= i < |lines|
    ensures Rows(headers, lines[2..i + 1]) == Rows(headers, lines[2..i]) + RowOf(headers, lines[i])
  {
    assert lines[2..i + 1] == lines[2..i] + [lines[i]];
    RowsSnocLine(headers, lines[2..i], lines[i]);
  }

  /** Each data line contributes on its own: a line whose cell count differs from
      the headers is dropped and the lines after it are still read. */
  lemma {:induction false} RowsConcat(headers: seq<string>, a: seq<string>, b: seq<string>)
    ensures Rows(headers, a + b) == Rows(headers, a) + Rows(headers, b)
    decreases |b|
  {
    if b == [] {
      assert a + b == a;
    } else {
      var n := |b| - 1;
      assert (a + b)[..|a + b| - 1] == a + b[..n];
      RowsConcat(headers, a, b[..n]);
    }
  }

  /** Every row has exactly the headers as keys. */
  lemma {:induction false} RowsKeys(headers: seq<string>, lines: seq<string>)
    ensures forall r :: r in Rows(headers, lines) ==> forall h :: h in r <==> h in headers
    decreases |lines|
  {
    if lines != [] {
      RowsKeys(headers, lines[..|lines| - 1]);
      var cells := Cells(lines[|lines| - 1]);
      if |cells| == |headers| {
        MakeRowSpec(headers, cells);
      }
    }
  }

  /** Every row of a schedule has exactly one value per header. */
  lemma ScheduleRowsKeyed(section: string)
    ensures var s := ScheduleOf(section);
      forall r :: r in s.rows ==> forall h :: h in r <==> h in s.headers
  {
    if section != [] {
      var table := TableLines(Split(section, '\n'));
      if |table| >= 2 {
        RowsKeys(Cells(table[0]), table[2..]);
      }
    }
  }

  /** The second table line never matters: it is skipped as the separator. */
  lemma SeparatorIgnored(table: seq<string>, separator: string)
    requires |table| >= 2
    ensures ScheduleOfTable(table[1 := separator]) == ScheduleOfTable(table)
  {
    assert table[1 := separator][2..] == table[2..];
  }

  /** With fewer than two table lines there are no headers and no rows. */
  lemma ShortTableEmpty(section: string)
    requires section == [] || |TableLines(Split(section, '\n'))| < 2
    ensures ScheduleOf(section) == Schedule([], [])
  {
  }

  // ------------------------------------------------------------------ rendering

  /** The cells of a table line after its leading `|`: ` <cell> |` each. */
  function CellsText(cells: seq<string>): string {
    if cells == [] then [] else " " + cells[0] + " |" + CellsText(cells[1..])
  }

  /** A table line as the source renders one: `| a | b | c |`. */
  function RowLine(cells: seq<string>): string {
    "|" + CellsText(cells)
  }

  /** A cell read back unchanged: non-empty, trimmed, without `|` or a line feed. */
  predicate PlainCell(cell: string) {
    cell != [] && IsTrimmed(cell) && '|' !in cell && '\n' !in cell
  }

  lemma SplitAtFirst(u: string, v: string, sep: char)
    requires sep !in u
    ensures Split(u + [sep] + v, sep) == [u] + Split(v, sep)
  {
    var s := u + [sep] + v;
    assert s[..|u|] == u;
    assert s[|u| + 1..] == v;
    assert IndexOf(s, sep) == |u| by {
      assert sep !in s[..|u|];
      assert s[|u|] == sep;
      IndexOfIs(s, sep, |u|);
    }
  }

  lemma {:induction false} IndexOfIs(s: string, c: char, k: nat)
    requires k < |s| && s[k] == c && c !in s[..k]
    ensures IndexOf(s, c) == k
    decreases k
  {
    if k > 0 {
      assert s[0] == s[..k][0];
      assert s[1..][..k - 1] == s[..k][1..];
      IndexOfIs(s[1..], c, k - 1);
    }
  }

  lemma {:induction false} CellsOfCellsText(cells: seq<string>)
    requires forall i :: 0 <= i < |cells| ==> PlainCell(cells[i])
    ensures NonEmptyTrimmed(Split(CellsText(cells), '|')) == cells
    decreases |cells|
  {
    if cells == [] {
      var empty: string := [];
      assert Split(empty, '|') == [empty];
      assert NonEmptyTrimmed([empty]) == [] by {
        assert Trim(empty) == [];
        assert [empty][1..] == [];
      }
    } else {
      var part := " " + cells[0] + " ";
      assert CellsText(cells) == part + ['|'] + CellsText(cells[1..]);
      assert '|' !in part;
      SplitAtFirst(part, CellsText(cells[1..]), '|');
      TrimPadded(" ", cells[0], " ");
      CellsOfCellsText(cells[1..]);
      var parts := [part] + Split(CellsText(cells[1..]), '|');
      assert parts[1..] == Split(CellsText(cells[1..]), '|');
    }
  }

  /** `splitTableRow` of a rendered line gives its cells back. */
  lemma CellsOfRowLine(cells: seq<string>)
    requires forall i :: 0 <= i < |cells| ==> PlainCell(cells[i])
    ensures Cells(RowLine(cells)) == cells
  {
    SplitAtFirst([], CellsText(cells), '|');
    assert RowLine(cells) == [] + ['|'] + CellsText(cells);
    CellsOfCellsText(cells);
    var parts := [[]] + Split(CellsText(cells), '|');
    assert parts[1..] == Split(CellsText(cells), '|');
    assert Trim([]) == [];
  }

  /** The values of a row under the headers, in header order. */
  function RowCells(headers: seq<string>, row: Row): (cells: seq<string>)
    requires forall h :: h in headers ==> h in row
    ensures |cells| == |headers|
    ensures forall i :: 0 <= i < |headers| ==> cells[i] == row[headers[i]]
  {
    if headers == [] then [] else [row[headers[0]]] + RowCells(headers[1..], row)
  }

  /** Every row holds a value for every header. */
  predicate Keyed(headers: seq<string>, rows: seq<Row>) {
    forall r :: r in rows ==> forall h :: h in headers ==> h in r
  }

  /** One rendered line per row, in order. */
  function RowLines(headers: seq<string>, rows: seq<Row>): (lines: seq<string>)
    requires Keyed(headers, rows)
    ensures |lines| == |rows|
    decreases |rows|
  {
    if rows == [] then []
    else
      var n := |rows| - 1;
      assert forall r :: r in rows[..n] ==> r in rows;
      assert rows[n] in rows;
      RowLines(headers, rows[..n]) + [RowLine(RowCells(headers, rows[n]))]
  }

  /** A pipe table as the source renders one (script.js:815-820): the header
      line, a separator line and one line per row. */
  function RenderTable(headers: seq<string>, separator: seq<string>, rows: seq<Row>): string
    requires Keyed(headers, rows)
  {
    Join([RowLine(headers), RowLine(separator)] + RowLines(headers, rows), '\n')
  }

  /** Rows that a rendered table gives back: keyed by exactly the headers, with
      plain values. */
  ghost predicate PlainRows(headers: seq<string>, rows: seq<Row>) {
    forall r :: r in rows ==> PlainRow(headers, r)
  }

  /** A row keyed by exactly the headers, with plain values. */
  ghost predicate PlainRow(headers: seq<string>, row: Row) {
    (forall h :: h in row <==> h in headers) && forall h :: h in row ==> PlainCell(row[h])
  }

  /** Parsing a rendered table with distinct plain headers gives back its
      headers and rows. */
  lemma ScheduleRender(headers: seq<string>, separator: seq<string>, rows: seq<Row>)
    requires forall i :: 0 <= i < |headers| ==> PlainCell(headers[i])
    requires forall i, j :: 0 <= i < j < |headers| ==> headers[i] != headers[j]
    requires forall i :: 0 <= i < |separator| ==> PlainCell(separator[i])
    requires Keyed(headers, rows) && PlainRows(headers, rows)
    ensures ScheduleOf(RenderTable(headers, separator, rows)) == Schedule(headers, rows)
  {
    var rowLines := RowLines(headers, rows);
    var lines := [RowLine(headers), RowLine(separator)] + rowLines;
    var text := Join(lines, '\n');
    RowLinesShape(headers, rows);
    forall i | 0 <= i < |lines| ensures '\n' !in lines[i] && Trim(lines[i]) == lines[i] && StartsWith(lines[i], "|") {
      if i == 0 {
        RenderedLine(headers);
      } else if i == 1 {
        RenderedLine(separator);
      } else {
        assert lines[i] == rowLines[i - 2];
      }
    }
    SplitJoin(lines, '\n');
    assert text != [] by {
      assert Join(lines, '\n') == lines[0] + ['\n'] + Join(lines[1..], '\n');
    }
    TableLinesOfTrimmed(lines);
    CellsOfRowLine(headers);
    assert lines[2..] == rowLines;
    RowsOfRendered(headers, rows);
  }

  /** Every rendered row line is trimmed, starts with `|` and has no line feed. */
  lemma {:induction false} RowLinesShape(headers: seq<string>, rows: seq<Row>)
    requires Keyed(headers, rows) && PlainRows(headers, rows)
    ensures forall i :: 0 <= i < |rows| ==> var line := RowLines(headers, rows)[i];
      '\n' !in line && Trim(line) == line && StartsWith(line, "|")
    decreases |rows|
  {
    if rows != [] {
      var n := |rows| - 1;
      assert forall r :: r in rows[..n] ==> r in rows;
      RowLinesShape(headers, rows[..n]);
      var last := rows[n];
      assert last in rows;
      var cells := RowCells(headers, last);
      assert forall k :: 0 <= k < |cells| ==> PlainCell(cells[k]) by {
        assert forall k :: 0 <= k < |cells| ==> headers[k] in last;
      }
      RenderedLine(cells);
    }
  }

  /** A rendered line has no line feed, is trimmed and starts with `|`. */
  lemma RenderedLine(cells: seq<string>)
    requires forall k :: 0 <= k < |cells| ==> PlainCell(cells[k])
    ensures '\n' !in RowLine(cells) && Trim(RowLine(cells)) == RowLine(cells) && StartsWith(RowLine(cells), "|")
  {
    CellsTextShape(cells);
    var line := RowLine(cells);
    assert line[0] == '|';
    assert line[|line| - 1] == '|';
    TrimTrimmed(line);
    assert line[..1] == "|";
  }

  lemma {:induction false} CellsTextShape(cells: seq<string>)
    requires forall k :: 0 <= k < |cells| ==> PlainCell(cells[k])
    ensures '\n' !in CellsText(cells)
    ensures cells != [] ==> |CellsText(cells)| > 0 && CellsText(cells)[|CellsText(cells)| - 1] == '|'
    decreases |cells|
  {
    if cells != [] {
      CellsTextShape(cells[1..]);
    }
  }

  lemma {:induction false} TableLinesOfTrimmed(lines: seq<string>)
    requires forall i :: 0 <= i < |lines| ==> Trim(lines[i]) == lines[i] && StartsWith(lines[i], "|")
    ensures TableLines(lines) == lines
    decreases |lines|
  {
    if lines != [] {
      TableLinesOfTrimmed(lines[1..]);
      assert lines == [lines[0]] + lines[1..];
    }
  }

  /** The rendered line of a plain row gives that row back. */
  lemma RowOfRendered(headers: seq<string>, row: Row)
    requires forall i :: 0 <= i < |headers| ==> PlainCell(headers[i])
    requires forall i, j :: 0 <= i < j < |headers| ==> headers[i] != headers[j]
    requires PlainRow(headers, row)
    ensures RowOf(headers, RowLine(RowCells(headers, row))) == [row]
  {
    var cells := RowCells(headers, row);
    assert forall k :: 0 <= k < |cells| ==> PlainCell(cells[k]) by {
      assert forall k :: 0 <= k < |cells| ==> headers[k] in row;
    }
    CellsOfRowLine(cells);
    MakeRowDistinct(headers, cells);
    var made := MakeRow(headers, cells);
    assert made.Keys == row.Keys;
    forall h | h in row ensures made[h] == row[h] {
      var i :| 0 <= i < |headers| && headers[i] == h;
    }
    assert made == row;
    var line := RowLine(cells);
    assert Cells(line) == cells;
    assert |Cells(line)| == |headers|;
    assert RowOf(headers, line) == [made];
  }

  lemma {:induction false} RowsOfRendered(headers: seq<string>, rows: seq<Row>)
    requires forall i :: 0 <= i < |headers| ==> PlainCell(headers[i])
    requires forall i, j :: 0 <= i < j < |headers| ==> headers[i] != headers[j]
    requires Keyed(headers, rows) && PlainRows(headers, rows)
    ensures Rows(headers, RowLines(headers, rows)) == rows
    decreases |rows|
  {
    if rows != [] {
      var n := |rows| - 1;
      RowsPrefix(headers, rows);
      RowsOfRendered(headers, rows[..n]);
      RowOfRendered(headers, rows[n]);
      RowLinesSnoc(headers, rows);
      RowsSnocLine(headers, RowLines(headers, rows[..n]), RowLine(RowCells(headers, rows[n])));
      Snoc(rows);
    }
  }

  /** The rows before the last one, and the last one, keep what the table demands. */
  lemma RowsPrefix(headers: seq<string>, rows: seq<Row>)
    requires rows != [] && Keyed(headers, rows) && PlainRows(headers, rows)
    ensures Keyed(headers, rows[..|rows| - 1]) && PlainRows(headers, rows[..|rows| - 1])
    ensures PlainRow(headers, rows[|rows| - 1])
  {
    var n := |rows| - 1;
    assert rows[n] in rows;
    assert Keyed(headers, rows[..n]) && PlainRows(headers, rows[..n]) by {
      assert forall r :: r in rows[..n] ==> r in rows;
    }
  }

  lemma RowLinesSnoc(headers: seq<string>, rows: seq<Row>)
    requires rows != [] && Keyed(headers, rows)
    ensures Keyed(headers, rows[..|rows| - 1]) && rows[|rows| - 1] in rows
    ensures RowLines(headers, rows)
      == RowLines(headers, rows[..|rows| - 1]) + [RowLine(RowCells(headers, rows[|rows| - 1]))]
  {
    var n := |rows| - 1;
    assert rows[n] in rows;
    assert Keyed(headers, rows[..n]) by {
      assert forall r :: r in rows[..n] ==> r in rows;
    }
  }

  lemma RowsSnocLine(headers: seq<string>, lines: seq<string>, line: string)
    ensures Rows(headers, lines + [line]) == Rows(headers, lines) + RowOf(headers, line)
  {
    assert (lines + [line])[..|lines|] == lines;
  }


  /** The columns of the implementation timeline the source renders. */
  const TimelineColumns: seq<string> := ["Milestone", "Description", "Due"]

  /** The separator line's cells under those columns. */
  const TimelineRule: seq<string> := ["---------", "-----------", "---"]

  /** Parsing the timeline table as the source renders it gives back its
      columns and rows, for rows keyed by exactly those columns with plain
      values. */
  lemma TimelineRender(rows: seq<Row>)
    requires Keyed(TimelineColumns, rows) && PlainRows(TimelineColumns, rows)
    ensures ScheduleOf(RenderTable(TimelineColumns, TimelineRule, rows)) == Schedule(TimelineColumns, rows)
  {
    forall i | 0 <= i < |TimelineColumns| ensures PlainCell(TimelineColumns[i]) {
      var c := TimelineColumns[i];
      assert c[0] != ' ' && !IsSpace(c[0]) && !IsSpace(c[|c| - 1]);
    }
    forall i | 0 <= i < |TimelineRule| ensures PlainCell(TimelineRule[i]) {
      var c := TimelineRule[i];
      assert c[0] == '-' && c[|c| - 1] == '-';
    }
    ScheduleRender(TimelineColumns, TimelineRule, rows);
  }
}
