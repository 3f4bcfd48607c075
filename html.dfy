/** Table rows as both serialisers write them:
    `'<tr>' + ''.join('<th>%s</th>' % c for c in cells) + '</tr>'` and its
    `<td>` twin, with data rows joined by newlines. Cells are inserted
    verbatim, without escaping. */
module HtmlMarkup {
  import opened Text

  function HeaderRow(cells: seq<string>): string
  {
    "<tr>" + WrapEach("<th>", cells, "</th>") + "</tr>"
  }

  function DataRow(cells: seq<string>): string
  {
    "<tr>" + WrapEach("<td>", cells, "</td>") + "</tr>"
  }

  /** One `<tr>` line per row. */
  function DataLines(rows: seq<seq<string>>): (lines: seq<string>)
    ensures |lines| == |rows| && forall r | 0 <= r < |rows| :: lines[r] == DataRow(rows[r])
  {
    seq(|rows|, r requires 0 <= r < |rows| => DataRow(rows[r]))
  }

  /** `'\n'.join(<data row> for r in rows)`. */
  function DataRows(rows: seq<seq<string>>): string
  {
    Join(DataLines(rows), "\n")
  }

  /** Where cell k of a row starts, counted from the start of the row. */
  function CellOffset(open: string, cells: seq<string>, close: string, k: nat): nat
    requires k <= |cells|
  {
    4 + WrapOffset(open, cells, close, k)
  }

  lemma {:induction false} RowCellAt(open: string, cells: seq<string>, close: string, k: nat)
    requires k < |cells|
    ensures var row := "<tr>" + WrapEach(open, cells, close) + "</tr>";
            && CellOffset(open, cells, close, k + 1) == CellOffset(open, cells, close, k) + |open| + |cells[k]| + |close|
            && CellOffset(open, cells, close, k + 1) + 5 <= |row|
            && row[CellOffset(open, cells, close, k)..CellOffset(open, cells, close, k + 1)] == open + cells[k] + close
  {
    WrapEachAt(open, cells, close, k);
    var w := WrapEach(open, cells, close);
    var lo, hi := WrapOffset(open, cells, close, k), WrapOffset(open, cells, close, k + 1);
    SliceInMiddle("<tr>", w, "</tr>", lo, hi);
  }

  /** The header row holds exactly one `<th>` element per cell, in order,
      each wrapping its cell verbatim, and ends right after the last one. */
  lemma HeaderRowCell(cells: seq<string>, k: nat)
    requires k < |cells|
    ensures CellOffset("<th>", cells, "</th>", k + 1) == CellOffset("<th>", cells, "</th>", k) + |cells[k]| + 9
    ensures CellOffset("<th>", cells, "</th>", k + 1) + 5 <= |HeaderRow(cells)|
    ensures HeaderRow(cells)[CellOffset("<th>", cells, "</th>", k)..CellOffset("<th>", cells, "</th>", k + 1)]
            == "<th>" + cells[k] + "</th>"
    ensures |HeaderRow(cells)| == CellOffset("<th>", cells, "</th>", |cells|) + 5
  {
    RowCellAt("<th>", cells, "</th>", k);
    WrapEachAt("<th>", cells, "</th>", k);
  }

  /** The same for the `<td>` elements of a data row. */
  lemma DataRowCell(cells: seq<string>, k: nat)
    requires k < |cells|
    ensures CellOffset("<td>", cells, "</td>", k + 1) == CellOffset("<td>", cells, "</td>", k) + |cells[k]| + 9
    ensures CellOffset("<td>", cells, "</td>", k + 1) + 5 <= |DataRow(cells)|
    ensures DataRow(cells)[CellOffset("<td>", cells, "</td>", k)..CellOffset("<td>", cells, "</td>", k + 1)]
            == "<td>" + cells[k] + "</td>"
    ensures |DataRow(cells)| == CellOffset("<td>", cells, "</td>", |cells|) + 5
  {
    RowCellAt("<td>", cells, "</td>", k);
    WrapEachAt("<td>", cells, "</td>", k);
  }

  /** An empty row is just the `<tr></tr>` pair. */
  lemma EmptyRow()
    ensures HeaderRow([]) == "<tr></tr>" && DataRow([]) == "<tr></tr>"
  {
  }

  /** Data row r sits verbatim in the joined rows, after a newline unless it
      is the first: one `<tr>` per row, in order. */
  lemma DataRowsAt(rows: seq<seq<string>>, r: nat)
    requires r < |rows|
    ensures var at := JoinOffset(DataLines(rows), "\n", r);
            && at + |DataRow(rows[r])| <= |DataRows(rows)|
            && DataRows(rows)[at..at + |DataRow(rows[r])|] == DataRow(rows[r])
            && (r > 0 ==> at >= 1 && DataRows(rows)[at - 1] == '\n')
  {
    var lines := DataLines(rows);
    JoinAt(lines, "\n", r);
    var at := JoinOffset(lines, "\n", r);
    if r > 0 {
      assert DataRows(rows)[at - 1..at] == "\n";
    }
  }
}
