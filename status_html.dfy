/** The markup of the status page (`make_html_table` and `make_html_doc` in
    buildfarm/status_page.py): a table whose header cells carry the column
    counts, a footer repeating the column names, and the page around it. */
module StatusHtml {
  import opened Text
  import opened HtmlMarkup

  /** `''.join('<span class="sum repo%s">%d</span>' % (i + 1, v) ...)`. */
  function SumSpans(counts: seq<nat>): string
  {
    Concat(seq(|counts|, k requires 0 <= k < |counts| =>
      "<span class=\"sum repo" + NatToString(k + 1) + "\">" + NatToString(counts[k]) + "</span>"))
  }

  /** The header cells: each column name, a line break and its counts. */
  function HeaderCells(columns: seq<string>, counts: seq<seq<nat>>): (h: seq<string>)
    requires |counts| >= |columns|
    ensures |h| == |columns|
  {
    seq(|columns|, i requires 0 <= i < |columns| => columns[i] + "<br/>" + SumSpans(counts[i]))
  }

  /** The footer repeats the column names, except the third (the kind). */
  function FooterCells(columns: seq<string>): (f: seq<string>)
    ensures |f| == |columns|
  {
    seq(|columns|, i requires 0 <= i < |columns| => if i != 2 then columns[i] else "")
  }

  /** `make_html_table(columns, counts, rows)` of the status page. */
  function MakeHtmlTable(columns: seq<string>, counts: seq<seq<nat>>, rows: seq<seq<string>>): string
    requires |counts| >= |columns|
  {
    TableText(HeaderRow(HeaderCells(columns, counts)), HeaderRow(FooterCells(columns)), DataRows(rows))
  }

  /** The table around a header row `h`, a footer row `f` and a body. */
  function TableText(h: string, f: string, body: string): string
  {
    BeforeBody(h, f) + body + TableClose()
  }

  /** The text before the header row. */
  function TableOpen(): string
  {
    "<table class=\"display\" id=\"csv_table\">\n    <thead>\n        "
  }

  /** Everything before the data rows. */
  function BeforeBody(h: string, f: string): string
  {
    TableOpen() + h + AfterHeader(f)
  }

  /** The text between the header row and the data rows. */
  function AfterHeader(f: string): string
  {
    "\n    </thead>\n    <tfoot>\n        " + f + "\n    </tfoot>\n    <tbody>\n        "
  }

  /** Everything after the data rows. */
  function TableClose(): string
  {
    "\n    </tbody>\n</table>\n"
  }

  lemma TableTextHeader(h: string, f: string, body: string)
    ensures var at := |TableOpen()|;
            at + |h| <= |TableText(h, f, body)| && TableText(h, f, body)[at..at + |h|] == h
  {
    var at := |TableOpen()|;
    SliceInMiddle(TableOpen(), h, AfterHeader(f), 0, |h|);
    SliceOfPrefix(BeforeBody(h, f), body, at, at + |h|);
    SliceOfPrefix(BeforeBody(h, f) + body, TableClose(), at, at + |h|);
  }

  lemma TableTextBody(h: string, f: string, body: string, lo: nat, hi: nat)
    requires lo <= hi <= |body|
    ensures var at := |BeforeBody(h, f)|;
            at + hi <= |TableText(h, f, body)| && TableText(h, f, body)[at + lo..at + hi] == body[lo..hi]
  {
    SliceInMiddle(BeforeBody(h, f), body, TableClose(), lo, hi);
  }

  /** The header row, with one cell per column (see `StatusHeaderCell`),
      directly follows the opening of the table. */
  lemma StatusTableHeader(columns: seq<string>, counts: seq<seq<nat>>, rows: seq<seq<string>>)
    requires |counts| >= |columns|
    ensures var out := MakeHtmlTable(columns, counts, rows);
            var h := HeaderRow(HeaderCells(columns, counts));
            var at := |TableOpen()|;
            && at + |h| <= |out|
            && out[at..at + |h|] == h
  {
    TableTextHeader(HeaderRow(HeaderCells(columns, counts)), HeaderRow(FooterCells(columns)), DataRows(rows));
  }

  /** Each data row sits verbatim in the body of the table, in order,
      whatever the header and footer rows. */
  lemma TableTextRow(h: string, f: string, rows: seq<seq<string>>, r: nat)
    requires r < |rows|
    ensures var out := TableText(h, f, DataRows(rows));
            var at := |BeforeBody(h, f)| + JoinOffset(DataLines(rows), "\n", r);
            && at + |DataRow(rows[r])| <= |out|
            && out[at..at + |DataRow(rows[r])|] == DataRow(rows[r])
  {
    var body, row := DataRows(rows), DataRow(rows[r]);
    var lo := JoinOffset(DataLines(rows), "\n", r);
    DataRowsAt(rows, r);
    TableTextBody(h, f, body, lo, lo + |row|);
  }

  /** Each row of the status table sits verbatim in the body, in order. */
  lemma StatusTableRow(columns: seq<string>, counts: seq<seq<nat>>, rows: seq<seq<string>>, r: nat)
    requires |counts| >= |columns| && r < |rows|
    ensures var out := MakeHtmlTable(columns, counts, rows);
            var at := |BeforeBody(HeaderRow(HeaderCells(columns, counts)), HeaderRow(FooterCells(columns)))|
                      + JoinOffset(DataLines(rows), "\n", r);
            && at + |DataRow(rows[r])| <= |out|
            && out[at..at + |DataRow(rows[r])|] == DataRow(rows[r])
  {
    TableTextRow(HeaderRow(HeaderCells(columns, counts)), HeaderRow(FooterCells(columns)), rows, r);
  }

  /** Each header cell of the status table is its column name over the
      column's counts. */
  lemma StatusHeaderCell(columns: seq<string>, counts: seq<seq<nat>>, i: nat)
    requires |counts| >= |columns| && i < |columns|
    ensures var h := HeaderCells(columns, counts);
            && CellOffset("<th>", h, "</th>", i) <= CellOffset("<th>", h, "</th>", i + 1) <= |HeaderRow(h)|
            && HeaderRow(h)[CellOffset("<th>", h, "</th>", i)..CellOffset("<th>", h, "</th>", i + 1)]
               == "<th>" + columns[i] + "<br/>" + SumSpans(counts[i]) + "</th>"
  {
    var h := HeaderCells(columns, counts);
    HeaderRowCell(h, i);
  }

  /** Each footer cell is its column name, blank for the kind column. */
  lemma StatusFooterCell(columns: seq<string>, i: nat)
    requires i < |columns|
    ensures var f := FooterCells(columns);
            && CellOffset("<th>", f, "</th>", i) <= CellOffset("<th>", f, "</th>", i + 1) <= |HeaderRow(f)|
            && HeaderRow(f)[CellOffset("<th>", f, "</th>", i)..CellOffset("<th>", f, "</th>", i + 1)]
               == "<th>" + (if i == 2 then "" else columns[i]) + "</th>"
  {
    var f := FooterCells(columns);
    HeaderRowCell(f, i);
  }

  /** Columns without counts show only the name and a line break. */
  lemma NoCountsNoSpans(columns: seq<string>, counts: seq<seq<nat>>, i: nat)
    requires |counts| >= |columns| && i < |columns| && counts[i] == []
    ensures HeaderCells(columns, counts)[i] == columns[i] + "<br/>"
  {
  }

  /** `make_html_doc(head, body)` of the status page. */
  function MakeHtmlDoc(head: string, body: string): string
  {
    "<!DOCTYPE html>\n<html>\n<head>\n" + head + "</head>\n<body>\n" + body + "</body>\n</html>\n"
  }

  /** The head and the body each sit verbatim inside their element. */
  lemma MakeHtmlDocLayout(head: string, body: string)
    ensures var out := MakeHtmlDoc(head, body);
            var h := |"<!DOCTYPE html>\n<html>\n<head>\n"|;
            var b := h + |head| + |"</head>\n<body>\n"|;
            && out[..h] == "<!DOCTYPE html>\n<html>\n<head>\n"
            && out[h..h + |head|] == head
            && out[h + |head|..b] == "</head>\n<body>\n"
            && out[b..b + |body|] == body
            && out[b + |body|..] == "</body>\n</html>\n"
  {
  }
}
