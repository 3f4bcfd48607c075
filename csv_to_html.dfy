/** The plain CSV-to-HTML serialiser (scripts/csv_to_html.py): a table with
    a header row and one row per CSV line, and the page around it. */
module CsvToHtml {
  import opened Text
  import opened HtmlMarkup

  /** The opening tag: the `display` class and the given id. */
  function TableTag(id: string): string
  {
    "<table class=\"display\" id=\"" + id + "\">"
  }

  /** The text before the header row. */
  function TableOpen(id: string): string
  {
    TableTag(id) + "\n    <thead>\n        "
  }

  /** `make_html_table(header, rows, id)`. */
  function MakeHtmlTable(header: seq<string>, rows: seq<seq<string>>, id: string): string
  {
    BeforeBody(header, id) + DataRows(rows) + TableClose()
  }

  /** Everything before the data rows. */
  function BeforeBody(header: seq<string>, id: string): string
  {
    TableOpen(id) + HeaderRow(header) + "\n    </thead>\n    <tbody>\n        "
  }

  /** Everything after the data rows. */
  function TableClose(): string
  {
    "\n    </tbody>\n</table>\n"
  }

  /** The table opens with its `display` class and the given id, and the
      header row (one `<th>` per header entry, see `HeaderRowCell`) follows
      directly. */
  lemma MakeHtmlTableLayout(header: seq<string>, rows: seq<seq<string>>, id: string)
    ensures var out := MakeHtmlTable(header, rows, id);
            var at := |TableOpen(id)|;
            && StartsWith(out, TableTag(id))
            && at + |HeaderRow(header)| <= |out|
            && out[at..at + |HeaderRow(header)|] == HeaderRow(header)
  {
    var h := HeaderRow(header);
    var pre := BeforeBody(header, id);
    var at := |TableOpen(id)|;
    SliceInMiddle(TableOpen(id), h, "\n    </thead>\n    <tbody>\n        ", 0, |h|);
    SliceOfPrefix(pre, DataRows(rows), at, at + |h|);
    SliceOfPrefix(pre + DataRows(rows), TableClose(), at, at + |h|);
    StartsWithConcat(TableTag(id), "\n    <thead>\n        ");
    StartsWithExtend(TableOpen(id), TableTag(id), h);
    StartsWithExtend(TableOpen(id) + h, TableTag(id), "\n    </thead>\n    <tbody>\n        ");
    StartsWithExtend(pre, TableTag(id), DataRows(rows));
    StartsWithExtend(pre + DataRows(rows), TableTag(id), TableClose());
  }

  /** Where the data rows start. */
  function BodyOffset(header: seq<string>, id: string): nat
  {
    |BeforeBody(header, id)|
  }

  /** Each data row sits verbatim in the body, in order. */
  lemma MakeHtmlTableRow(header: seq<string>, rows: seq<seq<string>>, id: string, r: nat)
    requires r < |rows|
    ensures var out := MakeHtmlTable(header, rows, id);
            var at := BodyOffset(header, id) + JoinOffset(DataLines(rows), "\n", r);
            && at + |DataRow(rows[r])| <= |out|
            && out[at..at + |DataRow(rows[r])|] == DataRow(rows[r])
  {
    DataRowsAt(rows, r);
    var pre := BeforeBody(header, id);
    var body := DataRows(rows);
    var post := TableClose();
    var lo := JoinOffset(DataLines(rows), "\n", r);
    var len := |DataRow(rows[r])|;
    SliceInMiddle(pre, body, post, lo, lo + len);
    assert body[lo..lo + len] == DataRow(rows[r]);
  }

  /** `make_html_doc(head, body)`. */
  function MakeHtmlDoc(head: string, body: string): string
  {
    "<html>\n    <head>\n        " + head + "\n    </head>\n    <body>\n        " + body + "\n    </body>\n</html>\n"
  }

  /** The head sits right after the opening `<head>` and before `</head>`; the
      body right after the opening `<body>` and before `</body>`. */
  lemma MakeHtmlDocLayout(head: string, body: string)
    ensures var out := MakeHtmlDoc(head, body);
            var h := |"<html>\n    <head>\n        "|;
            var b := h + |head| + |"\n    </head>\n    <body>\n        "|;
            && out[..h] == "<html>\n    <head>\n        "
            && out[h..h + |head|] == head
            && out[h + |head|..b] == "\n    </head>\n    <body>\n        "
            && out[b..b + |body|] == body
            && out[b + |body|..] == "\n    </body>\n</html>\n"
  {
  }
}
