/** The HTML status page built from the versions CSV
    (`transform_csv_to_html`, `inject_status_and_maintainer`,
    `make_html_table` and `make_html_doc` in buildfarm/status_page.py).
    The page head, the legend, the column metadata and the release cache
    are inputs. */
module Report {
  import opened Wrappers
  import opened Text
  import opened Sorting
  import opened VersionsTable
  import opened Classify
  import opened HtmlMarkup
  import opened StatusHtml

  // ---------------------------------------------------------------------
  // per-column counts

  /** Segment j of column i of the row names a version. */
  predicate Present(row: seq<string>, i: nat, j: nat)
    requires i < |row|
  {
    var versions := GetCellVersions(row[i]);
    j < |versions| && versions[j] != "None"
  }

  /** Every row reaches column `width - 1`, and no version cell has more
      than three segments (`counts[i][j] += 1` would fail). */
  predicate Countable(rows: seq<seq<string>>, width: nat)
  {
    forall r | 0 <= r < |rows| ::
      |rows[r]| >= width && forall i | 3 <= i < width :: |GetCellVersions(rows[r][i])| <= 3
  }

  /** The number of rows whose segment j of column i is not `None`. */
  function PresentCount(rows: seq<seq<string>>, i: nat, j: nat): nat
    requires forall r | 0 <= r < |rows| :: i < |rows[r]|
  {
    if |rows| == 0 then 0
    else PresentCount(rows[..|rows| - 1], i, j) + (if Present(rows[|rows| - 1], i, j) then 1 else 0)
  }

  /** The rows whose segment j of column i names a version. */
  function PresentRows(rows: seq<seq<string>>, i: nat, j: nat): set<nat>
    requires forall r | 0 <= r < |rows| :: i < |rows[r]|
  {
    set r: nat | r < |rows| && Present(rows[r], i, j)
  }

  /** The same count as the size of the set of rows that qualify. */
  lemma PresentCountIsCardinality(rows: seq<seq<string>>, i: nat, j: nat)
    requires forall r | 0 <= r < |rows| :: i < |rows[r]|
    ensures PresentCount(rows, i, j) == |PresentRows(rows, i, j)|
    ensures PresentCount(rows, i, j) <= |rows|
  {
    var flags := seq(|rows|, r requires 0 <= r < |rows| => Present(rows[r], i, j));
    PresentCountIsCountTrue(rows, i, j);
    CountTrueIsCardinality(flags);
    assert PresentRows(rows, i, j) == TrueAt(flags);
  }

  /** The number of true entries. */
  function CountTrue(flags: seq<bool>): nat
  {
    if |flags| == 0 then 0 else CountTrue(flags[..|flags| - 1]) + if flags[|flags| - 1] then 1 else 0
  }

  function TrueAt(flags: seq<bool>): set<nat>
  {
    set r: nat | r < |flags| && flags[r]
  }

  lemma {:induction false} CountTrueIsCardinality(flags: seq<bool>)
    ensures CountTrue(flags) == |TrueAt(flags)| <= |flags|
  {
    var n := |flags|;
    if n == 0 {
      assert TrueAt(flags) == {};
    } else {
      var init := flags[..n - 1];
      CountTrueIsCardinality(init);
      if flags[n - 1] {
        assert TrueAt(flags) == TrueAt(init) + {n - 1};
      } else {
        assert TrueAt(flags) == TrueAt(init);
      }
    }
  }

  lemma {:induction false} PresentCountIsCountTrue(rows: seq<seq<string>>, i: nat, j: nat)
    requires forall r | 0 <= r < |rows| :: i < |rows[r]|
    ensures PresentCount(rows, i, j) == CountTrue(seq(|rows|, r requires 0 <= r < |rows| => Present(rows[r], i, j)))
  {
    if |rows| > 0 {
      var n := |rows|;
      PresentCountIsCountTrue(rows[..n - 1], i, j);
      var flags := seq(n, r requires 0 <= r < n => Present(rows[r], i, j));
      assert flags[..n - 1] == seq(n - 1, r requires 0 <= r < n - 1 => Present(rows[..n - 1][r], i, j));
    }
  }

  /** Adding a row adds one to every counter its version cells name. */
  lemma PresentCountStep(rows: seq<seq<string>>, r: nat, i: nat, j: nat)
    requires r < |rows| && forall m | 0 <= m < |rows| :: i < |rows[m]|
    ensures PresentCount(rows[..r + 1], i, j)
            == PresentCount(rows[..r], i, j) + if Present(rows[r], i, j) then 1 else 0
  {
    assert rows[..r + 1][..r] == rows[..r];
  }

  /** The counts the page starts from: no counts for the first three
      columns, three zeroes for every version column. */
  function ZeroCounts(width: nat): (c: seq<seq<nat>>)
    requires width >= 3
    ensures |c| == width
  {
    seq(width, i requires 0 <= i < width => if i < 3 then [] else [0, 0, 0])
  }

  /** The initial counts are the counts of no rows at all. */
  lemma ZeroCountsBeforeAnyRow(width: nat)
    requires width >= 3
    ensures ZeroCounts(width) == CountsOf([], width)
  {
    forall i | 3 <= i < width ensures ZeroCounts(width)[i] == CountsOf([], width)[i] {
      assert CountsOf([], width)[i] == seq(3, j requires 0 <= j < 3 => PresentCount([], i, j));
    }
  }

  /** `counts` after the rows seen so far. */
  function CountsOf(rows: seq<seq<string>>, width: nat): (c: seq<seq<nat>>)
    requires width >= 3
    requires forall r | 0 <= r < |rows| :: |rows[r]| >= width
    ensures |c| == width
  {
    seq(width, i requires 0 <= i < width =>
      if i < 3 then [] else seq(3, j requires 0 <= j < 3 => PresentCount(rows, i, j)))
  }

  /** Column i's counters after one more row. */
  function Bumped(c: seq<nat>, row: seq<string>, i: nat): (r: seq<nat>)
    requires |c| == 3 && i < |row|
    ensures |r| == 3
  {
    seq(3, j requires 0 <= j < 3 => c[j] + if Present(row, i, j) then 1 else 0)
  }

  /** The innermost loop: one increment per segment that is not `None`. */
  method CountCell(counts: seq<nat>, row: seq<string>, i: nat) returns (next: seq<nat>)
    requires |counts| == 3 && i < |row| && |GetCellVersions(row[i])| <= 3
    ensures next == Bumped(counts, row, i)
  {
    var versions := GetCellVersions(row[i]);
    next := counts;
    for j := 0 to |versions|
      invariant |next| == 3
      invariant forall m | 0 <= m < 3 ::
        next[m] == counts[m] + if m < j && versions[m] != "None" then 1 else 0
    {
      if versions[j] != "None" {
        next := next[j := next[j] + 1];
      }
    }
  }

  /** One row's contribution, column by column. */
  method CountRow(counts: seq<seq<nat>>, row: seq<string>, width: nat) returns (next: seq<seq<nat>>)
    requires width >= 3 && |counts| == width && |row| >= width
    requires forall i | 3 <= i < width :: |counts[i]| == 3 && |GetCellVersions(row[i])| <= 3
    ensures |next| == width
    ensures forall i | 0 <= i < 3 :: next[i] == counts[i]
    ensures forall i | 3 <= i < width :: next[i] == Bumped(counts[i], row, i)
  {
    next := counts;
    for i := 3 to width
      invariant |next| == width
      invariant forall m | 0 <= m < 3 :: next[m] == counts[m]
      invariant forall m | i <= m < width :: next[m] == counts[m]
      invariant forall m | 3 <= m < i :: next[m] == Bumped(counts[m], row, m)
    {
      var cellCounts := CountCell(next[i], row, i);
      next := next[i := cellCounts];
    }
  }

  /** The counting loop of `transform_csv_to_html`. */
  method CountPresent(rows: seq<seq<string>>, width: nat) returns (counts: seq<seq<nat>>)
    requires width >= 3 && Countable(rows, width)
    ensures counts == CountsOf(rows, width)
  {
    counts := ZeroCounts(width);
    assert rows[..0] == [];
    ZeroCountsBeforeAnyRow(width);
    for r := 0 to |rows|
      invariant counts == CountsOf(rows[..r], width)
    {
      var next := CountRow(counts, rows[r], width);
      forall i | 0 <= i < width
        ensures next[i] == CountsOf(rows[..r + 1], width)[i]
      {
        if i >= 3 {
          forall j | 0 <= j < 3 ensures next[i][j] == CountsOf(rows[..r + 1], width)[i][j] {
            PresentCountStep(rows, r, i, j);
          }
        }
      }
      counts := next;
    }
    assert rows[..|rows|] == rows;
  }

  // ---------------------------------------------------------------------
  // the release cache and the status and maintainer columns

  datatype PackageInfo = PackageInfo(repositoryName: string, status: Option<string>, statusDescription: Option<string>)
  datatype RepositoryInfo = RepositoryInfo(status: Option<string>, statusDescription: Option<string>)
  datatype Maintainer = Maintainer(name: string, email: string)

  /** What `get_package_xml` followed by `parse_package_string` gives. */
  datatype PackageXml = NoXml | InvalidXml | ValidXml(maintainers: seq<Maintainer>)

  datatype CachedRelease = CachedRelease(
    packages: map<string, PackageInfo>,
    repositories: map<string, RepositoryInfo>,
    packageXml: string -> PackageXml)

  /** `row[0].split(' ')[0]`. */
  function FirstWord(s: string): string
  {
    Split(s, ' ')[0]
  }

  /** Appending the diff marker does not change the first word. */
  lemma FirstWordIgnoresDiffMarker(name: string)
    ensures FirstWord(name + DiffSpan) == FirstWord(name)
  {
    var rest := DiffSpan[1..];
    assert DiffSpan == [' '] + rest;
    assert name + DiffSpan == name + [' '] + rest;
    if ' ' in name {
      var k :| 0 <= k < |name| && name[k] == ' ';
      FirstWordBeforeSpace(name, [' '] + rest);
    } else {
      SplitAfterPiece(name, rest, ' ');
      SplitNoSeparator(name, ' ');
    }
  }

  lemma {:induction false} FirstWordBeforeSpace(a: string, b: string)
    requires ' ' in a
    ensures FirstWord(a + b) == FirstWord(a)
  {
    if a[0] != ' ' {
      assert (a + b)[1..] == a[1..] + b;
      assert ' ' in a[1..];
      FirstWordBeforeSpace(a[1..], b);
    }
  }

  /** The release cache knows the package the row names, and its repository. */
  predicate ReleaseKnows(cached: CachedRelease, rowName: string)
  {
    FirstWord(rowName) in cached.packages
    && cached.packages[FirstWord(rowName)].repositoryName in cached.repositories
  }

  /** The first of the two that is not `None`, else the fallback. */
  function FirstGiven(first: Option<string>, second: Option<string>, fallback: string): string
  {
    if first.Some? then first.value else if second.Some? then second.value else fallback
  }

  function MaintainerLinks(maintainers: seq<Maintainer>): string
  {
    Concat(seq(|maintainers|, k requires 0 <= k < |maintainers| =>
      "<a href=\"mailto:" + maintainers[k].email + "\">" + maintainers[k].name + "</a>"))
  }

  function StatusCell(row: seq<string>, cached: CachedRelease): string
    requires |row| >= 3
    requires row[2] == "wet" ==> ReleaseKnows(cached, row[0])
  {
    if row[2] == "wet" then
      var pkg := cached.packages[FirstWord(row[0])];
      var repo := cached.repositories[pkg.repositoryName];
      var status := FirstGiven(pkg.status, repo.status, "unknown");
      var description := FirstGiven(pkg.statusDescription, repo.statusDescription, "");
      "<div class=\"" + status + "\"" + (if description != "" then " title=\"" + description + "\"" else "")
      + ">" + status + "</div>"
    else "<div class=\"unknown\">--</div>"
  }

  function MaintainerCell(row: seq<string>, cached: CachedRelease): string
    requires |row| >= 3
  {
    if row[2] == "wet" then
      match cached.packageXml(FirstWord(row[0]))
      case NoXml => "?"
      case InvalidXml => "invalid package.xml"
      case ValidXml(maintainers) => MaintainerLinks(maintainers)
    else ""
  }

  /** `row[3:3] = [status_cell, maintainer_cell]`. */
  function InjectRow(row: seq<string>, cached: CachedRelease): (r: seq<string>)
    requires |row| >= 3
    requires row[2] == "wet" ==> ReleaseKnows(cached, row[0])
    ensures |r| == |row| + 2
    ensures r[..3] == row[..3] && r[5..] == row[3..]
    ensures r[3] == StatusCell(row, cached) && r[4] == MaintainerCell(row, cached)
  {
    row[..3] + [StatusCell(row, cached), MaintainerCell(row, cached)] + row[3..]
  }

  /** The status of a wet row falls back from the package to its repository
      and then to `unknown`; rows of other kinds get the `--` placeholder and
      no maintainer. */
  lemma StatusFallback(row: seq<string>, cached: CachedRelease)
    requires |row| >= 3
    requires row[2] == "wet" ==> ReleaseKnows(cached, row[0])
    ensures row[2] != "wet" ==> StatusCell(row, cached) == "<div class=\"unknown\">--</div>"
                                && MaintainerCell(row, cached) == ""
    ensures row[2] == "wet" ==>
              var pkg := cached.packages[FirstWord(row[0])];
              var repo := cached.repositories[pkg.repositoryName];
              var status := if pkg.status.Some? then pkg.status.value
                            else if repo.status.Some? then repo.status.value
                            else "unknown";
              StartsWith(StatusCell(row, cached), "<div class=\"" + status + "\"")
  {
    if row[2] == "wet" {
      var pkg := cached.packages[FirstWord(row[0])];
      var repo := cached.repositories[pkg.repositoryName];
      var status := FirstGiven(pkg.status, repo.status, "unknown");
      var opening := "<div class=\"" + status + "\"";
      var cell := StatusCell(row, cached);
      assert cell == opening + (cell[|opening|..]);
    }
  }

  /** A wet row without package.xml shows `?`; an unparsable one says so. */
  lemma MaintainerFallback(row: seq<string>, cached: CachedRelease)
    requires |row| >= 3 && row[2] == "wet"
    ensures cached.packageXml(FirstWord(row[0])) == NoXml ==> MaintainerCell(row, cached) == "?"
    ensures cached.packageXml(FirstWord(row[0])) == InvalidXml ==> MaintainerCell(row, cached) == "invalid package.xml"
  {
  }

  /** The rows of the page and what is shown above them. */
  class StatusTable {
    var header: seq<string>
    var counts: seq<seq<nat>>
    var rows: seq<seq<string>>

    constructor (header: seq<string>, counts: seq<seq<nat>>, rows: seq<seq<string>>)
      ensures this.header == header && this.counts == counts && this.rows == rows
    {
      this.header := header;
      this.counts := counts;
      this.rows := rows;
    }

    /** Every row is at least `name, version, kind`, and the cache knows the
        package of every wet row. */
    predicate Injectable(cached: CachedRelease)
      reads this
    {
      |header| >= 3 && |counts| >= 3
      && forall k | 0 <= k < |rows| :: |rows[k]| >= 3 && (rows[k][2] == "wet" ==> ReleaseKnows(cached, rows[k][0]))
    }

    /** `inject_status_and_maintainer`: two columns are inserted at index 3
        of the header, the counts and every row. */
    method InjectStatusAndMaintainer(cached: CachedRelease)
      requires Injectable(cached)
      modifies this
      ensures header == old(header)[..3] + ["Status", "Maintainer"] + old(header)[3..]
      ensures counts == old(counts)[..3] + [[], []] + old(counts)[3..]
      ensures |rows| == |old(rows)|
      ensures forall k | 0 <= k < |rows| :: rows[k] == InjectRow(old(rows)[k], cached)
    {
      header := header[..3] + ["Status", "Maintainer"] + header[3..];
      counts := counts[..3] + [[], []] + counts[3..];
      for k := 0 to |rows|
        invariant header == old(header)[..3] + ["Status", "Maintainer"] + old(header)[3..]
        invariant counts == old(counts)[..3] + [[], []] + old(counts)[3..]
        invariant |rows| == |old(rows)|
        invariant forall m | 0 <= m < k :: rows[m] == InjectRow(old(rows)[m], cached)
        invariant forall m | k <= m < |rows| :: rows[m] == old(rows)[m]
      {
        var row := rows[k];
        var statusCell := StatusCell(row, cached);
        var maintainerCell := MaintainerCell(row, cached);
        rows := rows[k := row[..3] + [statusCell, maintainerCell] + row[3..]];
      }
    }

    /** The div-wrap loop: the first two cells of every row are wrapped. */
    method DivWrap()
      requires forall k | 0 <= k < |rows| :: |rows[k]| >= 2
      modifies this
      ensures header == old(header) && counts == old(counts)
      ensures |rows| == |old(rows)|
      ensures forall k | 0 <= k < |rows| :: rows[k] == DivWrapRow(old(rows)[k])
    {
      for k := 0 to |rows|
        invariant header == old(header) && counts == old(counts)
        invariant |rows| == |old(rows)|
        invariant forall m | 0 <= m < k :: rows[m] == DivWrapRow(old(rows)[m])
        invariant forall m | k <= m < |rows| :: rows[m] == old(rows)[m]
      {
        var row := rows[k];
        row := row[0 := "<div>" + row[0] + "</div>"];
        row := row[1 := "<div>" + row[1] + "</div>"];
        rows := rows[k := row];
      }
    }
  }

  /** A row with its first two cells wrapped in `<div>`. */
  function DivWrapRow(row: seq<string>): (r: seq<string>)
    requires |row| >= 2
    ensures |r| == |row| && r[2..] == row[2..]
    ensures r[0] == "<div>" + row[0] + "</div>" && r[1] == "<div>" + row[1] + "</div>"
  {
    row[0 := "<div>" + row[0] + "</div>"][1 := "<div>" + row[1] + "</div>"]
  }

  /** Injection keeps the header, the counts and every row aligned: equal
      lengths before give equal lengths after, two more each. */
  lemma InjectionKeepsAlignment(header: seq<string>, counts: seq<seq<nat>>, row: seq<string>, cached: CachedRelease)
    requires |header| == |counts| == |row| >= 3
    requires row[2] == "wet" ==> ReleaseKnows(cached, row[0])
    ensures var h := header[..3] + ["Status", "Maintainer"] + header[3..];
            var c := counts[..3] + [[], []] + counts[3..];
            var r := InjectRow(row, cached);
            |h| == |c| == |r| == |header| + 2
            && h[3] == "Status" && h[4] == "Maintainer" && c[3] == [] && c[4] == []
            && forall i | 5 <= i < |r| :: h[i] == header[i - 2] && r[i] == row[i - 2]
  {
  }

  // ---------------------------------------------------------------------
  // transform_csv_to_html

  /** `metadata_columns`: none for the first three columns. */
  function MetadataColumns(header: seq<string>, metadataBuilder: string -> Metadata): (mc: seq<Option<Metadata>>)
    requires |header| >= 3
    ensures |mc| == |header|
  {
    seq(|header|, i requires 0 <= i < |header| => if i < 3 then None else Some(metadataBuilder(header[i])))
  }

  function RowKey(row: seq<string>): string
  {
    if |row| > 0 then row[0] else ""
  }

  /** What the page needs of the CSV: a header of at least the three fixed
      columns with nameable cells, and data rows as wide as the header that
      `format_row` accepts, with exactly three segments per version cell and
      every wet package known to the release cache when there is one. */
  predicate WellFormedCsv(csvRows: seq<seq<string>>, metadataBuilder: string -> Metadata, cached: Option<CachedRelease>)
  {
    |csvRows| >= 1 && |csvRows[0]| >= 3
    && var header := csvRows[0];
       (forall i | 0 <= i < |header| ::
          (i >= 3 && TruthyMetadata(Some(metadataBuilder(header[i]))) && "column_label" in metadataBuilder(header[i]))
          || |header[i]| > 0)
       && forall r | 1 <= r < |csvRows| ::
            |csvRows[r]| == |header|
            && FormattableRow(csvRows[r], MetadataColumns(header, metadataBuilder))
            && (forall i | 3 <= i < |header| :: |GetCellVersions(csvRows[r][i])| == 3)
            && (cached.Some? && csvRows[r][2] == "wet" ==> ReleaseKnows(cached.value, csvRows[r][0]))
  }

  /** The header as shown. */
  function FormattedHeader(header: seq<string>, metadataBuilder: string -> Metadata): seq<string>
    requires |header| >= 3
    requires forall i | 0 <= i < |header| ::
      (i >= 3 && TruthyMetadata(Some(metadataBuilder(header[i]))) && "column_label" in metadataBuilder(header[i]))
      || |header[i]| > 0
  {
    var mc := MetadataColumns(header, metadataBuilder);
    seq(|header|, i requires 0 <= i < |header| => FormatHeaderCell(header[i], mc[i]))
  }

  /** The rows sorted by package name and then formatted. */
  function FormattedRows(csvRows: seq<seq<string>>, metadataBuilder: string -> Metadata, cached: Option<CachedRelease>)
    : (rows: seq<seq<string>>)
    requires WellFormedCsv(csvRows, metadataBuilder, cached)
    ensures |rows| == |csvRows| - 1
  {
    var mc := MetadataColumns(csvRows[0], metadataBuilder);
    var sorted := SortBy(csvRows[1..], RowKey, false);
    SortedRowsFormattable(csvRows, metadataBuilder, cached, sorted);
    seq(|sorted|, k requires 0 <= k < |sorted| => FormatRow(sorted[k], mc))
  }

  lemma SortedRowsFormattable(csvRows: seq<seq<string>>, metadataBuilder: string -> Metadata,
                              cached: Option<CachedRelease>, sorted: seq<seq<string>>)
    requires WellFormedCsv(csvRows, metadataBuilder, cached)
    requires multiset(sorted) == multiset(csvRows[1..])
    ensures |sorted| == |csvRows| - 1
    ensures forall k | 0 <= k < |sorted| :: exists r | 1 <= r < |csvRows| :: sorted[k] == csvRows[r]
  {
    assert |sorted| == |multiset(sorted)| == |multiset(csvRows[1..])| == |csvRows| - 1;
    forall k | 0 <= k < |sorted| ensures exists r | 1 <= r < |csvRows| :: sorted[k] == csvRows[r] {
      assert sorted[k] in multiset(csvRows[1..]);
      var m :| 0 <= m < |csvRows[1..]| && csvRows[1..][m] == sorted[k];
      assert csvRows[m + 1] == sorted[k];
    }
  }

  /** The header, counts and rows the table shows. */
  datatype Shown = Shown(header: seq<string>, counts: seq<seq<nat>>, rows: seq<seq<string>>)

  /** Every row has the three fixed cells and the cache knows every wet row. */
  predicate InjectableRows(rows: seq<seq<string>>, cached: CachedRelease)
  {
    forall k | 0 <= k < |rows| :: |rows[k]| >= 3 && (rows[k][2] == "wet" ==> ReleaseKnows(cached, rows[k][0]))
  }

  /** The table after `inject_status_and_maintainer`. */
  function Inject(s: Shown, cached: CachedRelease): Shown
    requires |s.header| >= 3 && |s.counts| >= 3 && InjectableRows(s.rows, cached)
  {
    Shown(s.header[..3] + ["Status", "Maintainer"] + s.header[3..],
          s.counts[..3] + [[], []] + s.counts[3..],
          seq(|s.rows|, k requires 0 <= k < |s.rows| => InjectRow(s.rows[k], cached)))
  }

  /** The table after the div-wrap loop. */
  function DivWrapAll(s: Shown): Shown
    requires forall k | 0 <= k < |s.rows| :: |s.rows[k]| >= 2
  {
    Shown(s.header, s.counts, seq(|s.rows|, k requires 0 <= k < |s.rows| => DivWrapRow(s.rows[k])))
  }

  /** The formatted header, the counts and the sorted, formatted rows. */
  function BaseTable(csvRows: seq<seq<string>>, metadataBuilder: string -> Metadata, cached: Option<CachedRelease>)
    : (s: Shown)
    requires WellFormedCsv(csvRows, metadataBuilder, cached)
    ensures |s.header| == |s.counts| == |csvRows[0]| && |s.rows| == |csvRows| - 1
    ensures forall k | 0 <= k < |s.rows| :: |s.rows[k]| == |csvRows[0]|
    ensures cached.Some? ==> InjectableRows(s.rows, cached.value)
  {
    FormattedRowsShape(csvRows, metadataBuilder, cached);
    Shown(FormattedHeader(csvRows[0], metadataBuilder), CountsOf(csvRows[1..], |csvRows[0]|),
          FormattedRows(csvRows, metadataBuilder, cached))
  }

  /** What the page shows: the base table, with the release columns when
      there is a cache, and the first two cells of each row wrapped. */
  function ShownTable(csvRows: seq<seq<string>>, metadataBuilder: string -> Metadata, cached: Option<CachedRelease>)
    : (shown: Shown)
    requires WellFormedCsv(csvRows, metadataBuilder, cached)
    ensures |shown.counts| == |shown.header| >= 3
  {
    var base := BaseTable(csvRows, metadataBuilder, cached);
    if cached.Some? then DivWrapAll(Inject(base, cached.value)) else DivWrapAll(base)
  }

  /** The page as `transform_csv_to_html` builds it. */
  function StatusPage(csvRows: seq<seq<string>>, metadataBuilder: string -> Metadata, htmlHead: string,
                      legend: string, cached: Option<CachedRelease>): string
    requires WellFormedCsv(csvRows, metadataBuilder, cached)
  {
    RenderPage(htmlHead, legend, ShownTable(csvRows, metadataBuilder, cached))
  }

  /** The last step of `transform_csv_to_html`: the legend and the table
      serialised inside the document. */
  function RenderPage(htmlHead: string, legend: string, shown: Shown): string
    requires |shown.counts| >= |shown.header|
  {
    MakeHtmlDoc(htmlHead, legend + MakeHtmlTable(shown.header, shown.counts, shown.rows))
  }

  /** Formatted rows keep the width of the CSV and the kind text `wet` of
      wet rows, and the cache still finds their packages. */
  lemma FormattedRowsShape(csvRows: seq<seq<string>>, metadataBuilder: string -> Metadata, cached: Option<CachedRelease>)
    requires WellFormedCsv(csvRows, metadataBuilder, cached)
    ensures var rows := FormattedRows(csvRows, metadataBuilder, cached);
            forall k | 0 <= k < |rows| ::
              |rows[k]| == |csvRows[0]|
              && (cached.Some? && rows[k][2] == "wet" ==> ReleaseKnows(cached.value, rows[k][0]))
  {
    var mc := MetadataColumns(csvRows[0], metadataBuilder);
    var sorted := SortBy(csvRows[1..], RowKey, false);
    SortedRowsFormattable(csvRows, metadataBuilder, cached, sorted);
    var rows := FormattedRows(csvRows, metadataBuilder, cached);
    forall k | 0 <= k < |rows|
      ensures |rows[k]| == |csvRows[0]|
      ensures cached.Some? && rows[k][2] == "wet" ==> ReleaseKnows(cached.value, rows[k][0])
    {
      var r :| 1 <= r < |csvRows| && sorted[k] == csvRows[r];
      assert rows[k] == FormatRow(sorted[k], mc);
      FormatRowLeadingCells(sorted[k], mc);
      if cached.Some? && rows[k][2] == "wet" {
        assert sorted[k][2] == "wet";
        if HasDiff(sorted[k]) {
          FirstWordIgnoresDiffMarker(sorted[k][0]);
        }
      }
    }
  }

  /** A well-formed CSV can be counted. */
  lemma WellFormedIsCountable(csvRows: seq<seq<string>>, metadataBuilder: string -> Metadata, cached: Option<CachedRelease>)
    requires WellFormedCsv(csvRows, metadataBuilder, cached)
    ensures Countable(csvRows[1..], |csvRows[0]|)
  {
    var rows := csvRows[1..];
    forall r | 0 <= r < |rows|
      ensures |rows[r]| >= |csvRows[0]|
      ensures forall i | 3 <= i < |csvRows[0]| :: |GetCellVersions(rows[r][i])| <= 3
    {
      assert rows[r] == csvRows[r + 1];
    }
  }

  /** The end of `transform_csv_to_html`: the release columns when there
      is a cache, then the wrapped first two cells. */
  method InjectAndWrap(table: StatusTable, cached: Option<CachedRelease>)
    requires |table.header| >= 3 && |table.counts| >= 3
    requires forall k | 0 <= k < |table.rows| :: |table.rows[k]| >= 3
    requires cached.Some? ==> InjectableRows(table.rows, cached.value)
    modifies table
    ensures var base := Shown(old(table.header), old(table.counts), old(table.rows));
            Shown(table.header, table.counts, table.rows)
            == if cached.Some? then DivWrapAll(Inject(base, cached.value)) else DivWrapAll(base)
  {
    ghost var base := Shown(table.header, table.counts, table.rows);
    ghost var injected := base;
    if cached.Some? {
      table.InjectStatusAndMaintainer(cached.value);
      injected := Inject(base, cached.value);
      assert Shown(table.header, table.counts, table.rows) == injected;
    }
    table.DivWrap();
    assert Shown(table.header, table.counts, table.rows) == DivWrapAll(injected);
  }

  /** The table `transform_csv_to_html` builds before it serialises it:
      parse, format the header, count, sort, format the rows, inject the
      release columns when there is a cache and wrap the first two cells. */
  method BuildStatusTable(csvRows: seq<seq<string>>, metadataBuilder: string -> Metadata,
                          cached: Option<CachedRelease>) returns (table: StatusTable)
    requires WellFormedCsv(csvRows, metadataBuilder, cached)
    ensures Shown(table.header, table.counts, table.rows) == ShownTable(csvRows, metadataBuilder, cached)
  {
    var header := csvRows[0];
    var rows := csvRows[1..];
    var formattedHeader := FormattedHeader(header, metadataBuilder);
    WellFormedIsCountable(csvRows, metadataBuilder, cached);
    var counts := CountPresent(rows, |header|);
    var formattedRows := FormattedRows(csvRows, metadataBuilder, cached);
    ghost var base := BaseTable(csvRows, metadataBuilder, cached);
    assert base == Shown(formattedHeader, counts, formattedRows);
    table := new StatusTable(formattedHeader, counts, formattedRows);
    InjectAndWrap(table, cached);
  }

  /** `transform_csv_to_html`: build the table and serialise it after the
      legend inside the document. */
  method TransformCsvToHtml(csvRows: seq<seq<string>>, metadataBuilder: string -> Metadata, htmlHead: string,
                            legend: string, cached: Option<CachedRelease>) returns (doc: string)
    requires WellFormedCsv(csvRows, metadataBuilder, cached)
    ensures doc == StatusPage(csvRows, metadataBuilder, htmlHead, legend, cached)
  {
    var table := BuildStatusTable(csvRows, metadataBuilder, cached);
    doc := MakeHtmlDoc(htmlHead, legend + MakeHtmlTable(table.header, table.counts, table.rows));
  }

  /** The counts shown for a version column are the number of data rows
      whose cell names a version in each repository. */
  lemma ShownCounts(csvRows: seq<seq<string>>, metadataBuilder: string -> Metadata,
                    cached: Option<CachedRelease>, i: nat, j: nat)
    requires WellFormedCsv(csvRows, metadataBuilder, cached)
    requires 3 <= i < |csvRows[0]| && j < 3
    ensures var shown := ShownTable(csvRows, metadataBuilder, cached);
            var at := if cached.Some? then i + 2 else i;
            && at < |shown.counts| && |shown.counts[at]| == 3
            && shown.counts[at][j] == |PresentRows(csvRows[1..], i, j)|
  {
    var base := BaseTable(csvRows, metadataBuilder, cached);
    BaseCountsAt(csvRows, metadataBuilder, cached, i, j);
    ShownKeepsCounts(base, cached, i);
    PresentCountIsCardinality(csvRows[1..], i, j);
  }

  lemma BaseCountsAt(csvRows: seq<seq<string>>, metadataBuilder: string -> Metadata,
                     cached: Option<CachedRelease>, i: nat, j: nat)
    requires WellFormedCsv(csvRows, metadataBuilder, cached)
    requires 3 <= i < |csvRows[0]| && j < 3
    ensures var c := BaseTable(csvRows, metadataBuilder, cached).counts;
            |c[i]| == 3 && c[i][j] == PresentCount(csvRows[1..], i, j)
  {
  }

  /** Injecting the release columns moves a version column's counts two
      places right; wrapping the cells leaves the counts alone. */
  lemma ShownKeepsCounts(base: Shown, cached: Option<CachedRelease>, i: nat)
    requires |base.header| >= 3 && 3 <= i < |base.counts|
    requires forall m | 0 <= m < |base.rows| :: |base.rows[m]| >= 3
    requires cached.Some? ==> InjectableRows(base.rows, cached.value)
    ensures var shown := if cached.Some? then DivWrapAll(Inject(base, cached.value)) else DivWrapAll(base);
            var at := if cached.Some? then i + 2 else i;
            at < |shown.counts| && shown.counts[at] == base.counts[i]
  {
    if cached.Some? {
      var c := base.counts;
      assert Inject(base, cached.value).counts == c[..3] + [[], []] + c[3..];
    }
  }

  /** Row k of the page comes from data row k in package-name order: its
      name cell is `<div>`, that row's name and possibly the diff marker. */
  lemma ShownRowName(csvRows: seq<seq<string>>, metadataBuilder: string -> Metadata,
                     cached: Option<CachedRelease>, k: nat)
    requires WellFormedCsv(csvRows, metadataBuilder, cached)
    requires k < |csvRows| - 1
    ensures var shown := ShownTable(csvRows, metadataBuilder, cached);
            var sorted := SortBy(csvRows[1..], RowKey, false);
            && |shown.rows| == |sorted| == |csvRows| - 1
            && |sorted[k]| >= 3 && |shown.rows[k]| >= 1
            && StartsWith(shown.rows[k][0], "<div>" + sorted[k][0])
  {
    var sorted := SortBy(csvRows[1..], RowKey, false);
    var mc := MetadataColumns(csvRows[0], metadataBuilder);
    SortedRowsFormattable(csvRows, metadataBuilder, cached, sorted);
    var base := BaseTable(csvRows, metadataBuilder, cached);
    var r :| 1 <= r < |csvRows| && sorted[k] == csvRows[r];
    assert base.rows[k] == FormatRow(sorted[k], mc);
    assert FormattableRow(sorted[k], mc);
    WrappedFormattedName(base, cached, k, sorted[k], mc);
  }

  /** The shown name cell of a formatted row starts with `<div>` and the
      row's own name. */
  lemma WrappedFormattedName(base: Shown, cached: Option<CachedRelease>, k: nat,
                             row: seq<string>, mc: seq<Option<Metadata>>)
    requires |base.header| >= 3 && |base.counts| >= 3 && k < |base.rows|
    requires forall m | 0 <= m < |base.rows| :: |base.rows[m]| >= 3
    requires cached.Some? ==> InjectableRows(base.rows, cached.value)
    requires FormattableRow(row, mc) && base.rows[k] == FormatRow(row, mc)
    ensures var shown := if cached.Some? then DivWrapAll(Inject(base, cached.value)) else DivWrapAll(base);
            |shown.rows| == |base.rows| && |shown.rows[k]| >= 1 && StartsWith(shown.rows[k][0], "<div>" + row[0])
  {
    FormatRowLeadingCells(row, mc);
    WrappedName(base, cached, k);
    var suffix := if HasDiff(row) then DiffSpan else "";
    var name := base.rows[k][0];
    assert name == row[0] + suffix;
    assert "<div>" + name + "</div>" == ("<div>" + row[0]) + (suffix + "</div>");
    StartsWithConcat("<div>" + row[0], suffix + "</div>");
  }

  /** The name cell of a shown row is the formatted name in a `<div>`. */
  lemma WrappedName(base: Shown, cached: Option<CachedRelease>, k: nat)
    requires |base.header| >= 3 && |base.counts| >= 3 && k < |base.rows|
    requires forall m | 0 <= m < |base.rows| :: |base.rows[m]| >= 3
    requires cached.Some? ==> InjectableRows(base.rows, cached.value)
    ensures var shown := if cached.Some? then DivWrapAll(Inject(base, cached.value)) else DivWrapAll(base);
            |shown.rows| == |base.rows| && |shown.rows[k]| >= 1 && shown.rows[k][0] == "<div>" + base.rows[k][0] + "</div>"
  {
  }

  /** The data rows are shown in package-name order, each exactly once. */
  lemma ShownRowsSorted(csvRows: seq<seq<string>>, metadataBuilder: string -> Metadata,
                        cached: Option<CachedRelease>)
    requires WellFormedCsv(csvRows, metadataBuilder, cached)
    ensures var sorted := SortBy(csvRows[1..], RowKey, false);
            && multiset(sorted) == multiset(csvRows[1..])
            && forall k, m | 0 <= k < m < |sorted| :: !Less(RowKey(sorted[m]), RowKey(sorted[k]))
  {
    var sorted := SortBy(csvRows[1..], RowKey, false);
    forall k, m | 0 <= k < m < |sorted| ensures !Less(RowKey(sorted[m]), RowKey(sorted[k])) {
      assert !Before(RowKey(sorted[m]), RowKey(sorted[k]), false);
    }
  }
}
