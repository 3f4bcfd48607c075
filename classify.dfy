/** The rendering of one row of the status page (buildfarm/status_page.py):
    each version becomes a coloured square whose class says how it compares
    with the expected version, each cell gets the squares of its first three
    repositories and a `sync` marker, and the row gets a `diff` marker. */
module Classify {
  import opened Wrappers
  import opened Text
  import opened VersionsTable

  /** A column's metadata as `metadata_builder` returns it (a dict). */
  type Metadata = map<string, string>

  /** Python truthiness of an optional string: neither `None` nor empty. */
  predicate Truthy(s: Option<string>)
  {
    s.Some? && |s.value| > 0
  }

  /** Python truthiness of an optional dict. */
  predicate TruthyMetadata(md: Option<Metadata>)
  {
    md.Some? && |md.value| > 0
  }

  /** `{k1: v1, k2: v2}.get(key, default)`: when the keys coincide the later
      entry of the literal wins. */
  function DictGet2(k1: string, v1: string, k2: string, v2: string, key: string, default: string): string
  {
    if key == k2 then v2 else if key == k1 then v1 else default
  }

  /** `is_regression`: public has the package and this repository does not. */
  predicate IsRegression(version: string, publicVersion: string)
  {
    publicVersion != "None" && version == "None"
  }

  /** `make_square_div`: the order value is not part of the markup. */
  function MakeSquareDiv(title: string, color: string, orderValue: string): string
  {
    if color == "" then "<a title=\"" + title + "\" />"
    else "<a class=\"" + color + "\" title=\"" + title + "\" />"
  }

  /** `format_version`: one square. The order value, with its regression
      marker, is computed and then dropped. */
  function FormatVersion(version: string, latest: Option<string>, repo: string, searchSuffix: string,
                         publicVersion: string, url: Option<string>): string
  {
    var title := repo + ": " + version;
    var color :=
      if Truthy(latest) then DictGet2("None", "m", latest.value, "", version, "o")
      else if version == "None" then "i" else "obs";
    var orderValue :=
      if Truthy(latest) then DictGet2("None", "5&nbsp;red", latest.value, "1&nbsp;green", version, "3&nbsp;blue")
      else if version == "None" then "2&nbsp;gray" else "4&nbsp;yellow";
    var orderValue := orderValue + searchSuffix;
    var orderValue :=
      if repo != "ros/public" && IsRegression(version, publicVersion)
      then orderValue + "&nbsp;regression" + searchSuffix else orderValue;
    var orderValue := if Truthy(url) then "<a href=\"" + url.value + "\"></a>" else "";
    MakeSquareDiv(title, color, orderValue)
  }

  /** What a square means, as the page's legend names it. */
  datatype Status = Latest | Outdated | Missing | Obsolete | IntentionallyMissing

  /** The reference classification: with an expected version, equal means
      latest (this test comes first), `None` means missing and anything else
      outdated; without one, `None` is intentionally missing and anything
      else obsolete. */
  function ExpectedStatus(version: string, latest: Option<string>): Status
  {
    if Truthy(latest) then
      if version == latest.value then Latest
      else if version == "None" then Missing
      else Outdated
    else if version == "None" then IntentionallyMissing
    else Obsolete
  }

  /** The CSS class of each status. */
  function StatusClass(s: Status): (c: string)
    ensures c == "" <==> s == Latest
  {
    match s
    case Latest => ""
    case Outdated => "o"
    case Missing => "m"
    case Obsolete => "obs"
    case IntentionallyMissing => "i"
  }

  /** Every square is the square of its reference status, whatever the url,
      the public version and the search suffix. */
  lemma FormatVersionClassifies(version: string, latest: Option<string>, repo: string, searchSuffix: string,
                                publicVersion: string, url: Option<string>)
    ensures FormatVersion(version, latest, repo, searchSuffix, publicVersion, url)
            == MakeSquareDiv(repo + ": " + version, StatusClass(ExpectedStatus(version, latest)), "")
  {
  }

  /** Neither the url, nor the regression marker, nor the search suffix
      reaches the markup. */
  lemma FormatVersionIgnoresMarkers(version: string, latest: Option<string>, repo: string,
                                    suffix1: string, public1: string, url1: Option<string>,
                                    suffix2: string, public2: string, url2: Option<string>)
    ensures FormatVersion(version, latest, repo, suffix1, public1, url1)
            == FormatVersion(version, latest, repo, suffix2, public2, url2)
  {
    FormatVersionClassifies(version, latest, repo, suffix1, public1, url1);
    FormatVersionClassifies(version, latest, repo, suffix2, public2, url2);
  }

  /** A square carries a class attribute exactly when its version is not the
      expected one. */
  lemma ClassAttributeIffNotLatest(version: string, latest: Option<string>, repo: string, searchSuffix: string,
                                   publicVersion: string, url: Option<string>)
    ensures var sq := FormatVersion(version, latest, repo, searchSuffix, publicVersion, url);
            StartsWith(sq, "<a class=") <==> ExpectedStatus(version, latest) != Latest
  {
    FormatVersionClassifies(version, latest, repo, searchSuffix, publicVersion, url);
    var sq := FormatVersion(version, latest, repo, searchSuffix, publicVersion, url);
    if ExpectedStatus(version, latest) == Latest {
      assert sq[3] == 't';
      assert "<a class="[3] == 'c';
    }
  }

  lemma SquareEnd(title: string, color: string, orderValue: string)
    ensures var sq := MakeSquareDiv(title, color, orderValue);
            |sq| >= 2 && sq[|sq| - 2] == '/' && sq[|sq| - 1] == '>'
  {
  }

  // ---------------------------------------------------------------------
  // cells

  const RepoLabels: seq<string> := ["building", "shadow-fixed", "ros/public"]
  const SearchSuffixes: seq<string> := ["1", "2", "3"]
  const SyncSpan: string := "<span class=\"ht\">sync</span>"
  const DiffSpan: string := " <span class=\"ht\">diff</span>"

  function Min(a: int, b: int): int
  {
    if a < b then a else b
  }

  /** The squares of a cell: `zip` stops at the shortest of the segments,
      the three repository labels and the three search suffixes. */
  function Squares(versions: seq<string>, latest: Option<string>, url: Option<string>): (sq: seq<string>)
    requires |versions| >= 1
    ensures |sq| == Min(|versions|, 3)
  {
    seq(Min(|versions|, 3), k requires 0 <= k < Min(|versions|, 3) =>
      FormatVersion(versions[k], latest, RepoLabels[k], SearchSuffixes[k], versions[|versions| - 1],
                    if RepoLabels[k] == "building" then url else None))
  }

  /** `format_versions_cell`. */
  function FormatVersionsCell(cell: string, latest: Option<string>, url: Option<string>,
                              publicChangingOnSync: bool, noSource: bool): string
  {
    var versions := GetCellVersions(cell);
    var latest := if noSource then None else latest;
    Concat(Squares(versions, latest, url)) + (if publicChangingOnSync then SyncSpan else "")
  }

  /** `is_public_changing_on_sync`: shadow-fixed and ros/public disagree. A
      cell with fewer than three segments makes the source fail. */
  predicate IsPublicChangingOnSync(cell: string)
    requires |GetCellVersions(cell)| >= 3
  {
    var versions := GetCellVersions(cell);
    versions[1] != versions[2]
  }

  /** On a cell the versions table encoded, the sync flag compares the
      second and third repositories' versions. */
  lemma SyncFlagOfEncodedCell(versions: seq<string>)
    requires |versions| >= 3
    requires forall k | 0 <= k < |versions| :: '|' !in versions[k]
    ensures |GetCellVersions(AddVersionCell(versions))| >= 3
    ensures IsPublicChangingOnSync(AddVersionCell(versions)) <==> versions[1] != versions[2]
  {
    CellRoundTrip(versions);
  }

  lemma {:induction false} ConcatSquaresEnd(sq: seq<string>)
    requires |sq| >= 1
    requires forall k | 0 <= k < |sq| :: |sq[k]| >= 2 && sq[k][|sq[k]| - 2] == '/'
    ensures var c := Concat(sq); |c| >= 2 && c[|c| - 2] == '/'
  {
    if |sq| > 1 {
      ConcatSquaresEnd(sq[1..]);
      var rest := Concat(sq[1..]);
      assert (sq[0] + rest)[|sq[0] + rest| - 2] == rest[|rest| - 2];
    } else {
      assert Concat(sq) == sq[0] + Concat(sq[1..]);
      assert Concat(sq[1..]) == "";
    }
  }

  /** Every cell's squares, put together, end with a square's `/>`. */
  lemma SquaresEnd(versions: seq<string>, l: Option<string>, url: Option<string>)
    requires |versions| >= 1
    ensures var c := Concat(Squares(versions, l, url)); |c| >= 2 && c[|c| - 2] == '/'
  {
    var sq := Squares(versions, l, url);
    forall k | 0 <= k < |sq| ensures |sq[k]| >= 2 && sq[k][|sq[k]| - 2] == '/' {
      var repoUrl := if RepoLabels[k] == "building" then url else None;
      FormatVersionClassifies(versions[k], l, RepoLabels[k], SearchSuffixes[k], versions[|versions| - 1], repoUrl);
      SquareEnd(RepoLabels[k] + ": " + versions[k], StatusClass(ExpectedStatus(versions[k], l)), "");
    }
    ConcatSquaresEnd(sq);
  }

  /** The cell carries the sync marker exactly when the flag is set: it ends
      with the marker then, and with a square's `/>` otherwise. */
  lemma SyncMarkerIff(cell: string, latest: Option<string>, url: Option<string>,
                      publicChangingOnSync: bool, noSource: bool)
    ensures var out := FormatVersionsCell(cell, latest, url, publicChangingOnSync, noSource);
            (|out| >= |SyncSpan| && out[|out| - |SyncSpan|..] == SyncSpan) <==> publicChangingOnSync
  {
    var out := FormatVersionsCell(cell, latest, url, publicChangingOnSync, noSource);
    if !publicChangingOnSync {
      var l := if noSource then None else latest;
      SquaresEnd(GetCellVersions(cell), l, url);
      assert SyncSpan[|SyncSpan| - 2] == 'n';
      if |out| >= |SyncSpan| {
        assert out[|out| - |SyncSpan|..][|SyncSpan| - 2] == '/';
      }
    }
  }

  /** A cell's markup depends neither on the url nor on the public version:
      the squares are those of the reference classification. */
  lemma CellSquaresClassified(cell: string, latest: Option<string>, url: Option<string>, noSource: bool, k: int)
    requires 0 <= k < Min(|GetCellVersions(cell)|, 3)
    ensures var versions := GetCellVersions(cell);
            var l := if noSource then None else latest;
            Squares(versions, l, url)[k]
            == MakeSquareDiv(RepoLabels[k] + ": " + versions[k], StatusClass(ExpectedStatus(versions[k], l)), "")
  {
    var versions := GetCellVersions(cell);
    var l := if noSource then None else latest;
    var repoUrl := if RepoLabels[k] == "building" then url else None;
    FormatVersionClassifies(versions[k], l, RepoLabels[k], SearchSuffixes[k], versions[|versions| - 1], repoUrl);
  }

  lemma CellIgnoresUrl(cell: string, latest: Option<string>, url1: Option<string>, url2: Option<string>,
                       publicChangingOnSync: bool, noSource: bool)
    ensures FormatVersionsCell(cell, latest, url1, publicChangingOnSync, noSource)
            == FormatVersionsCell(cell, latest, url2, publicChangingOnSync, noSource)
  {
    var versions := GetCellVersions(cell);
    var l := if noSource then None else latest;
    forall k | 0 <= k < Min(|versions|, 3)
      ensures Squares(versions, l, url1)[k] == Squares(versions, l, url2)[k]
    {
      CellSquaresClassified(cell, latest, url1, noSource, k);
      CellSquaresClassified(cell, latest, url2, noSource, k);
    }
    assert Squares(versions, l, url1) == Squares(versions, l, url2);
  }

  // ---------------------------------------------------------------------
  // header cells and rows

  /** `format_header_cell`: the column label from the metadata, else the
      name with its first letter upper-cased (an empty name makes the source
      fail). */
  function FormatHeaderCell(cell: string, metadata: Option<Metadata>): (r: string)
    requires (TruthyMetadata(metadata) && "column_label" in metadata.value) || |cell| > 0
    ensures TruthyMetadata(metadata) && "column_label" in metadata.value ==> r == metadata.value["column_label"]
    ensures !(TruthyMetadata(metadata) && "column_label" in metadata.value) ==>
              |r| == |cell| && r[0] == Upper(cell[0]) && r[1..] == cell[1..]
  {
    if TruthyMetadata(metadata) && "column_label" in metadata.value then metadata.value["column_label"]
    else [Upper(cell[0])] + cell[1..]
  }

  /** Capitalising a capitalised name changes nothing. */
  lemma FormatHeaderCellIdempotent(cell: string)
    requires |cell| > 0
    ensures FormatHeaderCell(FormatHeaderCell(cell, None), None) == FormatHeaderCell(cell, None)
  {
    var once := FormatHeaderCell(cell, None);
    assert once == [once[0]] + once[1..];
  }

  /** The package kinds the registry and the table use. */
  predicate KnownKind(kind: string)
  {
    kind == "wet" || kind == "dry" || kind == "unknown" || kind == "variant"
  }

  /** `type_texts[kind]`. */
  function TypeText(kind: string): string
    requires KnownKind(kind)
  {
    if kind == "wet" then "wet"
    else if kind == "dry" then "dry"
    else if kind == "unknown" then "?"
    else "var"
  }

  /** Dry and variant rows have no sourcedeb of their own. */
  predicate NoSource(kind: string)
  {
    kind == "variant" || kind == "dry"
  }

  /** Column i takes part in the diff test: a version column, and not a
      source column of a dry or variant row. */
  predicate DiffEligible(kind: string, i: int)
  {
    i > 2 && (!NoSource(kind) || i % 3 != 0)
  }

  /** `diff_columns`, in column order. */
  function DiffColumns(row: seq<string>, from: nat): seq<string>
    requires |row| >= 3 && from <= |row|
    decreases |row| - from
  {
    if from == |row| then []
    else (if DiffEligible(row[2], from) then [row[from]] else []) + DiffColumns(row, from + 1)
  }

  lemma {:induction false} DiffColumnsMembership(row: seq<string>, from: nat, c: string)
    requires |row| >= 3 && from <= |row|
    ensures c in DiffColumns(row, from) <==> exists i | from <= i < |row| :: DiffEligible(row[2], i) && row[i] == c
    decreases |row| - from
  {
    if from < |row| {
      DiffColumnsMembership(row, from + 1, c);
    }
  }

  /** `has_diff_between_rosdistros`. */
  predicate HasDiff(row: seq<string>)
    requires |row| >= 3
  {
    |set c | c in DiffColumns(row, 0)| > 1
  }

  /** Two eligible columns with different cells give two distinct values. */
  lemma DiffFromWitnesses(row: seq<string>, i: int, j: int)
    requires |row| >= 3 && 0 <= i < |row| && 0 <= j < |row|
    requires DiffEligible(row[2], i) && DiffEligible(row[2], j) && row[i] != row[j]
    ensures HasDiff(row)
  {
    var s := set c | c in DiffColumns(row, 0);
    DiffColumnsMembership(row, 0, row[i]);
    DiffColumnsMembership(row, 0, row[j]);
    assert {row[i], row[j]} <= s;
    assert s == {row[i], row[j]} + (s - {row[i], row[j]});
  }

  /** A flagged row has two eligible columns with different cells. */
  lemma WitnessesFromDiff(row: seq<string>) returns (i: int, j: int)
    requires |row| >= 3 && HasDiff(row)
    ensures 0 <= i < |row| && 0 <= j < |row|
    ensures DiffEligible(row[2], i) && DiffEligible(row[2], j) && row[i] != row[j]
  {
    var s := set c | c in DiffColumns(row, 0);
    var a :| a in s;
    var rest := s - {a};
    assert |rest| > 0;
    var b :| b in rest;
    DiffColumnsMembership(row, 0, a);
    DiffColumnsMembership(row, 0, b);
    i :| 0 <= i < |row| && DiffEligible(row[2], i) && row[i] == a;
    j :| 0 <= j < |row| && DiffEligible(row[2], j) && row[j] == b;
  }

  /** The row is flagged exactly when two eligible columns hold different cells. */
  lemma HasDiffIff(row: seq<string>)
    requires |row| >= 3
    ensures HasDiff(row) <==>
            exists i, j | 0 <= i < |row| && 0 <= j < |row| ::
              DiffEligible(row[2], i) && DiffEligible(row[2], j) && row[i] != row[j]
  {
    if HasDiff(row) {
      var i, j := WitnessesFromDiff(row);
    }
    if exists i, j | 0 <= i < |row| && 0 <= j < |row| ::
         DiffEligible(row[2], i) && DiffEligible(row[2], j) && row[i] != row[j] {
      var i, j :| 0 <= i < |row| && 0 <= j < |row| &&
                  DiffEligible(row[2], i) && DiffEligible(row[2], j) && row[i] != row[j];
      DiffFromWitnesses(row, i, j);
    }
  }

  /** The metadata a column keeps for this row: dry rows lose it on source
      columns, unknown and variant rows everywhere. */
  function RowMetadata(kind: string, metadataColumns: seq<Option<Metadata>>, i: int): Option<Metadata>
    requires 0 <= i < |metadataColumns|
  {
    if i < 3 then None
    else if kind == "dry" then (if i % 3 != 0 then metadataColumns[i] else None)
    else if kind == "unknown" || kind == "variant" then None
    else metadataColumns[i]
  }

  /** `template.format(pkg=name)` for a template whose only field is `{pkg}`. */
  function FormatPkg(template: string, pkg: string): string
  {
    ReplaceAll(template, "{pkg}", pkg)
  }

  /** `job_urls[i]`. */
  function JobUrl(md: Option<Metadata>, pkgName: string): Option<string>
    requires TruthyMetadata(md) ==> "job_url" in md.value
  {
    if TruthyMetadata(md) then Some(FormatPkg(md.value["job_url"], ReplaceChar(pkgName, '_', '-'))) else None
  }

  /** `latest_version`: none for rows the registry does not know. */
  function LatestVersion(row: seq<string>): Option<string>
    requires |row| >= 3
  {
    if row[2] != "unknown" then Some(row[1]) else None
  }

  /** What `format_row` needs of its row: a known kind, a metadata entry per
      column (with a `job_url` wherever it is used), and at least three
      segments in every version cell. */
  predicate FormattableRow(row: seq<string>, metadataColumns: seq<Option<Metadata>>)
  {
    |row| >= 3 && KnownKind(row[2]) && |metadataColumns| >= |row|
    && (forall i | 3 <= i < |row| :: |GetCellVersions(row[i])| >= 3)
    && (forall i | 3 <= i < |row| ::
          TruthyMetadata(RowMetadata(row[2], metadataColumns, i)) ==> "job_url" in RowMetadata(row[2], metadataColumns, i).value)
  }

  /** `format_row`. The source rebuilds the row as a new list before it
      appends the diff marker and replaces the kind, so the row is a value. */
  function FormatRow(row: seq<string>, metadataColumns: seq<Option<Metadata>>): (r: seq<string>)
    requires FormattableRow(row, metadataColumns)
    ensures |r| == |row|
  {
    var noSource := NoSource(row[2]);
    var latest := LatestVersion(row);
    var cells := seq(|row| - 3, k requires 0 <= k < |row| - 3 =>
      FormatVersionsCell(row[k + 3], latest, JobUrl(RowMetadata(row[2], metadataColumns, k + 3), row[0]),
                         IsPublicChangingOnSync(row[k + 3]), noSource && (k + 3) % 3 == 0));
    [row[0] + (if HasDiff(row) then DiffSpan else ""), row[1], TypeText(row[2])] + cells
  }

  /** The first three cells of a formatted row: the name with the diff
      marker exactly when the row is flagged, the version, the kind text. */
  lemma FormatRowLeadingCells(row: seq<string>, metadataColumns: seq<Option<Metadata>>)
    requires FormattableRow(row, metadataColumns)
    ensures var r := FormatRow(row, metadataColumns);
            && r[0] == row[0] + (if HasDiff(row) then DiffSpan else "")
            && r[1] == row[1]
            && r[2] == TypeText(row[2])
            && (r[0] != row[0] <==> HasDiff(row))
  {
    var r := FormatRow(row, metadataColumns);
    if HasDiff(row) {
      assert |r[0]| > |row[0]|;
    }
  }

  lemma FormatRowAt(row: seq<string>, metadataColumns: seq<Option<Metadata>>, i: int)
    requires FormattableRow(row, metadataColumns)
    requires 3 <= i < |row|
    ensures FormatRow(row, metadataColumns)[i]
            == FormatVersionsCell(row[i], LatestVersion(row), JobUrl(RowMetadata(row[2], metadataColumns, i), row[0]),
                                  IsPublicChangingOnSync(row[i]), NoSource(row[2]) && i % 3 == 0)
  {
  }

  /** How each version cell is rendered: rows of unknown packages and the
      source columns of dry and variant rows have no expected version; every
      other cell is compared with the row's version; the sync marker is set
      from the cell's own segments; the url is irrelevant. */
  lemma FormatRowCells(row: seq<string>, metadataColumns: seq<Option<Metadata>>, i: int)
    requires FormattableRow(row, metadataColumns)
    requires 3 <= i < |row|
    ensures var expected := if row[2] == "unknown" || (NoSource(row[2]) && i % 3 == 0) then None else Some(row[1]);
            FormatRow(row, metadataColumns)[i]
            == FormatVersionsCell(row[i], expected, None, IsPublicChangingOnSync(row[i]), false)
  {
    var md := RowMetadata(row[2], metadataColumns, i);
    var noSource := NoSource(row[2]) && i % 3 == 0;
    FormatRowAt(row, metadataColumns, i);
    CellIgnoresUrl(row[i], LatestVersion(row), JobUrl(md, row[0]), None, IsPublicChangingOnSync(row[i]), noSource);
  }
}
