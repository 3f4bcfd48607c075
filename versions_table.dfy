/** The in-memory versions table of the status page
    (`make_versions_table`, `get_versions`, `add_version_cell` and
    `get_cell_versions` in buildfarm/status_page.py). The registry, the apt
    lookup and `debianize_package_name` are inputs. */
module VersionsTable {
  import opened Wrappers
  import opened Text
  import opened VersionStrip

  /** The apt lookup: `apt_data.debian_packages` and `apt_data.get_version`,
      which answers `None` for a package a repository does not carry. */
  datatype AptData = AptData(
    debianPackages: seq<string>,
    getVersion: (string, string, string) -> Option<string>)

  /** One package of the registry (`rd_data.packages.values()`). */
  datatype PackageData = PackageData(name: string, version: string, kind: string)

  /** `str(v)`: the absence of a version prints as the sentinel `None`. */
  function PyStr(v: Option<string>): string
  {
    match v
    case None => "None"
    case Some(s) => s
  }

  /** The normalised version of `pkgName` in every repository, in repository order. */
  function VersionsOf(apt: AptData, pkgName: string, repoNames: seq<string>, daStr: string): seq<string>
  {
    seq(|repoNames|, k requires 0 <= k < |repoNames| =>
      StripVersionSuffix(PyStr(apt.getVersion(pkgName, repoNames[k], daStr))))
  }

  /** `get_versions`: one normalised version per repository, appended in order. */
  method GetVersions(apt: AptData, pkgName: string, repoNames: seq<string>, daStr: string)
    returns (versions: seq<string>)
    ensures versions == VersionsOf(apt, pkgName, repoNames, daStr)
  {
    versions := [];
    for k := 0 to |repoNames|
      invariant |versions| == k
      invariant forall m | 0 <= m < k ::
        versions[m] == StripVersionSuffix(PyStr(apt.getVersion(pkgName, repoNames[m], daStr)))
    {
      var v := PyStr(apt.getVersion(pkgName, repoNames[k], daStr));
      v := StripVersionSuffix(v);
      versions := versions + [v];
    }
  }

  /** `add_version_cell`: the versions joined with `|`. */
  function AddVersionCell(versions: seq<string>): string
  {
    Join(versions, "|")
  }

  /** `get_cell_versions`: the cell split on `|`. */
  function GetCellVersions(cell: string): (r: seq<string>)
    ensures |r| >= 1
    ensures forall k | 0 <= k < |r| :: '|' !in r[k]
  {
    Split(cell, '|')
  }

  /** Decoding an encoded cell gives the versions back, when there is at
      least one and none holds a `|`. */
  lemma CellRoundTrip(versions: seq<string>)
    requires |versions| >= 1
    requires forall k | 0 <= k < |versions| :: '|' !in versions[k]
    ensures GetCellVersions(AddVersionCell(versions)) == versions
  {
    SplitJoin(versions, '|');
  }

  /** Re-encoding a decoded cell gives the cell back. */
  lemma CellDecodeEncode(cell: string)
    ensures AddVersionCell(GetCellVersions(cell)) == cell
  {
    JoinSplit(cell, '|');
  }

  /** Without repositories the cell is empty and still decodes to one segment. */
  lemma NoRepositoryCell()
    ensures AddVersionCell([]) == ""
    ensures GetCellVersions(AddVersionCell([])) == [""]
  {
  }

  /** A cell of the table has exactly one segment per repository, in
      repository order, each the normalised `str(v)` of that repository,
      provided the raw versions hold no `|`. */
  lemma CellSegments(apt: AptData, pkgName: string, repoNames: seq<string>, daStr: string)
    requires |repoNames| >= 1
    requires forall k | 0 <= k < |repoNames| :: '|' !in PyStr(apt.getVersion(pkgName, repoNames[k], daStr))
    ensures var segs := GetCellVersions(AddVersionCell(VersionsOf(apt, pkgName, repoNames, daStr)));
            && |segs| == |repoNames|
            && forall k | 0 <= k < |repoNames| ::
                 segs[k] == StripVersionSuffix(PyStr(apt.getVersion(pkgName, repoNames[k], daStr)))
  {
    var vs := VersionsOf(apt, pkgName, repoNames, daStr);
    forall k | 0 <= k < |vs| ensures '|' !in vs[k] {
      if '|' in vs[k] {
        StripKeepsCharacters(PyStr(apt.getVersion(pkgName, repoNames[k], daStr)), '|');
      }
    }
    CellRoundTrip(vs);
  }

  // ---------------------------------------------------------------------
  // prefixes of the other ROS distributions

  const LegacyPrefixes: seq<string> := ["ros-electric-", "ros-fuerte-", "ros-unstable-"]

  /** `'ros-%s-' % distro`. */
  function DistroPrefix(distro: string): string
  {
    "ros-" + distro + "-"
  }

  /** `xs.remove(x)`: only the first occurrence goes. */
  function RemoveFirst(xs: seq<string>, x: string): (r: seq<string>)
    ensures x in xs ==> |r| == |xs| - 1 && Count(r, x) == Count(xs, x) - 1
    ensures x !in xs ==> r == xs
    ensures forall y | y != x :: Count(r, y) == Count(xs, y)
  {
    if |xs| == 0 then []
    else if xs[0] == x then xs[1..]
    else [xs[0]] + RemoveFirst(xs[1..], x)
  }

  lemma {:induction false} CountPositive(xs: seq<string>, x: string)
    ensures x in xs <==> Count(xs, x) > 0
  {
    if |xs| > 0 {
      CountPositive(xs[1..], x);
      assert x in xs <==> x == xs[0] || x in xs[1..];
    }
  }

  /** The prefixes of every distribution of the index, before the removal. */
  function AllPrefixes(distributions: seq<string>): seq<string>
  {
    if |distributions| == 0 then LegacyPrefixes
    else AllPrefixes(distributions[..|distributions| - 1]) + [DistroPrefix(distributions[|distributions| - 1])]
  }

  /** The prefixes that mark packages of other distributions. */
  function OtherPrefixes(distributions: seq<string>, rosdistro: string): seq<string>
  {
    RemoveFirst(AllPrefixes(distributions), DistroPrefix(rosdistro))
  }

  /** The prefix list of `make_versions_table`: the legacy prefixes, one per
      distribution of the index, and then one removal of the active one. */
  method BuildPrefixes(distributions: seq<string>, rosdistro: string) returns (prefixes: seq<string>)
    ensures prefixes == OtherPrefixes(distributions, rosdistro)
  {
    prefixes := ["ros-electric-", "ros-fuerte-", "ros-unstable-"];
    for k := 0 to |distributions|
      invariant prefixes == AllPrefixes(distributions[..k])
    {
      assert distributions[..k + 1][..k] == distributions[..k];
      prefixes := prefixes + [DistroPrefix(distributions[k])];
    }
    assert distributions[..|distributions|] == distributions;
    var rosdistroPrefix := DistroPrefix(rosdistro);
    if rosdistroPrefix in prefixes {
      prefixes := RemoveFirst(prefixes, rosdistroPrefix);
    }
  }

  /** The active distribution's prefix survives the removal exactly when it
      was listed more than once (e.g. `fuerte` also named by the index). */
  lemma ActivePrefixSurvives(distributions: seq<string>, rosdistro: string)
    ensures DistroPrefix(rosdistro) in OtherPrefixes(distributions, rosdistro)
            <==> Count(AllPrefixes(distributions), DistroPrefix(rosdistro)) >= 2
  {
    var p := DistroPrefix(rosdistro);
    CountPositive(AllPrefixes(distributions), p);
    CountPositive(OtherPrefixes(distributions, rosdistro), p);
  }

  // ---------------------------------------------------------------------
  // apt packages of this distribution that the registry does not list

  /** `debian_name` is kept as an extra row: it carries none of the other
      prefixes, is not a registry package and carries the active prefix. */
  predicate IsExtra(debianName: string, prefixes: seq<string>, registryNames: seq<string>, rosdistroPrefix: string)
  {
    (forall k | 0 <= k < |prefixes| :: !StartsWith(debianName, prefixes[k]))
    && debianName !in registryNames
    && StartsWith(debianName, rosdistroPrefix)
  }

  /** The extra names, in apt order, duplicates kept. */
  function FilterExtras(debianPackages: seq<string>, prefixes: seq<string>, registryNames: seq<string>, rosdistroPrefix: string): seq<string>
  {
    if |debianPackages| == 0 then []
    else
      var last := debianPackages[|debianPackages| - 1];
      FilterExtras(debianPackages[..|debianPackages| - 1], prefixes, registryNames, rosdistroPrefix)
      + (if IsExtra(last, prefixes, registryNames, rosdistroPrefix) then [last] else [])
  }

  /** An apt name becomes an extra row exactly when it passes every filter. */
  lemma {:induction false} FilterExtrasMembership(debianPackages: seq<string>, prefixes: seq<string>, registryNames: seq<string>, rosdistroPrefix: string, x: string)
    ensures x in FilterExtras(debianPackages, prefixes, registryNames, rosdistroPrefix)
            <==> x in debianPackages && IsExtra(x, prefixes, registryNames, rosdistroPrefix)
  {
    if |debianPackages| > 0 {
      var init := debianPackages[..|debianPackages| - 1];
      FilterExtrasMembership(init, prefixes, registryNames, rosdistroPrefix, x);
      assert debianPackages == init + [debianPackages[|debianPackages| - 1]];
    }
  }

  /** When the active prefix is still among the prefixes to skip, no apt
      package can become an extra row. */
  lemma {:induction false} SurvivingActivePrefixHidesExtras(debianPackages: seq<string>, prefixes: seq<string>, registryNames: seq<string>, rosdistroPrefix: string)
    requires rosdistroPrefix in prefixes
    ensures FilterExtras(debianPackages, prefixes, registryNames, rosdistroPrefix) == []
  {
    if |debianPackages| > 0 {
      SurvivingActivePrefixHidesExtras(debianPackages[..|debianPackages| - 1], prefixes, registryNames, rosdistroPrefix);
      var last := debianPackages[|debianPackages| - 1];
      var k :| 0 <= k < |prefixes| && prefixes[k] == rosdistroPrefix;
      assert !IsExtra(last, prefixes, registryNames, rosdistroPrefix) by {
        if StartsWith(last, rosdistroPrefix) {
          assert StartsWith(last, prefixes[k]);
        }
      }
    }
  }

  /** The filter loop of `make_versions_table`, with its inner scan over the
      prefixes setting `skip`. */
  method ExtraDebianNames(debianPackages: seq<string>, prefixes: seq<string>, registryNames: seq<string>, rosdistroPrefix: string)
    returns (names: seq<string>)
    ensures names == FilterExtras(debianPackages, prefixes, registryNames, rosdistroPrefix)
  {
    names := [];
    for i := 0 to |debianPackages|
      invariant names == FilterExtras(debianPackages[..i], prefixes, registryNames, rosdistroPrefix)
    {
      var debianName := debianPackages[i];
      assert debianPackages[..i + 1][..i] == debianPackages[..i];
      var skip := false;
      for k := 0 to |prefixes|
        invariant skip <==> exists m | 0 <= m < k :: StartsWith(debianName, prefixes[m])
      {
        if StartsWith(debianName, prefixes[k]) {
          skip := true;
        }
      }
      if skip {
        continue;
      }
      if debianName in registryNames {
        continue;
      }
      if !StartsWith(debianName, rosdistroPrefix) {
        continue;
      }
      names := names + [debianName];
    }
    assert debianPackages[..|debianPackages|] == debianPackages;
  }

  // ---------------------------------------------------------------------
  // the expected version of an extra row

  /** The values other than the sentinel `None`. */
  function NonNoneSet(versions: seq<string>): set<string>
  {
    set v | v in versions && v != "None"
  }

  function FirstNonNone(versions: seq<string>): string
  {
    if |versions| == 0 then ""
    else if versions[0] != "None" then versions[0]
    else FirstNonNone(versions[1..])
  }

  lemma {:induction false} FirstNonNoneIn(versions: seq<string>)
    requires |NonNoneSet(versions)| > 0
    ensures FirstNonNone(versions) in NonNoneSet(versions)
  {
    var v :| v in NonNoneSet(versions);
    if versions[0] == "None" {
      assert v in NonNoneSet(versions[1..]);
      FirstNonNoneIn(versions[1..]);
    }
  }

  /** `unique_versions.pop()` when there is exactly one value besides `None`, else `''`. */
  function InferredVersion(allVersions: seq<string>): (r: string)
    ensures |NonNoneSet(allVersions)| == 1 ==> NonNoneSet(allVersions) == {r}
    ensures |NonNoneSet(allVersions)| != 1 ==> r == ""
  {
    if |NonNoneSet(allVersions)| == 1 then
      FirstNonNoneIn(allVersions);
      var u := NonNoneSet(allVersions);
      var r := FirstNonNone(allVersions);
      assert u == {r} by {
        var w := u - {r};
        assert u == w + {r};
        assert |w| == 0;
      }
      r
    else ""
  }

  /** Agreement of the extra row's versions fixes its expected version; a row
      without any version, or with two different ones, has none. */
  lemma InferredVersionCases(allVersions: seq<string>, v: string)
    requires v != "None" && v in allVersions
    ensures (forall k | 0 <= k < |allVersions| :: allVersions[k] == v || allVersions[k] == "None")
            ==> InferredVersion(allVersions) == v
    ensures (exists k | 0 <= k < |allVersions| :: allVersions[k] != v && allVersions[k] != "None")
            ==> InferredVersion(allVersions) == ""
  {
    var u := NonNoneSet(allVersions);
    assert v in u;
    if forall k | 0 <= k < |allVersions| :: allVersions[k] == v || allVersions[k] == "None" {
      assert u == {v};
    }
    if exists k | 0 <= k < |allVersions| :: allVersions[k] != v && allVersions[k] != "None" {
      var k :| 0 <= k < |allVersions| && allVersions[k] != v && allVersions[k] != "None";
      assert {v, allVersions[k]} <= u;
      assert |{v, allVersions[k]}| == 2;
    }
  }

  lemma NoVersionNoExpectation(allVersions: seq<string>)
    requires forall k | 0 <= k < |allVersions| :: allVersions[k] == "None"
    ensures InferredVersion(allVersions) == ""
  {
    assert NonNoneSet(allVersions) == {};
  }

  // ---------------------------------------------------------------------
  // the table

  /** The column names of the structured array. */
  function TableHeader(daStrs: seq<string>): seq<string>
  {
    ["name", "version", "wet"] + daStrs
  }

  /** The cells of one row: one encoded cell per column key. */
  function CellsOf(apt: AptData, debianName: string, repoNames: seq<string>, daStrs: seq<string>): seq<string>
  {
    seq(|daStrs|, j requires 0 <= j < |daStrs| => AddVersionCell(VersionsOf(apt, debianName, repoNames, daStrs[j])))
  }

  /** `all_versions`: the versions of every column, one after the other. */
  function AllVersionsOf(apt: AptData, debianName: string, repoNames: seq<string>, daStrs: seq<string>): seq<string>
  {
    if |daStrs| == 0 then []
    else AllVersionsOf(apt, debianName, repoNames, daStrs[..|daStrs| - 1])
         + VersionsOf(apt, debianName, repoNames, daStrs[|daStrs| - 1])
  }

  function RegistryRow(pkg: PackageData, apt: AptData, repoNames: seq<string>, daStrs: seq<string>, rosdistro: string,
                       debianize: (string, string) -> string): seq<string>
  {
    [pkg.name, pkg.version, pkg.kind] + CellsOf(apt, debianize(rosdistro, pkg.name), repoNames, daStrs)
  }

  /** The package name of an extra row: the active prefix taken off. */
  function UndebianizedName(debianName: string, rosdistroPrefix: string): string
  {
    if StartsWith(debianName, rosdistroPrefix) then debianName[|rosdistroPrefix|..] else debianName
  }

  function ExtraRow(debianName: string, apt: AptData, repoNames: seq<string>, daStrs: seq<string>, rosdistro: string): seq<string>
  {
    [UndebianizedName(debianName, DistroPrefix(rosdistro)),
     InferredVersion(AllVersionsOf(apt, debianName, repoNames, daStrs)),
     "unknown"]
    + CellsOf(apt, debianName, repoNames, daStrs)
  }

  function RegistryDebianNames(packages: seq<PackageData>, rosdistro: string, debianize: (string, string) -> string): seq<string>
  {
    seq(|packages|, i requires 0 <= i < |packages| => debianize(rosdistro, packages[i].name))
  }

  function Extras(packages: seq<PackageData>, apt: AptData, rosdistro: string, distributions: seq<string>,
                  debianize: (string, string) -> string): seq<string>
  {
    FilterExtras(apt.debianPackages, OtherPrefixes(distributions, rosdistro),
                 RegistryDebianNames(packages, rosdistro, debianize), DistroPrefix(rosdistro))
  }

  /** The rows of the table: the registry packages in their given order, then
      the extra apt packages in apt order. */
  function Table(packages: seq<PackageData>, apt: AptData, daStrs: seq<string>, repoNames: seq<string>,
                 rosdistro: string, distributions: seq<string>, debianize: (string, string) -> string): seq<seq<string>>
  {
    var extras := Extras(packages, apt, rosdistro, distributions, debianize);
    seq(|packages|, i requires 0 <= i < |packages| => RegistryRow(packages[i], apt, repoNames, daStrs, rosdistro, debianize))
    + seq(|extras|, k requires 0 <= k < |extras| => ExtraRow(extras[k], apt, repoNames, daStrs, rosdistro))
  }

  lemma TableAt(packages: seq<PackageData>, apt: AptData, daStrs: seq<string>, repoNames: seq<string>,
                rosdistro: string, distributions: seq<string>, debianize: (string, string) -> string)
    ensures var t := Table(packages, apt, daStrs, repoNames, rosdistro, distributions, debianize);
            var extras := Extras(packages, apt, rosdistro, distributions, debianize);
            && |t| == |packages| + |extras|
            && (forall i | 0 <= i < |packages| :: t[i] == RegistryRow(packages[i], apt, repoNames, daStrs, rosdistro, debianize))
            && (forall k | 0 <= k < |extras| :: t[|packages| + k] == ExtraRow(extras[k], apt, repoNames, daStrs, rosdistro))
  {
  }

  /** The inner loop over the column keys: each cell, and the versions of the
      row gathered in `all_versions`. */
  method RowCells(apt: AptData, debianName: string, repoNames: seq<string>, daStrs: seq<string>)
    returns (cells: seq<string>, allVersions: seq<string>)
    ensures cells == CellsOf(apt, debianName, repoNames, daStrs)
    ensures allVersions == AllVersionsOf(apt, debianName, repoNames, daStrs)
  {
    cells := [];
    allVersions := [];
    for j := 0 to |daStrs|
      invariant |cells| == j
      invariant forall m | 0 <= m < j :: cells[m] == AddVersionCell(VersionsOf(apt, debianName, repoNames, daStrs[m]))
      invariant allVersions == AllVersionsOf(apt, debianName, repoNames, daStrs[..j])
    {
      var versions := GetVersions(apt, debianName, repoNames, daStrs[j]);
      cells := cells + [AddVersionCell(versions)];
      assert daStrs[..j + 1][..j] == daStrs[..j];
      allVersions := allVersions + versions;
    }
    assert daStrs[..|daStrs|] == daStrs;
  }

  /** `make_versions_table`: the table is allocated with one row per registry
      package and per extra apt package and filled by index. */
  method MakeVersionsTable(packages: seq<PackageData>, apt: AptData, daStrs: seq<string>, repoNames: seq<string>,
                           rosdistro: string, distributions: seq<string>, debianize: (string, string) -> string)
    returns (table: array<seq<string>>)
    ensures fresh(table)
    ensures table[..] == Table(packages, apt, daStrs, repoNames, rosdistro, distributions, debianize)
  {
    var distroDebianNames := RegistryDebianNames(packages, rosdistro, debianize);
    var prefixes := BuildPrefixes(distributions, rosdistro);
    var rosdistroPrefix := DistroPrefix(rosdistro);
    var nonDistroDebianNames := ExtraDebianNames(apt.debianPackages, prefixes, distroDebianNames, rosdistroPrefix);
    assert nonDistroDebianNames == Extras(packages, apt, rosdistro, distributions, debianize);

    table := new seq<string>[|packages| + |nonDistroDebianNames|](_ => []);
    FillRegistryRows(table, packages, apt, daStrs, repoNames, rosdistro, debianize);
    FillExtraRows(table, |packages|, nonDistroDebianNames, apt, daStrs, repoNames, rosdistro);
    TableAt(packages, apt, daStrs, repoNames, rosdistro, distributions, debianize);
    ghost var expected := Table(packages, apt, daStrs, repoNames, rosdistro, distributions, debianize);
    forall m | 0 <= m < table.Length ensures table[m] == expected[m] {
      if m >= |packages| {
        assert table[|packages| + (m - |packages|)] == expected[|packages| + (m - |packages|)];
      }
    }
  }

  /** The loop over the registry packages: row i holds package i. */
  method FillRegistryRows(table: array<seq<string>>, packages: seq<PackageData>, apt: AptData, daStrs: seq<string>,
                          repoNames: seq<string>, rosdistro: string, debianize: (string, string) -> string)
    requires |packages| <= table.Length
    modifies table
    ensures forall m | 0 <= m < |packages| :: table[m] == RegistryRow(packages[m], apt, repoNames, daStrs, rosdistro, debianize)
    ensures forall m | |packages| <= m < table.Length :: table[m] == old(table[m])
  {
    for i := 0 to |packages|
      invariant forall m | 0 <= m < i :: table[m] == RegistryRow(packages[m], apt, repoNames, daStrs, rosdistro, debianize)
      invariant forall m | |packages| <= m < table.Length :: table[m] == old(table[m])
    {
      var pkgData := packages[i];
      var cells, _ := RowCells(apt, debianize(rosdistro, pkgData.name), repoNames, daStrs);
      table[i] := [pkgData.name, pkgData.version, pkgData.kind] + cells;
    }
  }

  /** The loop over the extra apt names: row `start + k` holds extra name k. */
  method FillExtraRows(table: array<seq<string>>, start: nat, nonDistroDebianNames: seq<string>, apt: AptData,
                       daStrs: seq<string>, repoNames: seq<string>, rosdistro: string)
    requires start + |nonDistroDebianNames| <= table.Length
    modifies table
    ensures forall k | 0 <= k < |nonDistroDebianNames| ::
      table[start + k] == ExtraRow(nonDistroDebianNames[k], apt, repoNames, daStrs, rosdistro)
    ensures forall m | 0 <= m < start :: table[m] == old(table[m])
    ensures forall m | start + |nonDistroDebianNames| <= m < table.Length :: table[m] == old(table[m])
  {
    var rosdistroPrefix := DistroPrefix(rosdistro);
    var i := start;
    for k := 0 to |nonDistroDebianNames|
      invariant i == start + k
      invariant forall n | 0 <= n < k ::
        table[start + n] == ExtraRow(nonDistroDebianNames[n], apt, repoNames, daStrs, rosdistro)
      invariant forall m | 0 <= m < start :: table[m] == old(table[m])
      invariant forall m | start + |nonDistroDebianNames| <= m < table.Length :: table[m] == old(table[m])
    {
      var debianName := nonDistroDebianNames[k];
      var pkgName := debianName;
      if StartsWith(pkgName, rosdistroPrefix) {
        pkgName := pkgName[|rosdistroPrefix|..];
      }
      var cells, allVersions := RowCells(apt, debianName, repoNames, daStrs);
      table[i] := [pkgName, InferredVersion(allVersions), "unknown"] + cells;
      i := i + 1;
    }
  }

  /** The shape of the table: registry rows first, in registry order, with
      the registry's name, version and kind; then one row per extra apt name
      with the active prefix stripped, kind `unknown` and the inferred
      version; every row has one cell per column key. */
  lemma TableShape(packages: seq<PackageData>, apt: AptData, daStrs: seq<string>, repoNames: seq<string>,
                   rosdistro: string, distributions: seq<string>, debianize: (string, string) -> string)
    ensures var t := Table(packages, apt, daStrs, repoNames, rosdistro, distributions, debianize);
            var extras := Extras(packages, apt, rosdistro, distributions, debianize);
            && |t| == |packages| + |extras|
            && (forall i | 0 <= i < |t| :: |t[i]| == |TableHeader(daStrs)|)
            && (forall i | 0 <= i < |packages| ::
                  t[i][0] == packages[i].name && t[i][1] == packages[i].version && t[i][2] == packages[i].kind)
            && (forall k | 0 <= k < |extras| ::
                  DistroPrefix(rosdistro) + t[|packages| + k][0] == extras[k] && t[|packages| + k][2] == "unknown")
  {
    var t := Table(packages, apt, daStrs, repoNames, rosdistro, distributions, debianize);
    var extras := Extras(packages, apt, rosdistro, distributions, debianize);
    forall k | 0 <= k < |extras|
      ensures DistroPrefix(rosdistro) + t[|packages| + k][0] == extras[k]
    {
      var p := OtherPrefixes(distributions, rosdistro);
      var names := RegistryDebianNames(packages, rosdistro, debianize);
      assert extras[k] in extras;
      FilterExtrasMembership(apt.debianPackages, p, names, DistroPrefix(rosdistro), extras[k]);
      assert extras[k] == extras[k][..|DistroPrefix(rosdistro)|] + extras[k][|DistroPrefix(rosdistro)|..];
    }
  }
}
