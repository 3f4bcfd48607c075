/** The package-by-column listing of scripts/list_all.py: one row per
    package name found in any column, one fixed-width cell per column,
    columns in sorted key order. What `render_vertical` prints item by item
    is collected here into a `Rendering`. */
module ListAll {
  import opened Wrappers
  import opened Text
  import opened Sorting

  /** `Package(name, version)`. */
  datatype Package = Package(name: string, version: string)

  /** Column key (`<distro>_<arch>`, or `" " + rosdistro` for the release
      file) to the packages found there. */
  type Listing = map<string, seq<Package>>

  /** What `render_vertical` prints: the "no packages found" message, or a
      table of `width` (the longest name), the column keys in printed order,
      the row names in printed order, the header items and one item list per
      row. */
  datatype Rendering =
    | NoPackages
    | Table(width: nat, columns: seq<string>, names: seq<string>, header: seq<string>, lines: seq<seq<string>>)

  /** The dictionary's iteration order: every key exactly once. */
  ghost predicate IsKeyOrder(order: seq<string>, packages: Listing)
  {
    Distinct(order) && forall k :: k in order <==> k in packages
  }

  // ---------------------------------------------------------------------
  // the names

  /** The names in one column. */
  function ColumnNames(pkgs: seq<Package>): set<string>
  {
    if |pkgs| == 0 then {} else ColumnNames(pkgs[..|pkgs| - 1]) + {pkgs[|pkgs| - 1].name}
  }

  /** The names in the columns `keys`. */
  function NamesOf(packages: Listing, keys: seq<string>): set<string>
    requires forall k | k in keys :: k in packages
  {
    if |keys| == 0 then {} else NamesOf(packages, keys[..|keys| - 1]) + ColumnNames(packages[keys[|keys| - 1]])
  }

  lemma {:induction false} ColumnNamesMembership(pkgs: seq<Package>, n: string)
    ensures n in ColumnNames(pkgs) <==> exists i | 0 <= i < |pkgs| :: pkgs[i].name == n
  {
    if |pkgs| > 0 {
      var init := pkgs[..|pkgs| - 1];
      ColumnNamesMembership(init, n);
      if exists i | 0 <= i < |pkgs| :: pkgs[i].name == n {
        var i :| 0 <= i < |pkgs| && pkgs[i].name == n;
        if i < |pkgs| - 1 {
          assert init[i].name == n;
        }
      }
    }
  }

  /** A name is listed exactly when some package of some visited column
      carries it. */
  lemma {:induction false} NamesOfMembership(packages: Listing, keys: seq<string>, n: string)
    requires forall k | k in keys :: k in packages
    ensures n in NamesOf(packages, keys)
            <==> exists j, i | 0 <= j < |keys| && 0 <= i < |packages[keys[j]]| :: packages[keys[j]][i].name == n
  {
    if |keys| > 0 {
      var init, last := keys[..|keys| - 1], keys[|keys| - 1];
      NamesOfMembership(packages, init, n);
      ColumnNamesMembership(packages[last], n);
      if exists j, i | 0 <= j < |keys| && 0 <= i < |packages[keys[j]]| :: packages[keys[j]][i].name == n {
        var j, i :| 0 <= j < |keys| && 0 <= i < |packages[keys[j]]| && packages[keys[j]][i].name == n;
        if j < |keys| - 1 {
          assert init[j] == keys[j];
        }
      }
      if n in NamesOf(packages, init) {
        var j, i :| 0 <= j < |init| && 0 <= i < |packages[init[j]]| && packages[init[j]][i].name == n;
        assert keys[j] == init[j];
      }
    }
  }

  /** `all_package_names_set.update([p.name for p in v])` over every column. */
  method CollectNames(packages: Listing, order: seq<string>) returns (names: set<string>)
    requires forall k | k in order :: k in packages
    ensures names == NamesOf(packages, order)
  {
    names := {};
    for j := 0 to |order|
      invariant names == NamesOf(packages, order[..j])
    {
      assert order[..j + 1][..j] == order[..j];
      var column := packages[order[j]];
      var before := names;
      for i := 0 to |column|
        invariant names == before + ColumnNames(column[..i])
      {
        assert column[..i + 1][..i] == column[..i];
        names := names + {column[i].name};
      }
      assert column[..|column|] == column;
    }
    assert order[..|order|] == order;
  }

  /** `list(s)`: the members of a set, each once, in the set's iteration
      order (any order; it is sorted right after). */
  method ListOf(s: set<string>) returns (r: seq<string>)
    ensures Distinct(r) && |r| == |s| && forall x :: x in r <==> x in s
  {
    r := [];
    var rest := s;
    while rest != {}
      invariant Distinct(r) && rest <= s && |r| + |rest| == |s|
      invariant forall x :: x in s <==> x in r || x in rest
      invariant forall x | x in r :: x !in rest
      decreases |rest|
    {
      var x :| x in rest;
      r := r + [x];
      rest := rest - {x};
    }
  }

  /** `max([len(p) for p in names])`, for a non-empty list. */
  method MaxLength(names: seq<string>) returns (width: nat)
    requires |names| > 0
    ensures forall i | 0 <= i < |names| :: |names[i]| <= width
    ensures exists i | 0 <= i < |names| :: |names[i]| == width
  {
    width := |names[0]|;
    for i := 1 to |names|
      invariant forall j | 0 <= j < i :: |names[j]| <= width
      invariant exists j | 0 <= j < i :: |names[j]| == width
    {
      if |names[i]| > width {
        width := |names[i]|;
      }
    }
  }

  // ---------------------------------------------------------------------
  // one cell

  /** The version of the last package named `n` in a column: building
      `pkg_name_lookup` lets a later entry overwrite an earlier one. */
  function LastVersion(pkgs: seq<Package>, n: string): Option<string>
  {
    if |pkgs| == 0 then None
    else if pkgs[|pkgs| - 1].name == n then Some(pkgs[|pkgs| - 1].version)
    else LastVersion(pkgs[..|pkgs| - 1], n)
  }

  /** A name is found exactly when a package of the column carries it, and
      then the version is that of the last such package. */
  lemma {:induction false} LastVersionIsLast(pkgs: seq<Package>, n: string)
    ensures LastVersion(pkgs, n).None? <==> forall i | 0 <= i < |pkgs| :: pkgs[i].name != n
    ensures LastVersion(pkgs, n).Some? ==>
              exists i | 0 <= i < |pkgs| :: pkgs[i] == Package(n, LastVersion(pkgs, n).value)
                                            && forall j | i < j < |pkgs| :: pkgs[j].name != n
  {
    if |pkgs| > 0 && pkgs[|pkgs| - 1].name != n {
      var init := pkgs[..|pkgs| - 1];
      LastVersionIsLast(init, n);
      if LastVersion(pkgs, n).Some? {
        var i :| 0 <= i < |init| && init[i] == Package(n, LastVersion(init, n).value)
                 && forall j | i < j < |init| :: init[j].name != n;
        assert pkgs[i] == init[i];
      }
      if LastVersion(pkgs, n).None? {
        forall i | 0 <= i < |pkgs| ensures pkgs[i].name != n {
          if i < |init| {
            assert init[i] == pkgs[i];
          }
        }
      }
    }
  }

  /** `pkg_name_lookup`, built over the column in order. */
  method BuildLookup(pkgs: seq<Package>) returns (lookup: map<string, Package>)
    ensures forall n :: n in lookup <==> LastVersion(pkgs, n).Some?
    ensures forall n | n in lookup :: lookup[n].name == n && lookup[n].version == LastVersion(pkgs, n).value
  {
    lookup := map[];
    for i := 0 to |pkgs|
      invariant forall n :: n in lookup <==> LastVersion(pkgs[..i], n).Some?
      invariant forall n | n in lookup :: lookup[n].name == n && lookup[n].version == LastVersion(pkgs[..i], n).value
    {
      assert pkgs[..i + 1][..i] == pkgs[..i];
      lookup := lookup[pkgs[i].name := pkgs[i]];
    }
    assert pkgs[..|pkgs|] == pkgs;
  }

  /** A found package's cell: the version cut to the key's length, padded
      with spaces to it, then `|` when the version fitted and `>` when it
      was cut or filled the width exactly. */
  function PresentCell(k: string, version: string): string
  {
    (if |version| <= |k| then version else version[..|k|])
    + Spaces(|k| - |version|) + (if |version| < |k| then "|" else ">")
  }

  /** A missing package's cell: blank, then `|`. */
  function AbsentCell(k: string): string
  {
    Spaces(|k|) + "|"
  }

  /** The cell of name `n` in column `k`. */
  function Cell(k: string, pkgs: seq<Package>, n: string): string
  {
    match LastVersion(pkgs, n)
    case None => AbsentCell(k)
    case Some(v) => PresentCell(k, v)
  }

  /** Every cell is one character wider than its column key; a found
      version shows its first `len(k)` characters (all of it when shorter),
      a missing one shows blanks; the closing mark is `>` exactly when the
      version did not fit with room to spare. */
  lemma CellShape(k: string, pkgs: seq<Package>, n: string)
    ensures var c := Cell(k, pkgs, n);
            && |c| == |k| + 1
            && (LastVersion(pkgs, n).None? ==> (forall i | 0 <= i < |k| :: c[i] == ' ') && c[|k|] == '|')
            && (LastVersion(pkgs, n).Some? ==>
                  var v := LastVersion(pkgs, n).value;
                  var shown := if |v| < |k| then |v| else |k|;
                  && c[..shown] == v[..shown]
                  && (forall i | shown <= i < |k| :: c[i] == ' ')
                  && (c[|k|] == '>' <==> |v| >= |k|)
                  && (c[|k|] == '|' <==> |v| < |k|))
  {
    var c := Cell(k, pkgs, n);
    match LastVersion(pkgs, n)
    case None =>
    case Some(v) =>
      var shown := if |v| < |k| then |v| else |k|;
      var cut := if |v| <= |k| then v else v[..|k|];
      assert c == cut + Spaces(|k| - |v|) + (if |v| < |k| then "|" else ">");
      assert c[..shown] == cut;
      forall i | shown <= i < |k| ensures c[i] == ' ' {
        assert c[i] == Spaces(|k| - |v|)[i - |cut|];
      }
  }

  // ---------------------------------------------------------------------
  // the whole listing

  /** The header items: `package`, its padding, `:`, then each key and `|`. */
  function HeaderItems(width: nat, columns: seq<string>): seq<string>
  {
    ["package", Spaces(width - |"package"|), ":"] + seq(|columns|, j requires 0 <= j < |columns| => columns[j] + "|")
  }

  /** The items of the row of name `n`: the name, its padding, `:`, then one
      cell per column. */
  function RowItems(packages: Listing, columns: seq<string>, width: nat, n: string): seq<string>
    requires forall k | k in columns :: k in packages
  {
    [n, Spaces(width - |n|), ":"] + seq(|columns|, j requires 0 <= j < |columns| => Cell(columns[j], packages[columns[j]], n))
  }

  /** One row, cell by cell; `pkg_name_lookup` is rebuilt for every cell. */
  method RenderRow(packages: Listing, columns: seq<string>, width: nat, n: string) returns (line: seq<string>)
    requires forall k | k in columns :: k in packages
    ensures line == RowItems(packages, columns, width, n)
  {
    line := [n, Spaces(width - |n|), ":"];
    for j := 0 to |columns|
      invariant line == [n, Spaces(width - |n|), ":"]
                        + seq(j, b requires 0 <= b < j => Cell(columns[b], packages[columns[b]], n))
    {
      var k := columns[j];
      var lookup := BuildLookup(packages[k]);
      var cell;
      if n in lookup {
        var version := lookup[n].version;
        cell := (if |version| <= |k| then version else version[..|k|])
                + Spaces(|k| - |version|) + (if |version| < |k| then "|" else ">");
      } else {
        cell := Spaces(|k|) + "|";
      }
      line := line + [cell];
    }
  }

  /** `sorted(set_of_names)`: the distinct names of the visited columns,
      ascending. */
  method SortedNames(packages: Listing, order: seq<string>) returns (names: seq<string>)
    requires forall k | k in order :: k in packages
    ensures Increasing(names) && forall n :: n in names <==> n in NamesOf(packages, order)
  {
    var nameSet := CollectNames(packages, order);
    var unsorted := ListOf(nameSet);
    names := SortBy(unsorted, Identity, false);
    SortDistinct(unsorted);
  }

  /** The header line, key by key. */
  method RenderHeader(width: nat, columns: seq<string>) returns (header: seq<string>)
    ensures header == HeaderItems(width, columns)
  {
    header := ["package", Spaces(width - |"package"|), ":"];
    for j := 0 to |columns|
      invariant header == ["package", Spaces(width - |"package"|), ":"]
                          + seq(j, b requires 0 <= b < j => columns[b] + "|")
    {
      header := header + [columns[j] + "|"];
    }
  }

  /** The rows, name by name. */
  method RenderRows(packages: Listing, columns: seq<string>, width: nat, names: seq<string>)
    returns (lines: seq<seq<string>>)
    requires forall k | k in columns :: k in packages
    ensures |lines| == |names|
    ensures forall i | 0 <= i < |names| :: lines[i] == RowItems(packages, columns, width, names[i])
  {
    lines := [];
    for i := 0 to |names|
      invariant |lines| == i
      invariant forall m | 0 <= m < i :: lines[m] == RowItems(packages, columns, width, names[m])
    {
      var line := RenderRow(packages, columns, width, names[i]);
      lines := lines + [line];
    }
  }

  /** `render_vertical(packages)`, with `order` the dictionary's iteration
      order. With no names at all only the message is produced. Otherwise the
      columns are the keys in ascending order, the rows the distinct names in
      ascending order, the width the longest name, and every row holds the
      cells `RowItems` describes. */
  method RenderVertical(packages: Listing, order: seq<string>) returns (r: Rendering)
    requires IsKeyOrder(order, packages)
    ensures r.NoPackages? <==> NamesOf(packages, order) == {}
    ensures r.Table? ==>
              && Increasing(r.columns) && (forall k :: k in r.columns <==> k in packages)
              && Increasing(r.names) && (forall n :: n in r.names <==> n in NamesOf(packages, order))
              && (forall i | 0 <= i < |r.names| :: |r.names[i]| <= r.width)
              && (exists i | 0 <= i < |r.names| :: |r.names[i]| == r.width)
              && r.header == HeaderItems(r.width, r.columns)
              && |r.lines| == |r.names|
              && forall i | 0 <= i < |r.names| :: r.lines[i] == RowItems(packages, r.columns, r.width, r.names[i])
  {
    var names := SortedNames(packages, order);
    if |names| == 0 {
      assert forall n | n in NamesOf(packages, order) :: n in names;
      return NoPackages;
    }
    assert names[0] in NamesOf(packages, order);
    var width := MaxLength(names);
    var columns := SortBy(order, Identity, false);
    SortDistinct(order);
    var header := RenderHeader(width, columns);
    var lines := RenderRows(packages, columns, width, names);
    r := Table(width, columns, names, header, lines);
  }

  /** The release file's column, keyed `" " + rosdistro`, comes first when
      every other key starts with a printable character (a distro name). */
  lemma SpaceKeyFirst(columns: seq<string>, rosdistro: string)
    requires Increasing(columns) && " " + rosdistro in columns
    requires forall k | k in columns && k != " " + rosdistro :: |k| > 0 && k[0] > ' '
    ensures columns[0] == " " + rosdistro
  {
    var key := " " + rosdistro;
    var i :| 0 <= i < |columns| && columns[i] == key;
    if i > 0 {
      assert Less(columns[0], key);
      if columns[0] == key {
        LessIrreflexive(key);
      } else {
        LessFirstChar(columns[0], key);
      }
      assert false;
    }
  }

  lemma LessFirstChar(a: string, b: string)
    requires |a| > 0 && |b| > 0 && a[0] > b[0]
    ensures !Less(a, b)
  {
  }
}
