# ROS build-farm status pages, job naming and row filter — a Dafny model

This project models the decision logic of the ROS build farm's status
tooling and proves properties of it:

- **Version-status engine** (`buildfarm/status_page.py`):
  - the version normaliser `strip_version_suffix`, the first match of `[0-9.-]+[0-9]`;
  - the column keys `get_da_strs`, with one `<distro>_source` column per distro;
  - the regrouping of distro/arch pairs in `render_csv`;
  - the package × column table `make_versions_table`, with its `|`-joined version cells;
  - the per-square classification `format_version` / `is_regression` / `make_square_div`;
  - the row formatting `format_row`, with its `diff` and `sync` markers and kind texts;
  - the counts, sorting, status/maintainer injection and div-wrapping of `transform_csv_to_html`;
  - the serialisers `make_html_table` and `make_html_doc`.
- **Transitive dependency closure** (`src/buildfarm/dependency_walker.py`):
  - `_get_recursive_dependencies`;
  - the repository skip rules and the result/url maps of `get_dependencies`.
- **Jenkins job naming and job-graph queries** (`scripts/jenkins/create_debjobs.py`):
  - the job-name builders;
  - `calc_child_jobs` and `add_dependent_to_dict` over the parameter dictionary;
  - the job lists of `binarydeb_jobs`, `sourcedeb_job` and `doit`.
- **Fixed-width package matrix** `render_vertical` (`scripts/list_all.py`), producing header and row items instead of printing them.
- **Plain HTML table and document** (`scripts/csv_to_html.py`).
- **Client-side row filter** (`resources/js/setup.js`):
  - query terms and the conjunctive substring match;
  - the row order and the header-click toggle;
  - the skip rule of `filter_table`;
  - the address it writes and `body_ready`'s parse of it.

Dafny modules follow the source files:

| source file | module(s) |
|---|---|
| `status_page.py` | `VersionStrip`, `Columns`, `VersionsTable`, `Classify`, `Report`, `StatusHtml` |
| `dependency_walker.py` | `DependencyWalker` |
| `create_debjobs.py` | `Debjobs` |
| `list_all.py` | `ListAll` |
| `csv_to_html.py` | `CsvToHtml` |
| `setup.js` | `RowFilter` |

Supporting modules:

- `Text`: split, join and string order;
- `Sorting`: a stable sort by string key;
- `HtmlMarkup`: the `<tr>`/`<th>`/`<td>` builders both serialisers share;
- `Wrappers`: `Option`.

Where the source updates state in place, the model uses imperative Dafny proved against specification functions:

- loops become methods with invariants;
- the numpy table becomes an `array` filled by index;
- the header/counts/rows triple that `inject_status_and_maintainer` edits in place becomes the class `Report.StatusTable`;
- the parameter dictionary `d` of `create_debjobs.py` becomes the class `Debjobs.JobDict`;
- the page globals of `setup.js` become the class `RowFilter.Page`.

Inputs the source gets from outside are parameters. These are:

- the registry and apt lookups;
- `debianize_package_name` and `sanitize_package_name`;
- the metadata builder;
- the cached release, and its package.xml parse as a three-way oracle (maintainers, invalid, none);
- the job templates, as a render function of the parameters;
- dictionary iteration orders.

The normaliser uses `version_rx.search` (buildfarm/status_page.py:14,141), so it keeps the **leftmost** run of `[0-9.-]` characters that ends in a digit, not a trailing one.

## Model

| member | source | states |
|---|---|---|
| VersionStrip.RunEnd | buildfarm/status_page.py:14 | the greedy `[0-9.-]+` run from a start position: every character in it is in the class and the next one is not |
| VersionStrip.Backtrack | buildfarm/status_page.py:14 | backtracking from the end of the run: the longest match from that start ends in a digit and has at least two characters, and nothing after it in the run is a digit; no result means no digit after the start |
| VersionStrip.Search | buildfarm/status_page.py:141 | `version_rx.search`: the returned match is a match, no match starts earlier, no longer match starts at the same place, and no result means no match anywhere |
| VersionStrip.StripIsSearch | buildfarm/status_page.py:141-142 | `strip_version_suffix` returns the input when nothing matches, otherwise the text of the leftmost-longest match |
| VersionStrip.StrippedShape | buildfarm/status_page.py:141-142 | a stripped version is itself one whole match, or the unchanged input when nothing matched |
| VersionStrip.WholeMatchIsKept | buildfarm/status_page.py:141-142 | a string that matches as a whole is returned unchanged |
| VersionStrip.StripIdempotent | buildfarm/status_page.py:141-142 | normalising twice is normalising once |
| VersionStrip.StripKeepsCharacters | buildfarm/status_page.py:141-142 | the result only contains characters of the input |
| VersionStrip.NoDigitPairUnchanged | buildfarm/status_page.py:14 | without a class character followed by a digit there is no match, and the version is returned unchanged |
| VersionStrip.AbsenceSentinelUnchanged | buildfarm/status_page.py:134-135 | doctest: `'None'` stays `'None'` |
| VersionStrip.EmptyUnchanged | buildfarm/status_page.py:132-133 | doctest: `''` stays `''` |
| VersionStrip.LoneDigitUnchanged | buildfarm/status_page.py:14 | a single digit is too short to match and is returned unchanged |
| VersionStrip.DebianSuffixStripped | buildfarm/status_page.py:136-137 | doctest: `'1.9.9-0quantal-20121115-0529-+0000'` becomes `'1.9.9-0'` |
| VersionStrip.TrailingHyphenDropped | buildfarm/status_page.py:138-139 | doctest: `'1.9.9-foo'` becomes `'1.9.9'` (the match cannot end in `-`) |
| VersionStrip.StripFromStart | buildfarm/status_page.py:141-142 | for a version whose leading class run ends at e, the result is the prefix up to the last digit before e |
| Columns.SourceColInjective | buildfarm/status_page.py:22 | different distros get different `<d>_source` keys |
| Columns.DistrosMember | buildfarm/status_page.py:18-23 | the seen-set holds exactly the distros of the pairs so far |
| Columns.GetDaStrs | buildfarm/status_page.py:17-25 | the loop with its seen-set computes the column-key list `DaStrs`, whose layout the next lemmas give |
| Columns.DaStrsLength | buildfarm/status_page.py:17-25 | the key list has one entry per pair plus one per distinct distro |
| Columns.DaStrsLayout | buildfarm/status_page.py:20-24 | each pair's `d_a` key sits at its slot, right after `<d>_source` when it is the distro's first pair; slots increase, so `d_a` keys keep input order |
| Columns.SourceColCount | buildfarm/status_page.py:20-24 | after n pairs, `<d>_source` occurs once if d has been seen and otherwise not at all |
| Columns.SourceColumnOncePerDistro | buildfarm/status_page.py:17-25 | every distro's `<d>_source` key occurs exactly once |
| Columns.GroupArches | buildfarm/status_page.py:169-172 | the first loop of `render_csv` maps each distro to its arches in input order, and has exactly the distros as keys |
| Columns.GroupByDistro | buildfarm/status_page.py:173-176 | the second loop emits the pairs distro by distro, in the dict's key order |
| Columns.AppendPairs | buildfarm/status_page.py:175-176 | the inner loop appends `(d, a)` for each arch of d, in order |
| Columns.GroupedIsPermutation | buildfarm/status_page.py:167-176 | regrouping neither loses nor duplicates a pair |
| VersionsTable.GetVersions | buildfarm/status_page.py:114-121 | one entry per repository, in order: the normalised `str` of the apt version |
| VersionsTable.GetCellVersions | buildfarm/status_page.py:326-327 | splitting a cell gives at least one segment, none containing `\|` |
| VersionsTable.CellRoundTrip | buildfarm/status_page.py:124-125 | `get_cell_versions(add_version_cell(vs)) == vs` for a non-empty vs without `\|` |
| VersionsTable.CellDecodeEncode | buildfarm/status_page.py:326-327 | joining the segments of a cell gives the cell back |
| VersionsTable.NoRepositoryCell | buildfarm/status_page.py:124-125 | no repositories give the empty cell, which reads back as one empty segment |
| VersionsTable.CellSegments | buildfarm/status_page.py:86-88 | a cell has one segment per repository, in repository order, each `strip_version_suffix(str(v))` |
| VersionsTable.RemoveFirst | buildfarm/status_page.py:56-57 | `list.remove` drops one occurrence of the element when present and leaves every other count unchanged |
| VersionsTable.BuildPrefixes | buildfarm/status_page.py:52-57 | the fixed prefixes, then one per distribution, minus one occurrence of the active prefix |
| VersionsTable.ActivePrefixSurvives | buildfarm/status_page.py:52-57 | the active prefix survives the single `remove` exactly when it was listed at least twice |
| VersionsTable.FilterExtrasMembership | buildfarm/status_page.py:59-74 | an apt name becomes an extra row iff it starts with the active prefix, is not a debianized registry name, and starts with none of the remaining prefixes |
| VersionsTable.SurvivingActivePrefixHidesExtras | buildfarm/status_page.py:56-74 | if the active prefix survives the `remove`, no extra row is produced |
| VersionsTable.ExtraDebianNames | buildfarm/status_page.py:59-74 | the loop keeps exactly the filtered names, in apt order |
| VersionsTable.InferredVersion | buildfarm/status_page.py:105-108 | the version of an extra row is the one non-`'None'` value when there is exactly one, else empty |
| VersionsTable.InferredVersionCases | buildfarm/status_page.py:105-108 | all cells agreeing on v (or `'None'`) give v; any other value gives `''` |
| VersionsTable.NoVersionNoExpectation | buildfarm/status_page.py:105-108 | all-`'None'` cells give an empty version |
| VersionsTable.RowCells | buildfarm/status_page.py:99-104 | one cell per column key, and the concatenation of all segments for the version inference |
| VersionsTable.MakeVersionsTable | buildfarm/status_page.py:38-111 | the preallocated array is filled with exactly the table specified above |
| VersionsTable.FillRegistryRows | buildfarm/status_page.py:80-88 | fills the registry rows by index and leaves the rest of the array alone |
| VersionsTable.FillExtraRows | buildfarm/status_page.py:90-109 | fills the extra rows from index `len(packages)` and leaves every row outside them alone |
| VersionsTable.TableShape | buildfarm/status_page.py:45-98 | every row has one cell per column; registry rows carry name, version and kind; extra rows carry the name without the active prefix and kind `unknown` |
| Classify.StatusClass | buildfarm/status_page.py:353-386 | the square's class is empty exactly for the expected version |
| Classify.FormatVersionClassifies | buildfarm/status_page.py:353-373 | the square is `make_square_div('repo: version', class)`, with class m/''/o when a version is expected and i/obs otherwise; the later dict key wins when latest is `'None'` |
| Classify.FormatVersionIgnoresMarkers | buildfarm/status_page.py:366-373 | search suffix, public version (regression) and url do not change the square |
| Classify.ClassAttributeIffNotLatest | buildfarm/status_page.py:381-386 | the square has a `class=` attribute iff the version is not the expected one |
| Classify.SquareEnd | buildfarm/status_page.py:381-386 | every square ends with `/>` |
| Classify.Squares | buildfarm/status_page.py:339-345 | `zip` with the three repositories keeps at most three squares |
| Classify.SyncFlagOfEncodedCell | buildfarm/status_page.py:321-323 | the sync flag of an encoded cell is set iff its 2nd and 3rd versions differ |
| Classify.SyncMarkerIff | buildfarm/status_page.py:347-350 | the cell ends with the sync span iff the flag is set |
| Classify.CellSquaresClassified | buildfarm/status_page.py:333-345 | square k classifies segment k under its repository label, with no expectation for a source column of a dry/variant row |
| Classify.CellIgnoresUrl | buildfarm/status_page.py:369-373 | the job url does not change the cell |
| Classify.FormatHeaderCell | buildfarm/status_page.py:271-276 | the metadata's `column_label` when present, otherwise the cell with its first letter upper-cased |
| Classify.FormatHeaderCellIdempotent | buildfarm/status_page.py:275 | capitalising twice is capitalising once |
| Classify.DiffColumnsMembership | buildfarm/status_page.py:285 | the compared cells are the raw cells from index 3 on, without the `i % 3 == 0` ones of dry/variant rows |
| Classify.HasDiffIff | buildfarm/status_page.py:285-286 | the diff flag is set iff two compared cells differ |
| Classify.FormatRow | buildfarm/status_page.py:279-318 | a formatted row has the raw row's length |
| Classify.FormatRowLeadingCells | buildfarm/status_page.py:308-317 | the name gets the diff span iff the flag is set, the version is kept, and the kind maps wet/dry/unknown/variant to wet/dry/?/var |
| Classify.FormatRowCells | buildfarm/status_page.py:298-306 | an unknown row, and a dry/variant source column, render with no expected version; otherwise the row's version is expected |
| Report.PresentCountIsCardinality | buildfarm/status_page.py:209-216 | the count for column i, segment j is the number of rows whose segment j is not `'None'`, at most the row count |
| Report.ZeroCountsBeforeAnyRow | buildfarm/status_page.py:210 | the initial counts are the counts of no rows |
| Report.CountCell | buildfarm/status_page.py:213-216 | the innermost loop adds one per non-`'None'` segment of a cell |
| Report.CountRow | buildfarm/status_page.py:212-216 | one row adds to every version column and leaves the first three alone |
| Report.CountPresent | buildfarm/status_page.py:209-216 | the nested loops compute the counts of all rows |
| Report.FirstWordIgnoresDiffMarker | buildfarm/status_page.py:243 | `row[0].split(' ')[0]` recovers the package name from a name carrying the diff span |
| Report.InjectRow | buildfarm/status_page.py:239-268 | two cells are inserted at index 3: the status cell and the maintainer cell; the rest is kept in place |
| Report.StatusFallback | buildfarm/status_page.py:242-267 | non-wet rows get `<div class="unknown">--</div>` and `''`; wet rows take the package status, else the repository's, else `unknown` |
| Report.MaintainerFallback | buildfarm/status_page.py:257-265 | a missing package.xml gives `?`, an invalid one `invalid package.xml` |
| Report.StatusTable.constructor | buildfarm/status_page.py:199-221 | holds the header, counts and rows that are edited in place |
| Report.StatusTable.InjectStatusAndMaintainer | buildfarm/status_page.py:235-268 | inserts `Status`/`Maintainer` into the header, two empty counts, and two cells into every row, all at index 3 |
| Report.StatusTable.DivWrap | buildfarm/status_page.py:225-228 | wraps the first two cells of every row in `<div>`, changing nothing else |
| Report.DivWrapRow | buildfarm/status_page.py:227-228 | only cells 0 and 1 change, to `<div>…</div>` |
| Report.InjectionKeepsAlignment | buildfarm/status_page.py:237-268 | after injection header, counts and row have equal lengths, and every old column moved two places right in all three |
| Report.MetadataColumns | buildfarm/status_page.py:204 | one metadata entry per header column |
| Report.FormattedRows | buildfarm/status_page.py:218-221 | one formatted row per data row |
| Report.BaseTable | buildfarm/status_page.py:199-221 | before injection, header, counts and rows all have the CSV's width, and every wet row's package is known to the cache |
| Report.InjectAndWrap | buildfarm/status_page.py:222-228 | the table after the optional injection and the wrapping is the specified one |
| Report.BuildStatusTable | buildfarm/status_page.py:196-228 | the table the page serialises is the one specified by counting, sorting, formatting, injecting and wrapping |
| Report.TransformCsvToHtml | buildfarm/status_page.py:194-232 | the page is the legend plus that table, serialised inside the document |
| Report.ShownCounts | buildfarm/status_page.py:209-238 | each shown count is the number of rows naming a version in that repository, two columns further right when a cache is given |
| Report.ShownKeepsCounts | buildfarm/status_page.py:222-228 | injection shifts the counts two places right and wrapping keeps them |
| Report.ShownRowName | buildfarm/status_page.py:218-228 | shown row k starts with `<div>` and the name of the k-th row in name order |
| Report.WrappedName | buildfarm/status_page.py:226-227 | the first shown cell is the wrapped first cell, whether or not columns were injected |
| Report.ShownRowsSorted | buildfarm/status_page.py:218-220 | the rows are a permutation of the data rows in non-decreasing name order |
| StatusHtml.HeaderCells | buildfarm/status_page.py:437-439 | one header cell per column |
| StatusHtml.FooterCells | buildfarm/status_page.py:442 | one footer cell per column |
| StatusHtml.StatusTableHeader | buildfarm/status_page.py:440-446 | the header row sits verbatim right after the table's opening tags |
| StatusHtml.StatusTableRow | buildfarm/status_page.py:441-453 | every data row sits verbatim in the body, in order, at its offset in the `\n`-joined rows |
| StatusHtml.StatusHeaderCell | buildfarm/status_page.py:437-440 | header cell i is `<th>name<br/>spans</th>`, with one `sum repoN` span per count |
| StatusHtml.StatusFooterCell | buildfarm/status_page.py:442 | footer cell i is the column name, except that column 2 is empty |
| StatusHtml.NoCountsNoSpans | buildfarm/status_page.py:439 | a column without counts (the first three and the injected ones) has no spans |
| StatusHtml.MakeHtmlDocLayout | buildfarm/status_page.py:458-469 | the document is doctype, `<head>` with head, `<body>` with body, each once, in order |
| HtmlMarkup.HeaderRowCell | scripts/csv_to_html.py:79 | the header row has one `<th>` per entry, verbatim and in order |
| HtmlMarkup.DataRowCell | scripts/csv_to_html.py:80 | a data row has one `<td>` per cell, verbatim and in order |
| HtmlMarkup.DataRowsAt | scripts/csv_to_html.py:80-81 | each row's `<tr>` line sits at its offset in the joined body, preceded by `\n` after the first |
| HtmlMarkup.EmptyRow | scripts/csv_to_html.py:79-81 | a row without cells is `<tr></tr>` |
| CsvToHtml.MakeHtmlTableLayout | scripts/csv_to_html.py:79-86 | the table starts with `<table class="display" id="…">` and holds the header row verbatim inside `<thead>` |
| CsvToHtml.MakeHtmlTableRow | scripts/csv_to_html.py:80-89 | every data row sits verbatim inside `<tbody>`, in order |
| CsvToHtml.MakeHtmlDocLayout | scripts/csv_to_html.py:55-68 | the document holds head inside `<head>` and body inside `<body>`, each once |
| DependencyWalker.Targets | src/buildfarm/dependency_walker.py:11-12 | the traversed dependencies are exactly those that are keys of the package list |
| DependencyWalker.GetRecursiveDependencies | src/buildfarm/dependency_walker.py:10-14 | the recursion computes the closure, given a rank that decreases along every edge (acyclic input) |
| DependencyWalker.ClosureIsReachability | src/buildfarm/dependency_walker.py:10-14 | v is in the closure of n iff some m reachable from n along package-list edges has `pl[m] == v` |
| DependencyWalker.ClosureIsReachable | src/buildfarm/dependency_walker.py:10-14 | every member of the closure is the package of a node reachable from n |
| DependencyWalker.ReachableIsInClosure | src/buildfarm/dependency_walker.py:11-13 | the package of every node reachable from n is in n's closure |
| DependencyWalker.RankedPathDescends | src/buildfarm/dependency_walker.py:12-13 | with a rank, every path strictly descends, so no node reaches itself and the recursion ends |
| DependencyWalker.CollectAllSameKeys | src/buildfarm/dependency_walker.py:48-64 | `packages`, `dependencies` and `package_urls` always get the same keys |
| DependencyWalker.SkipRules | src/buildfarm/dependency_walker.py:26-54 | a repository lacking url or name is skipped; without stack.xml a backport is added with its sanitized name and no dependencies, anything else is skipped |
| DependencyWalker.CollectRepositories | src/buildfarm/dependency_walker.py:26-64 | the loop collects exactly the specified maps |
| DependencyWalker.MapClosures | src/buildfarm/dependency_walker.py:66-72 | the last loop writes `result[packages[k]]` and `urls[package_urls[k]]` in key order, a later key overwriting an earlier one |
| DependencyWalker.GetDependencies | src/buildfarm/dependency_walker.py:16-72 | the two maps returned are the ones specified from the collected repositories |
| DependencyWalker.ResultOfDistinctNames | src/buildfarm/dependency_walker.py:69-71 | when no other key shares its package name, `result[packages[k]]` is k's closure; when no other key shares its url, `urls[package_urls[k]]` is `packages[k]` |
| Debjobs.BinarydebJobNameShape | scripts/jenkins/create_debjobs.py:83-90 | `ros-<rosdistro>-`, the package with `_` replaced by `-`, then `_binarydeb_<distro>_<arch>` |
| Debjobs.BinarydebJobNameInjective | scripts/jenkins/create_debjobs.py:83-90 | for one package, distinct distro/arch pairs give distinct job names |
| Debjobs.SourceAndBinaryNamesDiffer | scripts/jenkins/create_debjobs.py:70-90 | a sourcedeb job name is never a binarydeb job name |
| Debjobs.ChildJobsMembership | scripts/jenkins/create_debjobs.py:92-100 | the child projects are `key + end` for exactly the keys of the given iteration order whose dependencies contain the package |
| Debjobs.ChildJobsOfAllKeys | scripts/jenkins/create_debjobs.py:92-100 | when the iteration order lists every key of the job graph, as `iteritems()` does, the child projects are `key + end` for exactly the graph's keys whose dependencies contain the package |
| Debjobs.ChildIffDependent | scripts/jenkins/create_debjobs.py:92-108 | q's job is a child of p's iff p is among q's dependents: the two lookups are inverse |
| Debjobs.JobDict.constructor | scripts/jenkins/create_debjobs.py:111-117 | the dictionary starts with the five given keys and nothing else assigned |
| Debjobs.JobDict.CalcChildJobs | scripts/jenkins/create_debjobs.py:92-100 | sets `CHILD_PROJECTS` to the child jobs, or to `[]` for an empty job graph, and changes no other key |
| Debjobs.JobDict.AddDependentToDict | scripts/jenkins/create_debjobs.py:102-108 | sets `DEPENDENTS` to `jobgraph[pname]` when present, else the empty set, and changes no other key |
| Debjobs.JobDict.ConfigureBinary | scripts/jenkins/create_debjobs.py:121-128 | one inner iteration sets `ARCH` and `DISTRO`, sets `CHILD_PROJECTS` and `DEPENDENTS` to the job-graph lookups, and yields the job name and the rendered config for that distro and arch |
| Debjobs.JobDict.ConfigureDistro | scripts/jenkins/create_debjobs.py:120-128 | one distro yields its `i386` job and then its `amd64` job, and leaves the dictionary as the `amd64` pass set it |
| Debjobs.BinaryJobsAt | scripts/jenkins/create_debjobs.py:118-129 | job `2*i + a` is distro i with arch a: distro-major, `i386` before `amd64` |
| Debjobs.BinaryJobsLength | scripts/jenkins/create_debjobs.py:118-129 | exactly two jobs per distro |
| Debjobs.BinarydebJobs | scripts/jenkins/create_debjobs.py:110-129 | the loops produce exactly the specified job list |
| Debjobs.BaseName | scripts/jenkins/create_debjobs.py:144 | `os.path.basename`: the longest slash-free tail of the path, so it is the whole path or is preceded by `/` |
| Debjobs.LastDot | scripts/jenkins/create_debjobs.py:144 | the position of the last dot, if there is one |
| Debjobs.PackageOfUri | scripts/jenkins/create_debjobs.py:144 | the package of `…/stem.ext` is stem: the basename without its extension |
| Debjobs.PackageOfDotless | scripts/jenkins/create_debjobs.py:144 | a basename without a dot is the package itself |
| Debjobs.Doit | scripts/jenkins/create_debjobs.py:142-149 | the job list is the source job, whose child projects are the binary job names, followed by the binary jobs |
| Debjobs.DoitShape | scripts/jenkins/create_debjobs.py:144-149 | the list has `1 + 2*len(distros)` jobs, the source job first; its child projects are exactly the binary job names, in order |
| ListAll.ColumnNamesMembership | scripts/list_all.py:71 | the names of a column are the names of its packages |
| ListAll.NamesOfMembership | scripts/list_all.py:68-71 | a name is collected iff some column lists it |
| ListAll.CollectNames | scripts/list_all.py:68-71 | the loop builds the union of all columns' names |
| ListAll.ListOf | scripts/list_all.py:73 | `list(set)` has each element once |
| ListAll.MaxLength | scripts/list_all.py:80 | the width is the length of the longest name |
| ListAll.SortedNames | scripts/list_all.py:68-74 | the row names are the sorted, duplicate-free union of the names |
| ListAll.LastVersionIsLast | scripts/list_all.py:94-96 | the lookup finds a name iff the column lists it, and then the last listed entry wins |
| ListAll.BuildLookup | scripts/list_all.py:94-96 | the rebuilt dict maps each name to its last entry |
| ListAll.CellShape | scripts/list_all.py:97-102 | a cell is `len(k)+1` wide: the version cut to `len(k)`, space padding, then `\|` if shorter than k and `>` otherwise; an absent name gives spaces and `\|` |
| ListAll.RenderHeader | scripts/list_all.py:81-86 | the header items are `package`, its padding, `:` and one `k\|` per column |
| ListAll.RenderRow | scripts/list_all.py:91-103 | a row's items are the name, its padding, `:` and one cell per column in column order |
| ListAll.RenderRows | scripts/list_all.py:90-103 | one row per name, in order |
| ListAll.RenderVertical | scripts/list_all.py:67-103 | without names only the no-packages message; otherwise sorted columns, sorted names, the longest name's width, the header and one row per name |
| ListAll.SpaceKeyFirst | scripts/list_all.py:153 | in the sorted column order, the `' '+rosdistro` column comes before every letter-initial `distro_arch` key |
| Sorting.SortBy | buildfarm/status_page.py:218-220 | the stable sort by key returns a sorted permutation |
| Sorting.SortBySorted | buildfarm/status_page.py:220 | an already sorted list is left as it is |
| Sorting.SortByIdempotent | buildfarm/status_page.py:220 | sorting twice is sorting once |
| Sorting.SortDistinct | scripts/list_all.py:73-74 | sorting distinct names gives a strictly increasing list of the same names |
| Sorting.IncreasingUnique | scripts/list_all.py:73-74 | a strictly increasing list is determined by its elements |
| Text.JoinSplit | buildfarm/status_page.py:327 | `'\|'.join(cell.split('\|'))` is the cell |
| Text.SplitJoin | buildfarm/status_page.py:125 | splitting a join of separator-free parts gives the parts |
| Text.LessTotal | resources/js/setup.js:221-222 | string order is total: of two distinct strings one is less |
| Text.LessTransitive | resources/js/setup.js:221-222 | string order is transitive |
| RowFilter.LeadingDigits | resources/js/setup.js:217 | `parseInt` reads the longest leading digit run |
| RowFilter.WrittenNumberIsLooselyEqual | resources/js/setup.js:237 | a number written into the address reads back loosely equal to it |
| RowFilter.KeepTermsMembership | resources/js/setup.js:179-184 | a term is kept iff it comes from a piece of 3 or more characters, transformed |
| RowFilter.ProcessQueryTerms | resources/js/setup.js:178-184 | the terms are the `+`-pieces of length at least 3, with blue/red/yellow/gray replaced by their `class="…"` strings |
| RowFilter.FilterRowsMembership | resources/js/setup.js:199-204 | a row is kept iff its HTML contains every term |
| RowFilter.FilterRowsNoTerms | resources/js/setup.js:205-208 | no terms keep every row |
| RowFilter.MatchesAll | resources/js/setup.js:200-202 | the inner loop rejects the row at the first missing term |
| RowFilter.SelectRows | resources/js/setup.js:199-204 | the map keeps exactly the matching rows, in order |
| RowFilter.OrderedIsSortedPermutation | resources/js/setup.js:216-225 | with a sort column the rows are a permutation ordered by that column, descending iff `reverse == 1` |
| RowFilter.OrderedIdempotent | resources/js/setup.js:216-225 | sorting again with the same settings changes nothing |
| RowFilter.LooselyEqualSettingsOrderAlike | resources/js/setup.js:186-224 | loosely equal sort/reverse settings give the same order, which is what the `==` skip relies on |
| RowFilter.FilterStepShowsQuery | resources/js/setup.js:170-245 | with the corrected skip rule every `filter_table` leaves the body showing the current query's rows in the current order |
| RowFilter.ClickOrders | resources/js/setup.js:122-131 | clicking the sort column flips `reverse` between 0 and 1; another column becomes the sort column, with `reverse` cleared |
| RowFilter.ApplyParamsConsistent | resources/js/setup.js:14-21 | the query string changes only queries, sort and reverse |
| RowFilter.ApplyParam1 | resources/js/setup.js:15-20 | `q`, `s` and `r` assign queries, sort and reverse |
| RowFilter.ItemsReadBack | resources/js/setup.js:235-238 | the `q=`/`s=`/`r=` items `filter_table` writes are read back by `body_ready` as the same queries, sort and reverse |
| RowFilter.LocationItems | resources/js/setup.js:11-13 | the part after `?` is split on `&` |
| RowFilter.AddressRoundTrip | resources/js/setup.js:234-242 | `body_ready` reading back the address `filter_table` writes restores queries, and restores sort and reverse up to loose equality and truthiness |
| RowFilter.AsWrittenKeepsTermsWithoutQuery | resources/js/setup.js:209-212 | as written, a rendering without a query shows every row but leaves the remembered terms in place |
| RowFilter.AsWrittenSkips | resources/js/setup.js:186-190 | as written, equal comma-joined terms and loosely equal settings skip the rebuild |
| RowFilter.AsWrittenFilters | resources/js/setup.js:191-204 | as written, a first query remembers its terms and settings and shows the matching rows in order |
| RowFilter.ClearingLeavesTermsStale | resources/js/setup.js:186-212 | query q, then clearing it, then q again skips the rebuild and shows all rows; this is right only when filtering by q changes nothing |
| RowFilter.StaleSkipAfterClearing | resources/js/setup.js:186-212 | with rows `abc` and `xyz`: query `abc`, clear, query `abc` leaves both rows shown |
| RowFilter.JoinedTermsCollide | resources/js/setup.js:186 | a second query whose terms join to the same comma text is skipped, and the first query's rows stay shown |
| RowFilter.CommaJoinedTermsCollide | resources/js/setup.js:186 | `abc+def` then `abc,def` keeps showing row `defabc`, which the second query does not match |
| RowFilter.Page.constructor | resources/js/setup.js:1-8 | the page starts with no rows, no query, no settings, and the given body and address |
| RowFilter.Page.BodyReady | resources/js/setup.js:10-23 | the globals become those parsed from the address |
| RowFilter.Page.Show | resources/js/setup.js:216-244 | sorts in place when the selection is `window.rows` itself, then writes the body and the address |
| RowFilter.Page.FilterTable | resources/js/setup.js:170-245 | the page after `filter_table` is the filter step of the one before |
| RowFilter.Page.HeaderClick | resources/js/setup.js:122-131 | the click toggle followed by `filter_table` |
| RowFilter.Page.Search | resources/js/setup.js:41-55 | typing or clicking a keyword sets the query and filters |
| RowFilter.Page.BodyDone | resources/js/setup.js:145-150 | filters only when a query or sort is set |

## Left out

- File and network I/O is left out: the CSV reader/writer and file writing of `render_csv`, apt and `apt_pkg` (`detect_source_version`), Jenkins, YAML/urllib, vcstools checkouts and `rospkg` stack parsing. Their results are parameters.
- `get_distro_arches` is left out; it depends on a dynamic import of the distro list, and the pairs are an input.
- `make_html_head` (a clock and a timezone) and the constant `make_html_legend` are left out. They enter `Report.TransformCsvToHtml` as the strings `htmlHead` and `legend`.
- The doctests of both `make_html_table`s no longer match the code (other signature and wrapper) and are not modelled.
- `debianize_package_name`, `sanitize_package_name`, `metadata_builder`, `apt_data.get_version`, the cached release and `parse_package_string` are not shown. They are parameters, the last as a three-way oracle (maintainers, invalid, none).
- Maintainer names and e-mails are not XML-escaped in the source, and they are inserted as given.
- Dictionary and set iteration orders are given sequences. These are `rd_data.packages.values()`, the `distros` dict of `render_csv`, `jobgraph.iteritems()`, `dependencies.iteritems()` and `packages.itervalues()`.
- Sorting.SortBy: a stable insertion sort stands for Python's `sorted` and JavaScript's `Array.prototype.sort`; JavaScript's stability is engine-dependent.
- Text.Less: string order is code-point order; JavaScript compares UTF-16 code units, which differ only outside the Basic Multilingual Plane.
- Crash paths in the source (IndexError, KeyError) are preconditions rather than modelled errors:
  - Report.WellFormedCsv: data rows must be exactly as wide as the header. A shorter row fails at `row[i]` (buildfarm/status_page.py:213), and a longer one at `job_urls[i]` (buildfarm/status_page.py:303);
  - Report.WellFormedCsv: every version cell must split into exactly three segments. Fewer fail at `versions[2]` (buildfarm/status_page.py:323), and more fail at `counts[i][j]` (buildfarm/status_page.py:216);
  - Classify.FormattableRow: the kind must be `wet`, `dry`, `unknown` or `variant`. Any other kind fails at `type_texts[row[2]]` (buildfarm/status_page.py:317);
  - Classify.FormattableRow: every column whose metadata is used must have a `job_url`. Otherwise the row fails at `md['job_url']` (buildfarm/status_page.py:296);
  - Report.WellFormedCsv: with a release cache, a wet row's package must be known to it (buildfarm/status_page.py:244);
  - an empty header cell without a label (`Classify.FormatHeaderCell`);
  - an empty `distros` in `Debjobs.Doit` (`zip(*[])[0]`);
  - an empty name list in `ListAll.MaxLength`;
  - DependencyWalker.GetRecursiveDependencies: the dependency graph must be acyclic, given as a rank that decreases along every traversed edge. On a cycle the source recurses until Python's recursion limit raises RuntimeError (src/buildfarm/dependency_walker.py:12-13);
  - VersionsTable.MakeVersionsTable: the column names `name`, `version`, `wet` and the `da_strs` must be distinct. `np.empty(..., dtype=columns)` raises ValueError on a repeated field name (buildfarm/status_page.py:76-77), for example with `da_strs == ["x_amd64", "x_amd64"]` from duplicate distro/arch pairs. The model has no such precondition and returns a table with repeated columns there.
- DependencyWalker.GetDependencies: with two keys sharing a package name or url, the later key in iteration order wins; only the distinct-name case is stated about single entries (`DependencyWalker.ResultOfDistinctNames`).
- Template expansion, XML `escape` of the command, `print(config)` and `create_jenkins` in `create_debjobs.py` are a render function, or left out. `DEPENDENTS` is a set, and a `None` job graph is the empty map.
- The `__main__` blocks, argparse and console output are left out.
- ListAll.RenderVertical: output is items per line, not Python 2 `print` soft-spaces.
- `scripts/jenkins/apt_env/list_all.py`, `scripts/jenkins/catkin_build.py`, `scripts/jenkins/create_all.py` and `setup.py` are not part of this model.
- In `setup.js`, these are left out:
  - the DOM, tooltips, link injection and the floating header;
  - the 250 ms input debounce;
  - `console.log` and the check that `history.replaceState` exists (assumed present);
  - hash fragments of the address;
  - the `+`-to-space rewrite of the search box in `tbody_ready`.
- Classify.FormatPkg: `job_url.format(pkg=...)` (buildfarm/status_page.py:296) is modelled as literal replacement of `{pkg}`. Templates with `{{`/`}}` escapes or other fields are not modelled; in the source, another field raises KeyError.
- RowFilter.Page.FilterTable: `scan_rows` is an input sequence of rows, not read from the DOM.
- RowFilter.Page.FilterTable: uses the corrected skip rule of the Findings below; the rule as written is `RowFilter.FilterStepAsWritten`.
- RowFilter.LeadingDigits: `parseInt` is modelled for digit strings. Leading whitespace, signs, and negative or fractional sort values are not.
- RowFilter.ToNumber: `Number(s)` is modelled for the empty string and plain decimal digits only. Other forms JavaScript accepts (`"2.0"`, `"0x2"`, `"2e0"`, `"+2"`, surrounding whitespace) are taken as NaN. This affects `LooseEq` in the sort-column toggle and the skip rule (resources/js/setup.js:124, 186-188).
- RowFilter.KeepTerms: piece length is counted in code points. `q.length < 3` (resources/js/setup.js:181) counts UTF-16 code units, so a two-character piece with a character outside the Basic Multilingual Plane is kept in JavaScript but dropped by the model.
- Report.WellFormedCsv: requires a header of at least three columns. With no data rows, the source also renders a header of one or two columns.
- JavaScript keys like `constructor` looked up in `QUERY_TRANSFORMS` (inherited from `Object.prototype`) are not modelled; only the four listed keys transform.

## Findings

| source | as written | input that shows it | evidently intended | confidence | as-written member | corrected member |
|---|---|---|---|---|---|---|
| resources/js/setup.js:186-212 | a rendering without a query does not forget the remembered terms, so re-entering the previous query is skipped | rows `abc` and `xyz`: query `abc`, clear the box, query `abc` again; the body keeps showing both rows | the body always shows the rows of the current query | not executed | RowFilter.StaleSkipAfterClearing | RowFilter.FilterStepShowsQuery |
| resources/js/setup.js:186 | terms are compared through `toString()`, which joins with commas, so different term lists can compare equal | row `defabc`: query `abc+def`, then `abc,def`; the second matches nothing, but the rebuild is skipped and the row stays shown | the term lists themselves are compared | not executed | RowFilter.CommaJoinedTermsCollide | RowFilter.FilterStepShowsQuery |
