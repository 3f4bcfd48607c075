/** The transitive build-dependency closure of catkin stacks
    (src/buildfarm/dependency_walker.py). Checking out a repository and
    parsing its `stack.xml` are an oracle; package-name sanitising and
    debianising are given functions. */
module DependencyWalker {
  import opened Wrappers

  /** Stack name to the names of its build dependencies. */
  type DependencyDict = map<string, seq<string>>

  /** Stack name to its (debianised) package name. */
  type PackageList = map<string, string>

  // ---------------------------------------------------------------------
  // _get_recursive_dependencies

  /** `[p for p in deps if p in package_list]`. */
  function Targets(deps: seq<string>, packageList: PackageList): (r: seq<string>)
    ensures forall p :: p in r <==> p in deps && p in packageList
    ensures |r| <= |deps|
  {
    if |deps| == 0 then []
    else Targets(deps[..|deps| - 1], packageList)
         + (if deps[|deps| - 1] in packageList then [deps[|deps| - 1]] else [])
  }

  /** The recursion has no visited set: on a cycle it recurses until
      Python's recursion limit raises `RuntimeError`. The model admits only
      graphs whose traversed edges go down in some rank, which is to say
      whose traversed part has no cycle. Every dependency that is in
      the package list must also have an entry of its own, or the lookup
      `dependency_dict[p]` fails. */
  ghost predicate Ranked(dd: DependencyDict, packageList: PackageList, rank: map<string, nat>)
  {
    (forall k | k in dd :: k in rank)
    && forall k, p | k in dd && p in dd[k] && p in packageList :: p in dd && p in rank && rank[p] < rank[k]
  }

  /** The package names of the direct dependencies that are in the list. */
  function Direct(dd: DependencyDict, n: string, packageList: PackageList): set<string>
    requires n in dd
  {
    set p | p in dd[n] && p in packageList :: packageList[p]
  }

  /** The value `_get_recursive_dependencies(dd, n, package_list)`. */
  function Closure(dd: DependencyDict, packageList: PackageList, ghost rank: map<string, nat>, n: string): set<string>
    requires Ranked(dd, packageList, rank) && n in dd
    decreases rank[n], 1, 0
  {
    Direct(dd, n, packageList) + ClosureOfAll(dd, packageList, rank, n, Targets(dd[n], packageList))
  }

  /** The union of the closures of `ps`, all of them below `parent`. */
  function ClosureOfAll(dd: DependencyDict, packageList: PackageList, ghost rank: map<string, nat>,
                        ghost parent: string, ps: seq<string>): set<string>
    requires Ranked(dd, packageList, rank) && parent in rank
    requires forall p | p in ps :: p in dd && p in rank && rank[p] < rank[parent]
    decreases rank[parent], 0, |ps|
  {
    if |ps| == 0 then {}
    else ClosureOfAll(dd, packageList, rank, parent, ps[..|ps| - 1])
         + Closure(dd, packageList, rank, ps[|ps| - 1])
  }

  /** The recursive function as the source writes it: a set built from the
      direct dependencies and then updated once per traversed dependency. */
  method GetRecursiveDependencies(dd: DependencyDict, n: string, packageList: PackageList,
                                  ghost rank: map<string, nat>) returns (dependencies: set<string>)
    requires Ranked(dd, packageList, rank) && n in dd
    ensures dependencies == Closure(dd, packageList, rank, n)
    decreases rank[n]
  {
    dependencies := set p | p in dd[n] && p in packageList :: packageList[p];
    var targets := Targets(dd[n], packageList);
    for i := 0 to |targets|
      invariant dependencies == Direct(dd, n, packageList) + ClosureOfAll(dd, packageList, rank, n, targets[..i])
    {
      var sub := GetRecursiveDependencies(dd, targets[i], packageList, rank);
      assert targets[..i + 1][..i] == targets[..i];
      dependencies := dependencies + sub;
    }
    assert targets[..|targets|] == targets;
  }

  // ---------------------------------------------------------------------
  // the reference definition: reachability

  /** `b` is a dependency of `a` that the walk follows. */
  predicate Edge(dd: DependencyDict, packageList: PackageList, a: string, b: string)
  {
    a in dd && b in dd[a] && b in packageList
  }

  /** `path` walks from its first to its last name along followed edges. */
  ghost predicate IsPath(dd: DependencyDict, packageList: PackageList, path: seq<string>)
  {
    |path| >= 2 && forall i | 0 <= i < |path| - 1 :: Edge(dd, packageList, path[i], path[i + 1])
  }

  /** A followed edge in front of a path is a path. */
  lemma PrependEdge(dd: DependencyDict, packageList: PackageList, n: string, path: seq<string>)
    requires IsPath(dd, packageList, path) && Edge(dd, packageList, n, path[0])
    ensures IsPath(dd, packageList, [n] + path)
  {
    var longer := [n] + path;
    forall i | 0 <= i < |longer| - 1 ensures Edge(dd, packageList, longer[i], longer[i + 1]) {
      if i > 0 {
        assert longer[i] == path[i - 1] && longer[i + 1] == path[i];
      }
    }
  }

  /** `m` can be reached from `n` in one step or more. */
  ghost predicate Reaches(dd: DependencyDict, packageList: PackageList, n: string, m: string)
  {
    exists path :: IsPath(dd, packageList, path) && path[0] == n && path[|path| - 1] == m
  }

  lemma {:induction false} ClosureOfAllContains(dd: DependencyDict, packageList: PackageList, rank: map<string, nat>,
                                                parent: string, ps: seq<string>, k: nat)
    requires Ranked(dd, packageList, rank) && parent in rank
    requires forall p | p in ps :: p in dd && p in rank && rank[p] < rank[parent]
    requires k < |ps|
    ensures Closure(dd, packageList, rank, ps[k]) <= ClosureOfAll(dd, packageList, rank, parent, ps)
  {
    if k < |ps| - 1 {
      ClosureOfAllContains(dd, packageList, rank, parent, ps[..|ps| - 1], k);
    }
  }

  lemma {:induction false} ClosureOfAllMember(dd: DependencyDict, packageList: PackageList, rank: map<string, nat>,
                                              parent: string, ps: seq<string>, v: string)
    requires Ranked(dd, packageList, rank) && parent in rank
    requires forall p | p in ps :: p in dd && p in rank && rank[p] < rank[parent]
    requires v in ClosureOfAll(dd, packageList, rank, parent, ps)
    ensures exists k | 0 <= k < |ps| :: v in Closure(dd, packageList, rank, ps[k])
  {
    var init := ps[..|ps| - 1];
    if v in ClosureOfAll(dd, packageList, rank, parent, init) {
      ClosureOfAllMember(dd, packageList, rank, parent, init, v);
      var k :| 0 <= k < |init| && v in Closure(dd, packageList, rank, init[k]);
      assert ps[k] == init[k];
    } else {
      assert v in Closure(dd, packageList, rank, ps[|ps| - 1]);
    }
  }

  /** Everything in the closure is the package name of a reachable stack. */
  lemma {:induction false} ClosureIsReachable(dd: DependencyDict, packageList: PackageList, rank: map<string, nat>,
                                              n: string, v: string)
    requires Ranked(dd, packageList, rank) && n in dd
    requires v in Closure(dd, packageList, rank, n)
    ensures exists m :: Reaches(dd, packageList, n, m) && m in packageList && packageList[m] == v
    decreases rank[n]
  {
    if v in Direct(dd, n, packageList) {
      var p :| p in dd[n] && p in packageList && packageList[p] == v;
      assert IsPath(dd, packageList, [n, p]);
      PathWitness(dd, packageList, [n, p], v);
    } else {
      var targets := Targets(dd[n], packageList);
      ClosureOfAllMember(dd, packageList, rank, n, targets, v);
      var k :| 0 <= k < |targets| && v in Closure(dd, packageList, rank, targets[k]);
      var p := targets[k];
      ClosureIsReachable(dd, packageList, rank, p, v);
      var m :| Reaches(dd, packageList, p, m) && m in packageList && packageList[m] == v;
      var path :| IsPath(dd, packageList, path) && path[0] == p && path[|path| - 1] == m;
      assert Edge(dd, packageList, n, p);
      PrependEdge(dd, packageList, n, path);
      PathWitness(dd, packageList, [n] + path, v);
    }
  }

  /** A path ending at a stack whose package name is `v` witnesses that `v`
      is reachable from the path's start. */
  lemma PathWitness(dd: DependencyDict, packageList: PackageList, path: seq<string>, v: string)
    requires IsPath(dd, packageList, path)
    requires path[|path| - 1] in packageList && packageList[path[|path| - 1]] == v
    ensures exists m :: Reaches(dd, packageList, path[0], m) && m in packageList && packageList[m] == v
  {
    assert Reaches(dd, packageList, path[0], path[|path| - 1]);
  }

  /** Every reachable stack's package name is in the closure. */
  lemma {:induction false} ReachableIsInClosure(dd: DependencyDict, packageList: PackageList, rank: map<string, nat>,
                                                path: seq<string>)
    requires Ranked(dd, packageList, rank) && IsPath(dd, packageList, path)
    ensures path[0] in dd && path[|path| - 1] in packageList
    ensures packageList[path[|path| - 1]] in Closure(dd, packageList, rank, path[0])
    decreases |path|
  {
    var n, p := path[0], path[1];
    assert Edge(dd, packageList, n, p);
    if |path| == 2 {
      assert packageList[p] in Direct(dd, n, packageList);
    } else {
      var rest := path[1..];
      assert IsPath(dd, packageList, rest);
      ReachableIsInClosure(dd, packageList, rank, rest);
      var targets := Targets(dd[n], packageList);
      assert p in targets;
      var k :| 0 <= k < |targets| && targets[k] == p;
      ClosureOfAllContains(dd, packageList, rank, n, targets, k);
    }
  }

  /** `_get_recursive_dependencies(dd, n, package_list)` is exactly the set
      of package names of the stacks reachable from `n`; dependencies outside
      the package list are neither included nor walked through. */
  lemma ClosureIsReachability(dd: DependencyDict, packageList: PackageList, rank: map<string, nat>,
                              n: string, v: string)
    requires Ranked(dd, packageList, rank) && n in dd
    ensures v in Closure(dd, packageList, rank, n)
            <==> exists m :: Reaches(dd, packageList, n, m) && m in packageList && packageList[m] == v
  {
    if v in Closure(dd, packageList, rank, n) {
      ClosureIsReachable(dd, packageList, rank, n, v);
    }
    if exists m :: Reaches(dd, packageList, n, m) && m in packageList && packageList[m] == v {
      var m :| Reaches(dd, packageList, n, m) && m in packageList && packageList[m] == v;
      var path :| IsPath(dd, packageList, path) && path[0] == n && path[|path| - 1] == m;
      ReachableIsInClosure(dd, packageList, rank, path);
    }
  }

  /** A ranked graph has no cycle among traversed stacks: every path goes
      strictly down in rank, so none returns to where it started. */
  lemma {:induction false} RankedPathDescends(dd: DependencyDict, packageList: PackageList, rank: map<string, nat>,
                                              path: seq<string>)
    requires Ranked(dd, packageList, rank) && IsPath(dd, packageList, path)
    ensures path[0] in rank && path[|path| - 1] in rank && rank[path[|path| - 1]] < rank[path[0]]
    ensures path[|path| - 1] != path[0]
    decreases |path|
  {
    assert Edge(dd, packageList, path[0], path[1]);
    if |path| > 2 {
      var rest := path[1..];
      assert IsPath(dd, packageList, rest);
      RankedPathDescends(dd, packageList, rank, rest);
    }
  }

  // ---------------------------------------------------------------------
  // get_dependencies

  /** A repository entry; either key may be missing. */
  datatype Repository = Repository(url: Option<string>, name: Option<string>)

  /** What `rospkg.stack.parse_stack_file` reports. */
  datatype Stack = Stack(name: string, buildDepends: seq<string>)

  /** The three dictionaries the first loop fills. */
  datatype Collected = Collected(packages: PackageList, dependencies: DependencyDict, packageUrls: map<string, string>)

  /** The outside world: the `stack.xml` found after checking out a url
      into the repository's directory (none when the file is absent), and
      the two package-name functions of rosdistro. */
  datatype Environment = Environment(
    stackAt: (string, string) -> Option<Stack>,
    sanitize: string -> string,
    debianize: (string, string) -> string)

  /** One iteration of the loop over the repository list. */
  function AddRepository(c: Collected, r: Repository, rosdistro: string, env: Environment): Collected
  {
    if r.url.None? || r.name.None? then c
    else
      var url, name := r.url.value, r.name.value;
      match env.stackAt(name, url)
      case None =>
        if rosdistro == "backports" then
          Collected(c.packages[name := env.sanitize(name)], c.dependencies[name := []], c.packageUrls[name := url])
        else c
      case Some(stack) =>
        Collected(c.packages[stack.name := env.debianize(rosdistro, stack.name)],
                  c.dependencies[stack.name := stack.buildDepends],
                  c.packageUrls[stack.name := url])
  }

  /** The dictionaries after the first `|repos|` repositories. */
  function CollectAll(repos: seq<Repository>, rosdistro: string, env: Environment): Collected
  {
    if |repos| == 0 then Collected(map[], map[], map[])
    else AddRepository(CollectAll(repos[..|repos| - 1], rosdistro, env), repos[|repos| - 1], rosdistro, env)
  }

  predicate SameKeys(c: Collected)
  {
    c.packages.Keys == c.dependencies.Keys == c.packageUrls.Keys
  }

  /** `packages`, `dependencies` and `package_urls` always get the same keys. */
  lemma {:induction false} CollectAllSameKeys(repos: seq<Repository>, rosdistro: string, env: Environment)
    ensures SameKeys(CollectAll(repos, rosdistro, env))
  {
    if |repos| > 0 {
      CollectAllSameKeys(repos[..|repos| - 1], rosdistro, env);
    }
  }

  /** The skip rules: a repository without a url or a name changes nothing;
      one without a stack is added, with its sanitised name and no
      dependencies, only for `backports`. */
  lemma SkipRules(c: Collected, r: Repository, rosdistro: string, env: Environment)
    ensures r.url.None? || r.name.None? ==> AddRepository(c, r, rosdistro, env) == c
    ensures r.url.Some? && r.name.Some? && env.stackAt(r.name.value, r.url.value).None? ==>
              if rosdistro == "backports" then
                var next := AddRepository(c, r, rosdistro, env);
                next.packages == c.packages[r.name.value := env.sanitize(r.name.value)]
                && next.dependencies == c.dependencies[r.name.value := []]
                && next.packageUrls == c.packageUrls[r.name.value := r.url.value]
              else AddRepository(c, r, rosdistro, env) == c
  {
  }

  /** The first loop of `get_dependencies`. */
  method CollectRepositories(repos: seq<Repository>, rosdistro: string, env: Environment) returns (c: Collected)
    ensures c == CollectAll(repos, rosdistro, env)
  {
    var packages: PackageList := map[];
    var dependencies: DependencyDict := map[];
    var packageUrls: map<string, string> := map[];
    for i := 0 to |repos|
      invariant Collected(packages, dependencies, packageUrls) == CollectAll(repos[..i], rosdistro, env)
    {
      assert repos[..i + 1][..i] == repos[..i];
      var r := repos[i];
      if r.url.None? || r.name.None? {
        continue;
      }
      var url, name := r.url.value, r.name.value;
      var stack := env.stackAt(name, url);
      if stack.None? {
        if rosdistro == "backports" {
          packages := packages[name := env.sanitize(name)];
          dependencies := dependencies[name := []];
          packageUrls := packageUrls[name := url];
        }
        continue;
      }
      var project := stack.value.name;
      packages := packages[project := env.debianize(rosdistro, project)];
      dependencies := dependencies[project := stack.value.buildDepends];
      packageUrls := packageUrls[project := url];
    }
    assert repos[..|repos|] == repos;
    c := Collected(packages, dependencies, packageUrls);
  }

  /** The closure of every collected stack. */
  ghost function Closures(c: Collected, rank: map<string, nat>): (m: map<string, set<string>>)
    requires Ranked(c.dependencies, c.packages, rank)
    ensures m.Keys == c.dependencies.Keys
  {
    map k | k in c.dependencies :: Closure(c.dependencies, c.packages, rank, k)
  }

  /** `m` is what `for k in done: m[names[k]] = values[k]` leaves, in some
      order: its keys are the names of the visited keys, and each holds the
      value of a visited key with that name (a later one replaces an earlier
      one). */
  ghost predicate Overwritten<V>(names: map<string, string>, values: map<string, V>, done: set<string>, m: map<string, V>)
    requires done <= names.Keys && done <= values.Keys
  {
    m.Keys == (set k | k in done :: names[k])
    && forall x | x in m :: exists k | k in done :: names[k] == x && m[x] == values[k]
  }

  /** One more assignment keeps `Overwritten`. */
  lemma OverwriteStep<V>(names: map<string, string>, values: map<string, V>, done: set<string>,
                         m: map<string, V>, k: string)
    requires done <= names.Keys && done <= values.Keys && k in names && k in values
    requires Overwritten(names, values, done, m)
    ensures Overwritten(names, values, done + {k}, m[names[k] := values[k]])
  {
    var m' := m[names[k] := values[k]];
    assert (set x | x in done + {k} :: names[x]) == (set x | x in done :: names[x]) + {names[k]};
    forall x | x in m' ensures exists y | y in done + {k} :: names[y] == x && m'[x] == values[y] {
      if x != names[k] {
        var y :| y in done && names[y] == x && m[x] == values[y];
        assert y in done + {k};
      } else {
        assert k in done + {k};
      }
    }
  }

  /** With distinct names, every visited key's name holds its own value. */
  lemma OverwrittenDistinct<V>(names: map<string, string>, values: map<string, V>, done: set<string>,
                               m: map<string, V>, k: string)
    requires done <= names.Keys && done <= values.Keys && Overwritten(names, values, done, m)
    requires k in done && forall y | y in done && names[y] == names[k] :: y == k
    ensures names[k] in m && m[names[k]] == values[k]
  {
    assert names[k] in (set x | x in done :: names[x]);
  }

  /** What `get_dependencies` returns: each stack's package name holds the
      closure of a stack with that name, each stack's url the package name
      of a stack with that url. */
  ghost predicate ResultMaps(c: Collected, rank: map<string, nat>, result: map<string, set<string>>, urls: map<string, string>)
    requires SameKeys(c) && Ranked(c.dependencies, c.packages, rank)
  {
    Overwritten(c.packages, Closures(c, rank), c.dependencies.Keys, result)
    && Overwritten(c.packageUrls, c.packages, c.dependencies.Keys, urls)
  }

  /** `m[names[k]] = values[k]` for each k of `order` in turn. */
  function OverwriteAll<V>(names: map<string, string>, values: map<string, V>, order: seq<string>): map<string, V>
    requires forall k | k in order :: k in names && k in values
  {
    if |order| == 0 then map[]
    else OverwriteAll(names, values, order[..|order| - 1])[names[order[|order| - 1]] := values[order[|order| - 1]]]
  }

  lemma OverwriteAllSnoc<V>(names: map<string, string>, values: map<string, V>, order: seq<string>, i: nat)
    requires forall k | k in order :: k in names && k in values
    requires i < |order|
    ensures OverwriteAll(names, values, order[..i + 1])
            == OverwriteAll(names, values, order[..i])[names[order[i]] := values[order[i]]]
  {
    assert order[..i + 1][..i] == order[..i];
  }

  lemma ClosuresAt(c: Collected, rank: map<string, nat>, k: string)
    requires Ranked(c.dependencies, c.packages, rank) && k in c.dependencies
    ensures Closures(c, rank)[k] == Closure(c.dependencies, c.packages, rank, k)
  {
  }

  /** Whatever the order, the assignments leave what `Overwritten` says. */
  lemma {:induction false} OverwriteAllIsOverwritten<V>(names: map<string, string>, values: map<string, V>, order: seq<string>)
    requires forall k | k in order :: k in names && k in values
    ensures Overwritten(names, values, (set k | k in order), OverwriteAll(names, values, order))
  {
    if |order| == 0 {
      assert (set k | k in order) == {};
    } else {
      var init := order[..|order| - 1];
      var last := order[|order| - 1];
      OverwriteAllIsOverwritten(names, values, init);
      OverwriteStep(names, values, (set k | k in init), OverwriteAll(names, values, init), last);
      assert (set k | k in order) == (set k | k in init) + {last};
    }
  }

  /** `dependencies.iteritems()`: every stack once, in a given order. */
  predicate IsKeyOrder(order: seq<string>, keys: set<string>)
  {
    (forall i, j | 0 <= i < j < |order| :: order[i] != order[j]) && (set k | k in order) == keys
  }

  /** `get_dependencies`: collect the stacks, then map every stack's package
      name to its closure and every stack's url to its package name. */
  method GetDependencies(repos: seq<Repository>, rosdistro: string, env: Environment,
                         order: seq<string>, ghost rank: map<string, nat>)
    returns (result: map<string, set<string>>, urls: map<string, string>)
    requires Ranked(CollectAll(repos, rosdistro, env).dependencies, CollectAll(repos, rosdistro, env).packages, rank)
    requires IsKeyOrder(order, CollectAll(repos, rosdistro, env).dependencies.Keys)
    ensures SameKeys(CollectAll(repos, rosdistro, env))
    ensures var c := CollectAll(repos, rosdistro, env);
            && result == OverwriteAll(c.packages, Closures(c, rank), order)
            && urls == OverwriteAll(c.packageUrls, c.packages, order)
    ensures ResultMaps(CollectAll(repos, rosdistro, env), rank, result, urls)
  {
    var c := CollectRepositories(repos, rosdistro, env);
    CollectAllSameKeys(repos, rosdistro, env);
    result, urls := MapClosures(c, order, rank);
    OverwriteAllIsOverwritten(c.packages, Closures(c, rank), order);
    OverwriteAllIsOverwritten(c.packageUrls, c.packages, order);
  }

  /** The second loop of `get_dependencies`. */
  method MapClosures(c: Collected, order: seq<string>, ghost rank: map<string, nat>)
    returns (result: map<string, set<string>>, urls: map<string, string>)
    requires SameKeys(c) && Ranked(c.dependencies, c.packages, rank)
    requires forall k | k in order :: k in c.dependencies
    ensures result == OverwriteAll(c.packages, Closures(c, rank), order)
    ensures urls == OverwriteAll(c.packageUrls, c.packages, order)
  {
    result, urls := map[], map[];
    for i := 0 to |order|
      invariant result == OverwriteAll(c.packages, Closures(c, rank), order[..i])
      invariant urls == OverwriteAll(c.packageUrls, c.packages, order[..i])
    {
      var k := order[i];
      var closure := GetRecursiveDependencies(c.dependencies, k, c.packages, rank);
      OverwriteAllSnoc(c.packages, Closures(c, rank), order, i);
      OverwriteAllSnoc(c.packageUrls, c.packages, order, i);
      ClosuresAt(c, rank, k);
      result := result[c.packages[k] := closure];
      urls := urls[c.packageUrls[k] := c.packages[k]];
    }
    assert order[..|order|] == order;
  }

  /** When no two stacks share a package name, each stack's package name
      maps to exactly its own closure; likewise for urls. */
  lemma ResultOfDistinctNames(c: Collected, rank: map<string, nat>, result: map<string, set<string>>,
                              urls: map<string, string>, k: string)
    requires SameKeys(c) && Ranked(c.dependencies, c.packages, rank)
    requires ResultMaps(c, rank, result, urls)
    requires k in c.dependencies
    ensures (forall k2 | k2 in c.dependencies && c.packages[k2] == c.packages[k] :: k2 == k) ==>
              c.packages[k] in result && result[c.packages[k]] == Closure(c.dependencies, c.packages, rank, k)
    ensures (forall k2 | k2 in c.dependencies && c.packageUrls[k2] == c.packageUrls[k] :: k2 == k) ==>
              c.packageUrls[k] in urls && urls[c.packageUrls[k]] == c.packages[k]
  {
    if forall k2 | k2 in c.dependencies && c.packages[k2] == c.packages[k] :: k2 == k {
      OverwrittenDistinct(c.packages, Closures(c, rank), c.dependencies.Keys, result, k);
    }
    if forall k2 | k2 in c.dependencies && c.packageUrls[k2] == c.packageUrls[k] :: k2 == k {
      OverwrittenDistinct(c.packageUrls, c.packages, c.dependencies.Keys, urls, k);
    }
  }
}
