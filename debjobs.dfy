/** Jenkins job names and the job list for one catkin package
    (scripts/jenkins/create_debjobs.py). The parameter dictionary `d` that
    the script passes around and updates is a class; the job configuration
    texts come from template expansion, which is a given function of the
    parameters at the time of expansion. */
module Debjobs {
  import opened Wrappers
  import opened Text

  /** The architectures of every binary job, in order. */
  const Arches: seq<string> := ["i386", "amd64"]

  /** `ros_package_repo`'s default. */
  const DefaultRosPackageRepo: string := "http://50.28.27.175/repos/building"

  /** Debian package name to the package names it depends on. */
  type JobGraph = map<string, set<string>>

  // ---------------------------------------------------------------------
  // names

  /** `"%(ROS_DISTRO)s_%(PACKAGE)s_sourcedeb" % d`. */
  function SourcedebJobName(rosDistro: string, package: string): string
  {
    rosDistro + "_" + package + "_sourcedeb"
  }

  /** The first half of `binary_begin_end`. */
  function BinaryBegin(rosDistro: string): string
  {
    "ros-" + rosDistro + "-"
  }

  /** The second half of `binary_begin_end`. */
  function BinaryEnd(distro: string, arch: string): string
  {
    "_binarydeb_" + distro + "_" + arch
  }

  /** The debian name of the package: `beginning + PACKAGE.replace('_', '-')`. */
  function DebName(rosDistro: string, package: string): string
  {
    BinaryBegin(rosDistro) + ReplaceChar(package, '_', '-')
  }

  function BinarydebJobName(rosDistro: string, package: string, distro: string, arch: string): string
  {
    DebName(rosDistro, package) + BinaryEnd(distro, arch)
  }

  /** A binary job name is the debian name with `_binarydeb_<distro>_<arch>`
      appended, and has no underscore in its package part. */
  lemma BinarydebJobNameShape(rosDistro: string, package: string, distro: string, arch: string)
    ensures var name := BinarydebJobName(rosDistro, package, distro, arch);
            var prefix := "ros-" + rosDistro + "-";
            && |name| == |prefix| + |package| + |BinaryEnd(distro, arch)|
            && name[..|prefix|] == prefix
            && (forall k | |prefix| <= k < |prefix| + |package| ::
                  name[k] == if package[k - |prefix|] == '_' then '-' else package[k - |prefix|])
            && name[|prefix| + |package|..] == "_binarydeb_" + distro + "_" + arch
  {
    var prefix := "ros-" + rosDistro + "-";
    var middle := ReplaceChar(package, '_', '-');
    var name := BinarydebJobName(rosDistro, package, distro, arch);
    assert name == prefix + middle + BinaryEnd(distro, arch);
    forall k | |prefix| <= k < |prefix| + |package|
      ensures name[k] == if package[k - |prefix|] == '_' then '-' else package[k - |prefix|]
    {
      assert name[k] == middle[k - |prefix|];
    }
  }

  /** The two architectures end in different characters. */
  lemma ArchesDiffer()
    ensures Arches[0][|Arches[0]| - 1] == '6' && Arches[1][|Arches[1]| - 1] == '4'
  {
  }

  /** For one package, the binary job name determines distro and
      architecture: no two binary jobs of a package share a name. */
  lemma BinarydebJobNameInjective(rosDistro: string, package: string, d1: string, a1: string, d2: string, a2: string)
    requires a1 in Arches && a2 in Arches
    requires BinarydebJobName(rosDistro, package, d1, a1) == BinarydebJobName(rosDistro, package, d2, a2)
    ensures d1 == d2 && a1 == a2
  {
    var p := DebName(rosDistro, package) + "_binarydeb_";
    var t1, t2 := d1 + "_" + a1, d2 + "_" + a2;
    assert BinarydebJobName(rosDistro, package, d1, a1) == p + t1;
    assert BinarydebJobName(rosDistro, package, d2, a2) == p + t2;
    assert t1 == (p + t1)[|p|..];
    assert t2 == (p + t2)[|p|..];
    SuffixDetermines(d1, a1, d2, a2);
  }

  /** `<distro>_<arch>` determines both parts. */
  lemma SuffixDetermines(d1: string, a1: string, d2: string, a2: string)
    requires a1 in Arches && a2 in Arches
    requires d1 + "_" + a1 == d2 + "_" + a2
    ensures d1 == d2 && a1 == a2
  {
    var t1, t2 := d1 + "_" + a1, d2 + "_" + a2;
    ArchesDiffer();
    assert t1[|t1| - 1] == a1[|a1| - 1] && t2[|t2| - 1] == a2[|a2| - 1];
    assert a1 == a2;
    assert d1 == t1[..|d1|] && d2 == t2[..|d2|];
  }

  /** A source job is never named like a binary job: the source name ends
      in `b`, a binary name in the last digit of its architecture. */
  lemma SourceAndBinaryNamesDiffer(rosDistro: string, package: string, rosDistro': string, package': string,
                                   distro: string, arch: string)
    requires arch in Arches
    ensures SourcedebJobName(rosDistro, package) != BinarydebJobName(rosDistro', package', distro, arch)
  {
    var s := SourcedebJobName(rosDistro, package);
    var b := BinarydebJobName(rosDistro', package', distro, arch);
    assert s[|s| - 1] == 'b';
    assert b[|b| - 1] == arch[|arch| - 1];
  }

  // ---------------------------------------------------------------------
  // job-graph queries

  /** `[key + end for key, deps in jobgraph if pname in deps]`, over the
      keys in iteration order. */
  function ChildJobs(jobgraph: JobGraph, order: seq<string>, pname: string, end: string): seq<string>
    requires forall k | k in order :: k in jobgraph
  {
    if |order| == 0 then []
    else ChildJobs(jobgraph, order[..|order| - 1], pname, end)
         + (if pname in jobgraph[order[|order| - 1]] then [order[|order| - 1] + end] else [])
  }

  /** `jobgraph[pname]` when present, else the empty set. */
  function Dependents(jobgraph: JobGraph, pname: string): set<string>
  {
    if |jobgraph| > 0 && pname in jobgraph then jobgraph[pname] else {}
  }

  /** The child jobs are exactly the jobs of the packages that depend on
      `pname`. */
  lemma {:induction false} ChildJobsMembership(jobgraph: JobGraph, order: seq<string>, pname: string, end: string, x: string)
    requires forall k | k in order :: k in jobgraph
    ensures x in ChildJobs(jobgraph, order, pname, end)
            <==> exists k | k in order :: pname in jobgraph[k] && x == k + end
  {
    if |order| > 0 {
      var init, last := order[..|order| - 1], order[|order| - 1];
      ChildJobsMembership(jobgraph, init, pname, end, x);
      if exists k | k in order :: pname in jobgraph[k] && x == k + end {
        var k :| k in order && pname in jobgraph[k] && x == k + end;
        if k != last {
          assert k in init;
        }
      }
    }
  }

  /** Over an iteration order that lists every key of the job graph, as
      `jobgraph.iteritems()` does, the child jobs are the jobs of exactly the
      packages in the graph that depend on `pname`. */
  lemma ChildJobsOfAllKeys(jobgraph: JobGraph, order: seq<string>, pname: string, end: string, x: string)
    requires forall k | k in order :: k in jobgraph
    requires forall k | k in jobgraph :: k in order
    ensures x in ChildJobs(jobgraph, order, pname, end)
            <==> exists k | k in jobgraph :: pname in jobgraph[k] && x == k + end
  {
    ChildJobsMembership(jobgraph, order, pname, end, x);
  }

  /** The two lookups are each other's inverse: `q`'s binary job is a child
      of `p`'s job exactly when `p` is among `q`'s dependents. */
  lemma ChildIffDependent(jobgraph: JobGraph, order: seq<string>, p: string, q: string, end: string)
    requires forall k | k in order :: k in jobgraph
    requires q in order
    ensures q + end in ChildJobs(jobgraph, order, p, end) <==> p in Dependents(jobgraph, q)
  {
    ChildJobsMembership(jobgraph, order, p, end, q + end);
    if q + end in ChildJobs(jobgraph, order, p, end) {
      var k :| k in order && p in jobgraph[k] && q + end == k + end;
      assert k == (q + end)[..|q|] == q;
    }
  }

  // ---------------------------------------------------------------------
  // the parameter dictionary

  /** What a binary job's template sees. */
  datatype BinaryParams = BinaryParams(
    rosDistro: string, distros: seq<string>, fqdn: string, rosPackageRepo: string, package: string,
    arch: string, distro: string, childProjects: seq<string>, dependents: set<string>)

  /** What a source job's template sees. */
  datatype SourceParams = SourceParams(
    releaseUri: string, rosDistro: string, fqdn: string, distros: seq<string>,
    childProjects: seq<string>, package: string)

  /** The dictionary `d` of `binarydeb_jobs`; a key not yet assigned is `None`. */
  class JobDict {
    var rosDistro: string
    var distros: seq<string>
    var fqdn: string
    var rosPackageRepo: string
    var package: string
    var arch: Option<string>
    var distro: Option<string>
    var childProjects: Option<seq<string>>
    var dependents: Option<set<string>>

    constructor (rosDistro: string, distros: seq<string>, fqdn: string, rosPackageRepo: string, package: string)
      ensures this.rosDistro == rosDistro && this.distros == distros && this.fqdn == fqdn
      ensures this.rosPackageRepo == rosPackageRepo && this.package == package
      ensures arch == None && distro == None && childProjects == None && dependents == None
    {
      this.rosDistro := rosDistro;
      this.distros := distros;
      this.fqdn := fqdn;
      this.rosPackageRepo := rosPackageRepo;
      this.package := package;
      arch := None;
      distro := None;
      childProjects := None;
      dependents := None;
    }

    /** `calc_child_jobs(d, jobgraph)`; `binary_begin_end` needs DISTRO and ARCH. */
    method CalcChildJobs(jobgraph: JobGraph, order: seq<string>)
      requires arch.Some? && distro.Some?
      requires forall k | k in order :: k in jobgraph
      modifies this
      ensures rosDistro == old(rosDistro) && distros == old(distros) && fqdn == old(fqdn)
      ensures rosPackageRepo == old(rosPackageRepo) && package == old(package)
      ensures arch == old(arch) && distro == old(distro) && dependents == old(dependents)
      ensures childProjects == Some(if |jobgraph| > 0
                                    then ChildJobs(jobgraph, order, DebName(rosDistro, package), BinaryEnd(distro.value, arch.value))
                                    else [])
    {
      var children := [];
      var end := BinaryEnd(distro.value, arch.value);
      if |jobgraph| > 0 {
        var pname := BinaryBegin(rosDistro) + ReplaceChar(package, '_', '-');
        for i := 0 to |order|
          invariant children == ChildJobs(jobgraph, order[..i], pname, end)
        {
          assert order[..i + 1][..i] == order[..i];
          if pname in jobgraph[order[i]] {
            children := children + [order[i] + end];
          }
        }
        assert order[..|order|] == order;
      }
      childProjects := Some(children);
    }

    /** `add_dependent_to_dict(d, jobgraph)`. */
    method AddDependentToDict(jobgraph: JobGraph)
      requires arch.Some? && distro.Some?
      modifies this
      ensures dependents == Some(Dependents(jobgraph, DebName(rosDistro, package)))
      ensures rosDistro == old(rosDistro) && distros == old(distros) && fqdn == old(fqdn)
      ensures rosPackageRepo == old(rosPackageRepo) && package == old(package)
      ensures arch == old(arch) && distro == old(distro) && childProjects == old(childProjects)
    {
      dependents := Some({});
      if |jobgraph| > 0 {
        var pname := BinaryBegin(rosDistro) + ReplaceChar(package, '_', '-');
        if pname in jobgraph {
          dependents := Some(jobgraph[pname]);
        }
      }
    }

    /** One pass of `binarydeb_jobs`' inner loop: set DISTRO and ARCH,
        compute the child jobs and the dependents, and build the job from
        the dictionary as it now stands. */
    method ConfigureBinary(distro: string, arch: string, jobgraph: JobGraph, order: seq<string>,
                           render: BinaryParams -> string)
      returns (job: (string, string))
      requires forall k | k in order :: k in jobgraph
      modifies this
      ensures rosDistro == old(rosDistro) && distros == old(distros) && fqdn == old(fqdn)
      ensures rosPackageRepo == old(rosPackageRepo) && package == old(package)
      ensures this.arch == Some(arch) && this.distro == Some(distro)
      ensures childProjects == Some(if |jobgraph| > 0
                                    then ChildJobs(jobgraph, order, DebName(rosDistro, package), BinaryEnd(distro, arch))
                                    else [])
      ensures dependents == Some(Dependents(jobgraph, DebName(rosDistro, package)))
      ensures job == BinaryJob(package, rosDistro, distros, fqdn, rosPackageRepo, jobgraph, order, render, distro, arch)
    {
      this.arch := Some(arch);
      this.distro := Some(distro);
      CalcChildJobs(jobgraph, order);
      AddDependentToDict(jobgraph);
      var config := render(Binary());
      job := (BinarydebJobName(rosDistro, package, this.distro.value, this.arch.value), config);
    }

    /** The inner loop of `binarydeb_jobs`: one job per architecture, in
        the order of `Arches`. */
    method ConfigureDistro(distro: string, jobgraph: JobGraph, order: seq<string>,
                           render: BinaryParams -> string)
      returns (pair: seq<(string, string)>)
      requires forall k | k in order :: k in jobgraph
      modifies this
      ensures rosDistro == old(rosDistro) && distros == old(distros) && fqdn == old(fqdn)
      ensures rosPackageRepo == old(rosPackageRepo) && package == old(package)
      ensures this.arch == Some(Arches[1]) && this.distro == Some(distro)
      ensures childProjects == Some(if |jobgraph| > 0
                                    then ChildJobs(jobgraph, order, DebName(rosDistro, package), BinaryEnd(distro, Arches[1]))
                                    else [])
      ensures dependents == Some(Dependents(jobgraph, DebName(rosDistro, package)))
      ensures pair == DistroJobs(package, rosDistro, distros, fqdn, rosPackageRepo, jobgraph, order, render, distro)
    {
      ghost var expected := DistroJobs(package, rosDistro, distros, fqdn, rosPackageRepo, jobgraph, order, render, distro);
      pair := [];
      for a := 0 to |Arches|
        invariant rosDistro == old(rosDistro) && distros == old(distros) && fqdn == old(fqdn)
        invariant rosPackageRepo == old(rosPackageRepo) && package == old(package)
        invariant pair == expected[..a]
        invariant a > 0 ==> this.arch == Some(Arches[a - 1]) && this.distro == Some(distro)
        invariant a > 0 ==> childProjects == Some(if |jobgraph| > 0
                                                  then ChildJobs(jobgraph, order, DebName(rosDistro, package), BinaryEnd(distro, Arches[a - 1]))
                                                  else [])
        invariant a > 0 ==> dependents == Some(Dependents(jobgraph, DebName(rosDistro, package)))
      {
        var job := ConfigureBinary(distro, Arches[a], jobgraph, order, render);
        assert expected[..a + 1] == expected[..a] + [job];
        pair := pair + [job];
      }
      assert expected[..2] == expected;
    }

    /** The dictionary as the binary template sees it. */
    function Binary(): BinaryParams
      reads this
      requires arch.Some? && distro.Some? && childProjects.Some? && dependents.Some?
    {
      BinaryParams(rosDistro, distros, fqdn, rosPackageRepo, package,
                   arch.value, distro.value, childProjects.value, dependents.value)
    }
  }

  // ---------------------------------------------------------------------
  // the job list

  /** The job for one distro and architecture. */
  function BinaryJob(package: string, rosDistro: string, distros: seq<string>, fqdn: string, rosPackageRepo: string,
                     jobgraph: JobGraph, order: seq<string>, render: BinaryParams -> string,
                     distro: string, arch: string): (string, string)
    requires forall k | k in order :: k in jobgraph
  {
    var children := if |jobgraph| > 0 then ChildJobs(jobgraph, order, DebName(rosDistro, package), BinaryEnd(distro, arch)) else [];
    var params := BinaryParams(rosDistro, distros, fqdn, rosPackageRepo, package, arch, distro,
                               children, Dependents(jobgraph, DebName(rosDistro, package)));
    (BinarydebJobName(rosDistro, package, distro, arch), render(params))
  }

  /** The two jobs of one distro, `i386` first. */
  function DistroJobs(package: string, rosDistro: string, distros: seq<string>, fqdn: string, rosPackageRepo: string,
                      jobgraph: JobGraph, order: seq<string>, render: BinaryParams -> string,
                      distro: string): seq<(string, string)>
    requires forall k | k in order :: k in jobgraph
  {
    [BinaryJob(package, rosDistro, distros, fqdn, rosPackageRepo, jobgraph, order, render, distro, Arches[0]),
     BinaryJob(package, rosDistro, distros, fqdn, rosPackageRepo, jobgraph, order, render, distro, Arches[1])]
  }

  /** The jobs for the distros in `ds`, two per distro. */
  function BinaryJobs(package: string, rosDistro: string, distros: seq<string>, fqdn: string, rosPackageRepo: string,
                      jobgraph: JobGraph, order: seq<string>, render: BinaryParams -> string,
                      ds: seq<string>): seq<(string, string)>
    requires forall k | k in order :: k in jobgraph
  {
    if |ds| == 0 then []
    else BinaryJobs(package, rosDistro, distros, fqdn, rosPackageRepo, jobgraph, order, render, ds[..|ds| - 1])
         + DistroJobs(package, rosDistro, distros, fqdn, rosPackageRepo, jobgraph, order, render, ds[|ds| - 1])
  }

  /** `binarydeb_jobs` yields two jobs per distro, distro by distro, `i386`
      before `amd64`. */
  lemma {:induction false} BinaryJobsAt(package: string, rosDistro: string, distros: seq<string>, fqdn: string,
                                        rosPackageRepo: string, jobgraph: JobGraph, order: seq<string>,
                                        render: BinaryParams -> string, ds: seq<string>, i: nat, a: nat)
    requires forall k | k in order :: k in jobgraph
    requires i < |ds| && a < 2
    ensures var jobs := BinaryJobs(package, rosDistro, distros, fqdn, rosPackageRepo, jobgraph, order, render, ds);
            && |jobs| == 2 * |ds|
            && jobs[2 * i + a] == BinaryJob(package, rosDistro, distros, fqdn, rosPackageRepo, jobgraph, order, render, ds[i], Arches[a])
  {
    BinaryJobsLength(package, rosDistro, distros, fqdn, rosPackageRepo, jobgraph, order, render, ds);
    if i < |ds| - 1 {
      BinaryJobsAt(package, rosDistro, distros, fqdn, rosPackageRepo, jobgraph, order, render, ds[..|ds| - 1], i, a);
    }
  }

  lemma {:induction false} BinaryJobsLength(package: string, rosDistro: string, distros: seq<string>, fqdn: string,
                                            rosPackageRepo: string, jobgraph: JobGraph, order: seq<string>,
                                            render: BinaryParams -> string, ds: seq<string>)
    requires forall k | k in order :: k in jobgraph
    ensures |BinaryJobs(package, rosDistro, distros, fqdn, rosPackageRepo, jobgraph, order, render, ds)| == 2 * |ds|
  {
    if |ds| > 0 {
      BinaryJobsLength(package, rosDistro, distros, fqdn, rosPackageRepo, jobgraph, order, render, ds[..|ds| - 1]);
    }
  }

  /** `binarydeb_jobs`: the dictionary is updated for every distro and
      architecture in turn, and a job is appended with the name and the
      configuration of that moment. */
  method BinarydebJobs(package: string, rosDistro: string, distros: seq<string>, fqdn: string,
                       jobgraph: JobGraph, order: seq<string>, render: BinaryParams -> string,
                       rosPackageRepo: string := DefaultRosPackageRepo)
    returns (jobs: seq<(string, string)>)
    requires forall k | k in order :: k in jobgraph
    ensures jobs == BinaryJobs(package, rosDistro, distros, fqdn, rosPackageRepo, jobgraph, order, render, distros)
  {
    var d := new JobDict(rosDistro, distros, fqdn, rosPackageRepo, package);
    jobs := [];
    for i := 0 to |distros|
      invariant d.rosDistro == rosDistro && d.distros == distros && d.fqdn == fqdn
      invariant d.rosPackageRepo == rosPackageRepo && d.package == package
      invariant jobs == BinaryJobs(package, rosDistro, distros, fqdn, rosPackageRepo, jobgraph, order, render, distros[..i])
    {
      assert distros[..i + 1][..i] == distros[..i];
      var pair := d.ConfigureDistro(distros[i], jobgraph, order, render);
      jobs := jobs + pair;
    }
    assert distros[..|distros|] == distros;
  }

  /** `sourcedeb_job`. */
  function SourcedebJob(package: string, rosDistro: string, distros: seq<string>, fqdn: string, releaseUri: string,
                        childProjects: seq<string>, render: SourceParams -> string): (string, string)
  {
    (SourcedebJobName(rosDistro, package),
     render(SourceParams(releaseUri, rosDistro, fqdn, distros, childProjects, package)))
  }

  // ---------------------------------------------------------------------
  // the package name of a release uri

  /** `os.path.basename`: everything after the last `/`. */
  function BaseName(path: string): (r: string)
    ensures '/' !in r && |r| <= |path| && r == path[|path| - |r|..]
    ensures |r| == |path| || path[|path| - |r| - 1] == '/'
  {
    if |path| == 0 || path[|path| - 1] == '/' then ""
    else BaseName(path[..|path| - 1]) + [path[|path| - 1]]
  }

  /** The index of the last `.`, if any. */
  function LastDot(s: string): (r: Option<nat>)
    ensures r.Some? ==> r.value < |s| && s[r.value] == '.' && '.' !in s[r.value + 1..]
    ensures r.None? ==> '.' !in s
  {
    if |s| == 0 then None
    else if s[|s| - 1] == '.' then Some(|s| - 1)
    else
      var r := LastDot(s[..|s| - 1]);
      assert r.Some? ==> s[r.value + 1..] == s[..|s| - 1][r.value + 1..] + [s[|s| - 1]];
      r
  }

  /** `os.path.splitext(name)[0]`: the name without its last extension; a
      name whose dots all lead it has no extension. */
  function SplitExtRoot(name: string): string
  {
    match LastDot(name)
    case None => name
    case Some(k) => if exists j | 0 <= j < k :: name[j] != '.' then name[..k] else name
  }

  /** `os.path.splitext(os.path.basename(release_uri))[0]`. */
  function PackageOf(releaseUri: string): string
  {
    SplitExtRoot(BaseName(releaseUri))
  }

  /** The package of `<prefix>/<stem>.<ext>` is `stem`, when the extension
      has no dot and the stem is not made of dots only. */
  lemma PackageOfUri(prefix: string, stem: string, ext: string)
    requires '/' !in stem && '/' !in ext && '.' !in ext
    requires exists j | 0 <= j < |stem| :: stem[j] != '.'
    ensures PackageOf(prefix + "/" + stem + "." + ext) == stem
  {
    var name := stem + "." + ext;
    var uri := prefix + "/" + name;
    assert prefix + "/" + stem + "." + ext == uri;
    BaseNameAfterSlash(prefix, name);
    LastDotBeforeExtension(stem, ext);
    var j :| 0 <= j < |stem| && stem[j] != '.';
    assert name[..|stem|] == stem;
    RootOfName(uri, name, |stem|, j);
  }

  lemma LastDotBeforeExtension(stem: string, ext: string)
    requires '.' !in ext
    ensures LastDot(stem + "." + ext) == Some(|stem|)
  {
    var name := stem + "." + ext;
    assert name[|stem| + 1..] == ext;
    LastDotIs(name, |stem|);
  }

  lemma RootOfName(uri: string, name: string, k: nat, j: nat)
    requires BaseName(uri) == name && LastDot(name) == Some(k) && j < k && name[j] != '.'
    ensures PackageOf(uri) == name[..k]
  {
  }

  /** A base name without a dot is the package name itself. */
  lemma PackageOfDotless(prefix: string, name: string)
    requires '/' !in name && '.' !in name
    ensures PackageOf(prefix + "/" + name) == name
  {
    BaseNameAfterSlash(prefix, name);
  }

  lemma {:induction false} BaseNameAfterSlash(prefix: string, name: string)
    requires '/' !in name
    ensures BaseName(prefix + "/" + name) == name
    decreases |name|
  {
    var p := prefix + "/" + name;
    if |name| > 0 {
      var init, last := name[..|name| - 1], name[|name| - 1];
      assert last in name;
      assert p == prefix + "/" + init + [last];
      BaseNameAfterSlash(prefix, init);
      assert name == init + [last];
    }
  }

  lemma {:induction false} LastDotIs(s: string, k: nat)
    requires k < |s| && s[k] == '.' && '.' !in s[k + 1..]
    ensures LastDot(s) == Some(k)
  {
    if k < |s| - 1 {
      assert s[|s| - 1] in s[k + 1..];
      assert s[..|s| - 1][k + 1..] == s[k + 1..|s| - 1];
      LastDotIs(s[..|s| - 1], k);
    }
  }

  // ---------------------------------------------------------------------
  // doit

  /** The names of a job list. */
  function Names(jobs: seq<(string, string)>): (r: seq<string>)
    ensures |r| == |jobs| && forall k | 0 <= k < |jobs| :: r[k] == jobs[k].0
  {
    seq(|jobs|, k requires 0 <= k < |jobs| => jobs[k].0)
  }

  /** The job list `doit` configures: the source job, whose child projects
      are the binary jobs, then the binary jobs. `zip(*[])[0]` fails, so
      there must be at least one distro. */
  method Doit(releaseUri: string, rosDistro: string, distros: seq<string>, fqdn: string,
              jobgraph: JobGraph, order: seq<string>,
              renderBinary: BinaryParams -> string, renderSource: SourceParams -> string)
    returns (jobs: seq<(string, string)>)
    requires |distros| > 0
    requires forall k | k in order :: k in jobgraph
    ensures var package := PackageOf(releaseUri);
            var binary := BinaryJobs(package, rosDistro, distros, fqdn, DefaultRosPackageRepo, jobgraph, order,
                                     renderBinary, distros);
            jobs == [SourcedebJob(package, rosDistro, distros, fqdn, releaseUri, Names(binary), renderSource)] + binary
  {
    var package := SplitExtRoot(BaseName(releaseUri));
    var binaryJobs := BinarydebJobs(package, rosDistro, distros, fqdn, jobgraph, order, renderBinary);
    var childProjects := seq(|binaryJobs|, k requires 0 <= k < |binaryJobs| => binaryJobs[k].0);
    var sourceJob := SourcedebJob(package, rosDistro, distros, fqdn, releaseUri, childProjects, renderSource);
    jobs := [sourceJob] + binaryJobs;
  }

  /** `doit` configures `1 + 2 * len(distros)` jobs: first the source job
      named after the package, whose child projects are exactly the binary
      job names in order, then binary job `2 * i + a` for distro `i` and
      architecture `a`. */
  lemma DoitShape(releaseUri: string, rosDistro: string, distros: seq<string>, fqdn: string,
                  jobgraph: JobGraph, order: seq<string>,
                  renderBinary: BinaryParams -> string, renderSource: SourceParams -> string, i: nat, a: nat)
    requires forall k | k in order :: k in jobgraph
    requires i < |distros| && a < 2
    ensures var package := PackageOf(releaseUri);
            var binary := BinaryJobs(package, rosDistro, distros, fqdn, DefaultRosPackageRepo, jobgraph, order,
                                     renderBinary, distros);
            var jobs := [SourcedebJob(package, rosDistro, distros, fqdn, releaseUri, Names(binary), renderSource)] + binary;
            && |jobs| == 1 + 2 * |distros|
            && jobs[0].0 == SourcedebJobName(rosDistro, package)
            && jobs[0].1 == renderSource(SourceParams(releaseUri, rosDistro, fqdn, distros, Names(binary), package))
            && jobs[1 + 2 * i + a].0 == BinarydebJobName(rosDistro, package, distros[i], Arches[a])
            && Names(binary)[2 * i + a] == jobs[1 + 2 * i + a].0
  {
    var package := PackageOf(releaseUri);
    BinaryJobsAt(package, rosDistro, distros, fqdn, DefaultRosPackageRepo, jobgraph, order, renderBinary, distros, i, a);
  }
}
