/** The distro/arch column keys of the status table (buildfarm/status_page.py):
    `get_dist_arch_str`, `get_da_strs` and the grouping of (distro, arch)
    pairs by distro that `render_csv` performs before calling it. */
module Columns {
  import opened Text

  type DistroArch = (string, string)

  /** `get_dist_arch_str(d, a)`: `"%s_%s" % (d, a)`. */
  function DistArchStr(d: string, a: string): string
  {
    d + "_" + a
  }

  /** The key of the synthetic source column of distro d. */
  function SourceCol(d: string): string
  {
    d + "_source"
  }

  lemma SourceColInjective(d: string, e: string)
    requires SourceCol(d) == SourceCol(e)
    ensures d == e
  {
    assert |d| == |e|;
    assert d == SourceCol(d)[..|d|];
  }

  /** The distros named by the pairs. */
  function Distros(pairs: seq<DistroArch>): set<string>
  {
    if |pairs| == 0 then {} else Distros(pairs[..|pairs| - 1]) + {pairs[|pairs| - 1].0}
  }

  lemma {:induction false} DistrosMember(pairs: seq<DistroArch>, d: string)
    ensures d in Distros(pairs) <==> exists k | 0 <= k < |pairs| :: pairs[k].0 == d
  {
    if |pairs| > 0 {
      var init := pairs[..|pairs| - 1];
      DistrosMember(init, d);
      if d in Distros(init) {
        var k :| 0 <= k < |init| && init[k].0 == d;
        assert pairs[k].0 == d;
      }
      if exists k | 0 <= k < |pairs| :: pairs[k].0 == d {
        var k :| 0 <= k < |pairs| && pairs[k].0 == d;
        if k < |init| {
          assert init[k].0 == d;
        }
      }
    }
  }

  /** Pair i is the first one of its distro. */
  predicate IsFirst(pairs: seq<DistroArch>, i: int)
    requires 0 <= i < |pairs|
  {
    forall k | 0 <= k < i :: pairs[k].0 != pairs[i].0
  }

  /** The keys pair i contributes: its distro's source column when it is the
      first pair of that distro, then its own distro_arch key. */
  function Entry(pairs: seq<DistroArch>, i: int): seq<string>
    requires 0 <= i < |pairs|
  {
    (if IsFirst(pairs, i) then [SourceCol(pairs[i].0)] else [])
    + [DistArchStr(pairs[i].0, pairs[i].1)]
  }

  /** The column keys for the first n pairs, defined pair by pair. */
  function DaStrsUpTo(pairs: seq<DistroArch>, n: int): seq<string>
    requires 0 <= n <= |pairs|
  {
    if n == 0 then [] else DaStrsUpTo(pairs, n - 1) + Entry(pairs, n - 1)
  }

  function DaStrs(pairs: seq<DistroArch>): seq<string>
  {
    DaStrsUpTo(pairs, |pairs|)
  }

  lemma DistrosStep(pairs: seq<DistroArch>, n: int)
    requires 0 <= n < |pairs|
    ensures Distros(pairs[..n + 1]) == Distros(pairs[..n]) + {pairs[n].0}
    ensures IsFirst(pairs, n) <==> pairs[n].0 !in Distros(pairs[..n])
  {
    assert pairs[..n + 1][..n] == pairs[..n];
    DistrosMember(pairs[..n], pairs[n].0);
    if !IsFirst(pairs, n) {
      var k :| 0 <= k < n && pairs[k].0 == pairs[n].0;
      assert pairs[..n][k].0 == pairs[n].0;
    }
  }

  /** `get_da_strs(distro_arches)`: a loop that keeps the set of distros seen
      so far and emits `<distro>_source` on a distro's first appearance. */
  method GetDaStrs(distroArches: seq<DistroArch>) returns (output: seq<string>)
    ensures output == DaStrs(distroArches)
  {
    var distros: set<string> := {};
    output := [];
    for i := 0 to |distroArches|
      invariant distros == Distros(distroArches[..i])
      invariant output == DaStrsUpTo(distroArches, i)
    {
      DistrosStep(distroArches, i);
      var (d, a) := distroArches[i];
      if d !in distros {
        output := output + [d + "_source"];
        distros := distros + {d};
      }
      output := output + [DistArchStr(d, a)];
    }
    assert distroArches[..|distroArches|] == distroArches;
  }

  /** There is one key per pair plus one source column per distinct distro. */
  lemma {:induction false} DaStrsLength(pairs: seq<DistroArch>, n: int)
    requires 0 <= n <= |pairs|
    ensures |DaStrsUpTo(pairs, n)| == n + |Distros(pairs[..n])|
  {
    if n == 0 {
      assert Distros(pairs[..0]) == {};
    } else {
      DaStrsLength(pairs, n - 1);
      DistrosStep(pairs, n - 1);
      var before := Distros(pairs[..n - 1]);
      assert |DaStrsUpTo(pairs, n)| == |DaStrsUpTo(pairs, n - 1)| + |Entry(pairs, n - 1)|;
      if IsFirst(pairs, n - 1) {
        assert |before + {pairs[n - 1].0}| == |before| + 1;
      } else {
        assert before + {pairs[n - 1].0} == before;
      }
    }
  }

  /** Where the keys of pair i start in the output. */
  function Slot(pairs: seq<DistroArch>, i: int): nat
    requires 0 <= i <= |pairs|
  {
    |DaStrsUpTo(pairs, i)|
  }

  lemma {:induction false} DaStrsPrefix(pairs: seq<DistroArch>, n: int, m: int)
    requires 0 <= n <= m <= |pairs|
    ensures DaStrsUpTo(pairs, n) <= DaStrsUpTo(pairs, m)
    decreases m - n
  {
    if n < m {
      DaStrsPrefix(pairs, n, m - 1);
    }
  }

  /** Each pair's distro_arch key appears, in input order, at its slot; the
      first pair of a distro is immediately preceded by that distro's source
      column. */
  lemma DaStrsLayout(pairs: seq<DistroArch>, i: int)
    requires 0 <= i < |pairs|
    ensures var out, k := DaStrs(pairs), Slot(pairs, i);
            && k + |Entry(pairs, i)| <= |out|
            && (IsFirst(pairs, i) ==> out[k] == SourceCol(pairs[i].0)
                                      && out[k + 1] == DistArchStr(pairs[i].0, pairs[i].1))
            && (!IsFirst(pairs, i) ==> out[k] == DistArchStr(pairs[i].0, pairs[i].1))
            && (i + 1 < |pairs| ==> Slot(pairs, i) < Slot(pairs, i + 1))
  {
    DaStrsPrefix(pairs, i + 1, |pairs|);
    var upto := DaStrsUpTo(pairs, i + 1);
    assert upto == DaStrsUpTo(pairs, i) + Entry(pairs, i);
    assert upto[Slot(pairs, i)..] == Entry(pairs, i);
  }

  /** A pair's keys hold the source column of `d` once when the pair is the
      first of distro `d`, and not otherwise. */
  lemma EntrySourceColCount(pairs: seq<DistroArch>, i: int, d: string)
    requires 0 <= i < |pairs|
    requires DistArchStr(pairs[i].0, pairs[i].1) != SourceCol(d)
    ensures Count(Entry(pairs, i), SourceCol(d)) == if IsFirst(pairs, i) && pairs[i].0 == d then 1 else 0
  {
    var tail := [DistArchStr(pairs[i].0, pairs[i].1)];
    assert Count(tail, SourceCol(d)) == 0 by {
      assert tail[1..] == [];
    }
    if IsFirst(pairs, i) {
      CountAppend([SourceCol(pairs[i].0)], tail, SourceCol(d));
      if SourceCol(pairs[i].0) == SourceCol(d) {
        SourceColInjective(pairs[i].0, d);
      }
      assert [SourceCol(pairs[i].0)][1..] == [];
    } else {
      assert Entry(pairs, i) == tail;
    }
  }

  /** A pair's keys add the source column of `d` exactly when the pair
      brings `d` into the distros seen. */
  lemma EntryCountsNewDistro(pairs: seq<DistroArch>, i: int, d: string)
    requires 0 <= i < |pairs|
    requires DistArchStr(pairs[i].0, pairs[i].1) != SourceCol(d)
    ensures Count(Entry(pairs, i), SourceCol(d)) + (if d in Distros(pairs[..i]) then 1 else 0)
            == if d in Distros(pairs[..i + 1]) then 1 else 0
  {
    DistrosStep(pairs, i);
    EntrySourceColCount(pairs, i, d);
  }

  /** Counting: the source column of a distro occurs in the keys exactly once
      per distro seen, provided no distro_arch key spells a source column. */
  lemma {:induction false} SourceColCount(pairs: seq<DistroArch>, n: int, d: string)
    requires 0 <= n <= |pairs|
    requires forall k | 0 <= k < |pairs| :: DistArchStr(pairs[k].0, pairs[k].1) != SourceCol(d)
    ensures Count(DaStrsUpTo(pairs, n), SourceCol(d)) == if d in Distros(pairs[..n]) then 1 else 0
  {
    if n == 0 {
      assert Distros(pairs[..0]) == {};
    } else {
      SourceColCount(pairs, n - 1, d);
      CountAppend(DaStrsUpTo(pairs, n - 1), Entry(pairs, n - 1), SourceCol(d));
      EntryCountsNewDistro(pairs, n - 1, d);
    }
  }

  /** Each distro of the input gets exactly one source column in the keys. */
  lemma SourceColumnOncePerDistro(pairs: seq<DistroArch>, d: string)
    requires d in Distros(pairs)
    requires forall k | 0 <= k < |pairs| :: DistArchStr(pairs[k].0, pairs[k].1) != SourceCol(d)
    ensures Count(DaStrs(pairs), SourceCol(d)) == 1
  {
    assert pairs[..|pairs|] == pairs;
    SourceColCount(pairs, |pairs|, d);
  }

  // ---------------------------------------------------------------------
  // render_csv: pairs grouped by distro, distros in the dict's iteration order

  /** The arches of distro d, in input order. */
  function ArchesOf(pairs: seq<DistroArch>, d: string): seq<string>
  {
    if |pairs| == 0 then []
    else ArchesOf(pairs[..|pairs| - 1], d)
         + (if pairs[|pairs| - 1].0 == d then [pairs[|pairs| - 1].1] else [])
  }

  /** The pairs of distro d, as `das` lists them. */
  function Block(d: string, arches: seq<string>): seq<DistroArch>
  {
    if |arches| == 0 then [] else [(d, arches[0])] + Block(d, arches[1..])
  }

  /** `das`: for each distro in dict order, its pairs in input order. */
  function Grouped(pairs: seq<DistroArch>, order: seq<string>): seq<DistroArch>
  {
    if |order| == 0 then [] else Block(order[0], ArchesOf(pairs, order[0])) + Grouped(pairs, order[1..])
  }

  /** `order` is an iteration order of the keys of the `distros` dict. */
  ghost predicate IsKeyOrder(pairs: seq<DistroArch>, order: seq<string>)
  {
    (forall i, j | 0 <= i < j < |order| :: order[i] != order[j])
    && (forall k | 0 <= k < |order| :: order[k] in Distros(pairs))
    && (forall k | 0 <= k < |pairs| :: pairs[k].0 in order)
  }

  /** The first loop of `render_csv`: `distros[d].append(a)` for every pair. */
  method GroupArches(distroArches: seq<DistroArch>) returns (distros: map<string, seq<string>>)
    ensures distros.Keys == Distros(distroArches)
    ensures forall d | d in distros :: distros[d] == ArchesOf(distroArches, d)
  {
    distros := map[];
    for i := 0 to |distroArches|
      invariant distros.Keys == Distros(distroArches[..i])
      invariant forall d | d in distros :: distros[d] == ArchesOf(distroArches[..i], d)
    {
      DistrosStep(distroArches, i);
      var (d, a) := distroArches[i];
      assert distroArches[..i + 1][..i] == distroArches[..i];
      if d !in distros {
        assert ArchesOf(distroArches[..i], d) == [] by {
          ArchesOfAbsent(distroArches[..i], d);
        }
        distros := distros[d := []];
      }
      distros := distros[d := distros[d] + [a]];
    }
    assert distroArches[..|distroArches|] == distroArches;
  }

  lemma {:induction false} ArchesOfAbsent(pairs: seq<DistroArch>, d: string)
    requires d !in Distros(pairs)
    ensures ArchesOf(pairs, d) == []
  {
    if |pairs| > 0 {
      ArchesOfAbsent(pairs[..|pairs| - 1], d);
    }
  }

  /** The grouping part of `render_csv`: the pairs regrouped by distro, the
      distros in `order` (the dict's iteration order, taken as given). */
  method GroupByDistro(distroArches: seq<DistroArch>, order: seq<string>) returns (das: seq<DistroArch>)
    requires IsKeyOrder(distroArches, order)
    ensures das == Grouped(distroArches, order)
  {
    var distros := GroupArches(distroArches);
    das := [];
    for i := 0 to |order|
      invariant das == Grouped(distroArches, order[..i])
    {
      var d := order[i];
      assert d in Distros(distroArches);
      var arches := distros[d];
      das := AppendPairs(das, d, arches);
      GroupedSnoc(distroArches, order, i);
    }
    assert order[..|order|] == order;
  }

  lemma {:induction false} GroupedAppend(pairs: seq<DistroArch>, a: seq<string>, b: seq<string>)
    ensures Grouped(pairs, a + b) == Grouped(pairs, a) + Grouped(pairs, b)
  {
    if |a| == 0 {
      assert a + b == b;
    } else {
      assert (a + b)[1..] == a[1..] + b;
      GroupedAppend(pairs, a[1..], b);
    }
  }

  lemma GroupedSnoc(pairs: seq<DistroArch>, order: seq<string>, i: int)
    requires 0 <= i < |order|
    ensures Grouped(pairs, order[..i + 1])
            == Grouped(pairs, order[..i]) + Block(order[i], ArchesOf(pairs, order[i]))
  {
    assert order[..i + 1] == order[..i] + [order[i]];
    GroupedAppend(pairs, order[..i], [order[i]]);
    assert [order[i]][1..] == [];
  }

  /** The inner loop of the regrouping: one `das.append((d, a))` per arch. */
  method AppendPairs(das: seq<DistroArch>, d: string, arches: seq<string>) returns (r: seq<DistroArch>)
    ensures r == das + Block(d, arches)
  {
    r := das;
    for j := 0 to |arches|
      invariant r == das + Block(d, arches[..j])
    {
      BlockStep(d, arches, j);
      r := r + [(d, arches[j])];
    }
    assert arches[..|arches|] == arches;
  }

  lemma {:induction false} BlockStep(d: string, arches: seq<string>, j: int)
    requires 0 <= j < |arches|
    ensures Block(d, arches[..j + 1]) == Block(d, arches[..j]) + [(d, arches[j])]
  {
    if j == 0 {
      assert arches[..1][1..] == [];
    } else {
      BlockStep(d, arches[1..], j - 1);
      assert arches[..j + 1][1..] == arches[1..][..j];
      assert arches[..j][1..] == arches[1..][..j - 1];
    }
  }

  lemma {:induction false} BlockMultiset(d: string, arches: seq<string>, a: string)
    ensures multiset(Block(d, arches + [a])) == multiset(Block(d, arches)) + multiset{(d, a)}
  {
    if |arches| == 0 {
      assert arches + [a] == [a];
      assert [a][1..] == [];
    } else {
      assert (arches + [a])[1..] == arches[1..] + [a];
      BlockMultiset(d, arches[1..], a);
    }
  }

  lemma BlockSnoc(pairs: seq<DistroArch>, x: DistroArch, d: string)
    ensures multiset(Block(d, ArchesOf(pairs + [x], d)))
            == multiset(Block(d, ArchesOf(pairs, d))) + (if x.0 == d then multiset{x} else multiset{})
  {
    assert (pairs + [x])[..|pairs + [x]| - 1] == pairs;
    assert (pairs + [x])[|pairs + [x]| - 1] == x;
    if x.0 == d {
      BlockMultiset(d, ArchesOf(pairs, d), x.1);
    } else {
      var a := ArchesOf(pairs, d);
      assert ArchesOf(pairs + [x], d) == a + [];
      assert a + [] == a;
    }
  }

  lemma {:induction false} GroupedStep(pairs: seq<DistroArch>, x: DistroArch, order: seq<string>)
    requires forall i, j | 0 <= i < j < |order| :: order[i] != order[j]
    ensures multiset(Grouped(pairs + [x], order))
            == multiset(Grouped(pairs, order)) + (if x.0 in order then multiset{x} else multiset{})
  {
    if |order| > 0 {
      var d := order[0];
      BlockSnoc(pairs, x, d);
      GroupedStep(pairs, x, order[1..]);
      var b, b' := Block(d, ArchesOf(pairs, d)), Block(d, ArchesOf(pairs + [x], d));
      var g, g' := Grouped(pairs, order[1..]), Grouped(pairs + [x], order[1..]);
      assert multiset(Grouped(pairs, order)) == multiset(b) + multiset(g);
      assert multiset(Grouped(pairs + [x], order)) == multiset(b') + multiset(g');
      if x.0 == d {
        assert d !in order[1..];
        assert multiset(g') == multiset(g);
        assert multiset(b') == multiset(b) + multiset{x};
      } else {
        assert x.0 in order <==> x.0 in order[1..];
        assert multiset(b') == multiset(b);
        if x.0 in order[1..] {
          assert multiset(g') == multiset(g) + multiset{x};
        } else {
          assert multiset(g') == multiset(g);
        }
      }
    }
  }

  /** Regrouping by distro neither loses nor duplicates a pair. */
  lemma {:induction false} GroupedIsPermutation(pairs: seq<DistroArch>, order: seq<string>)
    requires IsKeyOrder(pairs, order)
    ensures multiset(Grouped(pairs, order)) == multiset(pairs)
  {
    GroupedCovers(pairs, order);
  }

  lemma {:induction false} GroupedCovers(pairs: seq<DistroArch>, order: seq<string>)
    requires forall i, j | 0 <= i < j < |order| :: order[i] != order[j]
    requires forall k | 0 <= k < |pairs| :: pairs[k].0 in order
    ensures multiset(Grouped(pairs, order)) == multiset(pairs)
  {
    if |pairs| == 0 {
      GroupedEmpty(order);
    } else {
      var p, x := pairs[..|pairs| - 1], pairs[|pairs| - 1];
      assert pairs == p + [x];
      GroupedCovers(p, order);
      assert x.0 in order;
      GroupedStep(p, x, order);
    }
  }

  lemma {:induction false} GroupedEmpty(order: seq<string>)
    ensures Grouped([], order) == []
  {
    if |order| > 0 {
      GroupedEmpty(order[1..]);
    }
  }
}
