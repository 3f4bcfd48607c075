/** Sorting by a string key, as Python's `sorted(xs, key=...)` and
    JavaScript's `Array.prototype.sort` with a `<`/`>` comparator use it. */
module Sorting {
  import opened Text

  /** Key `x` goes strictly before key `y` in the requested direction. */
  predicate Before(x: string, y: string, descending: bool)
  {
    if descending then Less(y, x) else Less(x, y)
  }

  lemma BeforeTransitive(x: string, y: string, z: string, descending: bool)
    requires Before(x, y, descending) && Before(y, z, descending)
    ensures Before(x, z, descending)
  {
    if descending { LessTransitive(z, y, x); } else { LessTransitive(x, y, z); }
  }

  /** No element is followed by one whose key goes strictly before its own. */
  ghost predicate SortedBy<T>(s: seq<T>, key: T -> string, descending: bool)
  {
    forall i, j | 0 <= i < j < |s| :: !Before(key(s[j]), key(s[i]), descending)
  }

  /** Places `x` after every element whose key does not go after its own, so
      that elements with equal keys keep their arrival order. */
  function Insert<T(==)>(x: T, s: seq<T>, key: T -> string, descending: bool): (r: seq<T>)
    ensures multiset(r) == multiset(s) + multiset{x}
  {
    if |s| == 0 then [x]
    else if Before(key(x), key(s[0]), descending) then [x] + s
    else
      assert s == [s[0]] + s[1..];
      [s[0]] + Insert(x, s[1..], key, descending)
  }

  /** Inserting into a sorted sequence keeps it sorted. */
  lemma {:induction false} InsertSorted<T>(x: T, s: seq<T>, key: T -> string, descending: bool)
    requires SortedBy(s, key, descending)
    ensures SortedBy(Insert(x, s, key, descending), key, descending)
  {
    if |s| == 0 {
    } else if Before(key(x), key(s[0]), descending) {
      InsertInFront(x, s, key, descending);
    } else {
      assert SortedBy(s[1..], key, descending);
      InsertSorted(x, s[1..], key, descending);
      InsertBehind(x, s, key, descending);
    }
  }

  lemma InsertInFront<T>(x: T, s: seq<T>, key: T -> string, descending: bool)
    requires |s| > 0 && Before(key(x), key(s[0]), descending)
    requires SortedBy(s, key, descending)
    ensures SortedBy([x] + s, key, descending)
  {
    var r := [x] + s;
    forall i, j | 0 <= i < j < |r| ensures !Before(key(r[j]), key(r[i]), descending) {
      if i == 0 {
        assert r[j] == s[j - 1];
        if Before(key(r[j]), key(x), descending) {
          BeforeTransitive(key(r[j]), key(x), key(s[0]), descending);
          LessIrreflexive(key(s[0]));
        }
      } else {
        assert r[i] == s[i - 1] && r[j] == s[j - 1];
      }
    }
  }

  lemma InsertBehind<T>(x: T, s: seq<T>, key: T -> string, descending: bool)
    requires |s| > 0 && !Before(key(x), key(s[0]), descending)
    requires SortedBy(s, key, descending)
    requires SortedBy(Insert(x, s[1..], key, descending), key, descending)
    ensures SortedBy([s[0]] + Insert(x, s[1..], key, descending), key, descending)
  {
    var rest := Insert(x, s[1..], key, descending);
    var r := [s[0]] + rest;
    forall i, j | 0 <= i < j < |r| ensures !Before(key(r[j]), key(r[i]), descending) {
      if i == 0 {
        assert r[j] in multiset(rest);
        assert r[j] == x || r[j] in multiset(s[1..]);
        if r[j] != x {
          var m :| 0 <= m < |s[1..]| && s[1..][m] == r[j];
          assert s[m + 1] == r[j];
        }
      } else {
        assert r[i] == rest[i - 1] && r[j] == rest[j - 1];
      }
    }
  }

  /** `sorted(s, key=key, reverse=descending)`: a stable sort. */
  function SortBy<T(==)>(s: seq<T>, key: T -> string, descending: bool): (r: seq<T>)
    ensures multiset(r) == multiset(s)
    ensures SortedBy(r, key, descending)
  {
    if |s| == 0 then []
    else
      assert s == s[..|s| - 1] + [s[|s| - 1]];
      var rest := SortBy(s[..|s| - 1], key, descending);
      InsertSorted(s[|s| - 1], rest, key, descending);
      Insert(s[|s| - 1], rest, key, descending)
  }

  /** An element whose key goes before none of the others lands last. */
  lemma {:induction false} InsertAfterAll<T>(x: T, s: seq<T>, key: T -> string, descending: bool)
    requires forall k | 0 <= k < |s| :: !Before(key(x), key(s[k]), descending)
    ensures Insert(x, s, key, descending) == s + [x]
  {
    if |s| > 0 {
      assert !Before(key(x), key(s[0]), descending);
      InsertAfterAll(x, s[1..], key, descending);
      assert s == [s[0]] + s[1..];
    }
  }

  /** Sorting what is already sorted changes nothing: the sort is stable. */
  lemma {:induction false} SortBySorted<T>(s: seq<T>, key: T -> string, descending: bool)
    requires SortedBy(s, key, descending)
    ensures SortBy(s, key, descending) == s
  {
    if |s| > 0 {
      var init, last := s[..|s| - 1], s[|s| - 1];
      SortedPrefix(s, key, descending);
      SortBySorted(init, key, descending);
      InsertAfterAll(last, init, key, descending);
      SortBySnoc(s, key, descending);
      Snoc(s);
    }
  }

  lemma Snoc<T>(s: seq<T>)
    requires |s| > 0
    ensures s[..|s| - 1] + [s[|s| - 1]] == s
  {
  }

  lemma SortBySnoc<T>(s: seq<T>, key: T -> string, descending: bool)
    requires |s| > 0
    ensures SortBy(s, key, descending) == Insert(s[|s| - 1], SortBy(s[..|s| - 1], key, descending), key, descending)
  {
  }

  lemma SortedPrefix<T>(s: seq<T>, key: T -> string, descending: bool)
    requires |s| > 0 && SortedBy(s, key, descending)
    ensures SortedBy(s[..|s| - 1], key, descending)
    ensures var init := s[..|s| - 1];
            forall k | 0 <= k < |init| :: !Before(key(s[|s| - 1]), key(init[k]), descending)
  {
    var init := s[..|s| - 1];
    forall k | 0 <= k < |init| ensures !Before(key(s[|s| - 1]), key(init[k]), descending) {
      assert init[k] == s[k];
    }
  }

  /** Sorting twice by the same key is sorting once. */
  lemma SortByIdempotent<T>(s: seq<T>, key: T -> string, descending: bool)
    ensures SortBy(SortBy(s, key, descending), key, descending) == SortBy(s, key, descending)
  {
    SortBySorted(SortBy(s, key, descending), key, descending);
  }

  // ---------------------------------------------------------------------
  // sorting distinct strings

  /** A string is its own sort key. */
  function Identity(x: string): string
  {
    x
  }

  predicate Distinct<T(==)>(s: seq<T>)
  {
    forall i, j | 0 <= i < j < |s| :: s[i] != s[j]
  }

  /** Strictly ascending in code-point order. */
  predicate Increasing(s: seq<string>)
  {
    forall i, j | 0 <= i < j < |s| :: Less(s[i], s[j])
  }

  lemma {:induction false} DistinctOnce<T>(s: seq<T>, x: T)
    requires Distinct(s)
    ensures multiset(s)[x] <= 1
  {
    if |s| > 0 {
      var init := s[..|s| - 1];
      assert s == init + [s[|s| - 1]];
      DistinctOnce(init, x);
      if s[|s| - 1] == x {
        assert x !in init;
      }
    }
  }

  /** A permutation of a sequence without repeats has none either. */
  lemma PermutationDistinct<T>(a: seq<T>, b: seq<T>)
    requires Distinct(a) && multiset(a) == multiset(b)
    ensures Distinct(b)
  {
    forall i, j | 0 <= i < j < |b| ensures b[i] != b[j] {
      if b[i] == b[j] {
        assert b == b[..i] + [b[i]] + b[i + 1..j] + [b[j]] + b[j + 1..];
        DistinctOnce(a, b[i]);
        assert false;
      }
    }
  }

  /** `sorted(xs)` of strings without repeats is strictly ascending and holds
      the same strings. */
  lemma SortDistinct(s: seq<string>)
    requires Distinct(s)
    ensures var r := SortBy(s, Identity, false);
            Increasing(r) && |r| == |s| && (forall x :: x in r <==> x in s)
  {
    var r := SortBy(s, Identity, false);
    PermutationDistinct(s, r);
    assert |r| == |multiset(r)| == |s|;
    forall x ensures x in r <==> x in s {
      assert x in r <==> x in multiset(r);
      assert x in s <==> x in multiset(s);
    }
    forall i, j | 0 <= i < j < |r| ensures Less(r[i], r[j]) {
      assert !Before(Identity(r[j]), Identity(r[i]), false);
      LessTotal(r[i], r[j]);
    }
  }

  /** Two strictly ascending sequences of the same strings are equal: the
      order in which a collection was visited before sorting does not show. */
  lemma {:induction false} IncreasingUnique(a: seq<string>, b: seq<string>)
    requires Increasing(a) && Increasing(b)
    requires forall x :: x in a <==> x in b
    ensures a == b
  {
    assert |a| > 0 ==> a[0] in b;
    assert |b| > 0 ==> b[0] in a;
    if |a| > 0 && |b| > 0 {
      assert a[0] in b && b[0] in a;
      if a[0] != b[0] {
        var i :| 0 <= i < |b| && b[i] == a[0];
        var j :| 0 <= j < |a| && a[j] == b[0];
        LessAsymmetric(a[0], a[j]);
        assert false;
      }
      forall x ensures x in a[1..] <==> x in b[1..] {
        if x in a[1..] {
          var i :| 1 <= i < |a| && a[i] == x;
          assert x != b[0] by { LessIrreflexive(a[0]); }
          assert x in a && x in b;
          var k :| 0 <= k < |b| && b[k] == x;
          assert b[1..][k - 1] == x;
        }
        if x in b[1..] {
          var i :| 1 <= i < |b| && b[i] == x;
          assert x != a[0] by { LessIrreflexive(b[0]); }
          assert x in b && x in a;
          var k :| 0 <= k < |a| && a[k] == x;
          assert a[1..][k - 1] == x;
        }
      }
      IncreasingUnique(a[1..], b[1..]);
      assert a == [a[0]] + a[1..] && b == [b[0]] + b[1..];
    }
  }
}
