/** The string operations of Python 2 and JavaScript that the build farm's
    scripts rely on: join, split, prefix and substring tests, padding,
    decimal formatting and the code-point order used by `sorted` and `<`. */
module Text {

  /** `sep.join(parts)`. */
  function Join(parts: seq<string>, sep: string): string
  {
    if |parts| == 0 then ""
    else if |parts| == 1 then parts[0]
    else parts[0] + sep + Join(parts[1..], sep)
  }

  /** `''.join(parts)`. */
  function Concat(parts: seq<string>): string
  {
    if |parts| == 0 then "" else parts[0] + Concat(parts[1..])
  }

  /** `s.split(c)` for a one-character separator: there is always at least one
      piece, empty pieces are kept, and no piece holds the separator. */
  function Split(s: string, c: char): (r: seq<string>)
    ensures |r| >= 1
    ensures forall k | 0 <= k < |r| :: c !in r[k]
  {
    if |s| == 0 then [""]
    else
      var rest := Split(s[1..], c);
      if s[0] == c then [""] + rest else [[s[0]] + rest[0]] + rest[1..]
  }

  /** `s.startswith(p)`. */
  predicate StartsWith(s: string, p: string)
  {
    |p| <= |s| && s[..|p|] == p
  }

  lemma StartsWithConcat(p: string, q: string)
    ensures StartsWith(p + q, p)
  {
    assert (p + q)[..|p|] == p;
  }

  lemma SliceOfPrefix<T>(s: seq<T>, t: seq<T>, lo: nat, hi: nat)
    requires lo <= hi <= |s|
    ensures (s + t)[lo..hi] == s[lo..hi]
  {
  }

  lemma StartsWithExtend(s: string, p: string, q: string)
    requires StartsWith(s, p)
    ensures StartsWith(s + q, p)
  {
    assert (s + q)[..|p|] == s[..|p|];
  }

  /** `sub` occurs in `s` starting at index i. */
  predicate OccursAt(s: string, sub: string, i: int)
  {
    0 <= i <= |s| - |sub| && s[i..i + |sub|] == sub
  }

  /** `sub in s` on strings, and `s.indexOf(sub) != -1` in JavaScript. */
  predicate Contains(s: string, sub: string)
  {
    exists i | 0 <= i <= |s| - |sub| :: OccursAt(s, sub, i)
  }

  /** `s.replace(a, b)` for single characters. */
  function ReplaceChar(s: string, a: char, b: char): (r: string)
    ensures |r| == |s|
    ensures forall k | 0 <= k < |s| :: r[k] == if s[k] == a then b else s[k]
  {
    if |s| == 0 then "" else [if s[0] == a then b else s[0]] + ReplaceChar(s[1..], a, b)
  }

  /** Every occurrence of `pat` in `s`, scanned from the left, replaced by `rep`. */
  function ReplaceAll(s: string, pat: string, rep: string): string
    requires |pat| > 0
  {
    if |s| == 0 then ""
    else if StartsWith(s, pat) then rep + ReplaceAll(s[|pat|..], pat, rep)
    else [s[0]] + ReplaceAll(s[1..], pat, rep)
  }

  /** `' ' * n`: empty for n <= 0. */
  function Spaces(n: int): (r: string)
    ensures |r| == if n > 0 then n else 0
    ensures forall k | 0 <= k < |r| :: r[k] == ' '
  {
    if n <= 0 then "" else " " + Spaces(n - 1)
  }

  /** `c.upper()` restricted to ASCII letters. */
  function Upper(c: char): char
  {
    if 'a' <= c <= 'z' then (c as int - 32) as char else c
  }

  function DigitChar(d: nat): char
    requires d < 10
  {
    (48 + d) as char
  }

  /** `'%d' % n` for a natural number. */
  function NatToString(n: nat): (r: string)
    ensures |r| >= 1
    ensures forall k | 0 <= k < |r| :: '0' <= r[k] <= '9'
  {
    if n < 10 then [DigitChar(n)] else NatToString(n / 10) + [DigitChar(n % 10)]
  }

  /** Number of occurrences of `x` in `xs`. */
  function Count<T(==)>(xs: seq<T>, x: T): nat
  {
    if |xs| == 0 then 0 else (if xs[0] == x then 1 else 0) + Count(xs[1..], x)
  }

  lemma {:induction false} CountAppend<T>(a: seq<T>, b: seq<T>, x: T)
    ensures Count(a + b, x) == Count(a, x) + Count(b, x)
  {
    if |a| > 0 {
      assert (a + b)[1..] == a[1..] + b;
      CountAppend(a[1..], b, x);
    } else {
      assert a + b == b;
    }
  }

  // ---------------------------------------------------------------------
  // split / join round trips (the '|'-joined version cells depend on them)

  lemma {:induction false} SplitNoSeparator(s: string, c: char)
    requires c !in s
    ensures Split(s, c) == [s]
  {
    if |s| > 0 {
      SplitNoSeparator(s[1..], c);
      assert [s[0]] + s[1..] == s;
    }
  }

  lemma {:induction false} SplitAfterPiece(a: string, b: string, c: char)
    requires c !in a
    ensures Split(a + [c] + b, c) == [a] + Split(b, c)
  {
    if |a| == 0 {
      assert a + [c] + b == [c] + b;
      assert ([c] + b)[1..] == b;
    } else {
      assert (a + [c] + b)[1..] == a[1..] + [c] + b;
      SplitAfterPiece(a[1..], b, c);
      assert [a[0]] + a[1..] == a;
    }
  }

  /** Splitting a join gives the pieces back, when no piece holds the separator. */
  lemma {:induction false} SplitJoin(parts: seq<string>, c: char)
    requires |parts| >= 1
    requires forall k | 0 <= k < |parts| :: c !in parts[k]
    ensures Split(Join(parts, [c]), c) == parts
  {
    if |parts| == 1 {
      SplitNoSeparator(parts[0], c);
    } else {
      SplitJoin(parts[1..], c);
      SplitAfterPiece(parts[0], Join(parts[1..], [c]), c);
      assert [parts[0]] + parts[1..] == parts;
    }
  }

  lemma JoinCons(a: string, rest: seq<string>, sep: string)
    ensures Join([a] + rest, sep) == if |rest| == 0 then a else a + sep + Join(rest, sep)
  {
    assert ([a] + rest)[1..] == rest;
  }

  /** Joining a split gives the string back. */
  lemma {:induction false} JoinSplit(s: string, c: char)
    ensures Join(Split(s, c), [c]) == s
  {
    if |s| > 0 {
      var rest := Split(s[1..], c);
      JoinSplit(s[1..], c);
      if s[0] == c {
        JoinCons("", rest, [c]);
        assert s == [c] + s[1..];
      } else {
        JoinCons([s[0]] + rest[0], rest[1..], [c]);
        JoinCons(rest[0], rest[1..], [c]);
        assert [rest[0]] + rest[1..] == rest;
        assert s == [s[0]] + s[1..];
      }
    }
  }

  // ---------------------------------------------------------------------
  // code-point order of strings

  /** `a < b` on Python 2 byte strings and JavaScript strings. */
  predicate Less(a: string, b: string)
  {
    if |a| == 0 then |b| > 0
    else |b| > 0 && (a[0] < b[0] || (a[0] == b[0] && Less(a[1..], b[1..])))
  }

  lemma {:induction false} LessIrreflexive(a: string)
    ensures !Less(a, a)
  {
    if |a| > 0 { LessIrreflexive(a[1..]); }
  }

  lemma {:induction false} LessTransitive(a: string, b: string, c: string)
    requires Less(a, b) && Less(b, c)
    ensures Less(a, c)
  {
    if |a| > 0 && a[0] == b[0] && b[0] == c[0] {
      LessTransitive(a[1..], b[1..], c[1..]);
    }
  }

  lemma {:induction false} LessTotal(a: string, b: string)
    ensures a == b || Less(a, b) || Less(b, a)
  {
    if |a| > 0 && |b| > 0 && a[0] == b[0] {
      LessTotal(a[1..], b[1..]);
      if a[1..] == b[1..] {
        assert a == [a[0]] + a[1..] && b == [b[0]] + b[1..];
      }
    }
  }

  lemma {:induction false} LessAsymmetric(a: string, b: string)
    requires Less(a, b)
    ensures !Less(b, a)
  {
    if |a| > 0 && |b| > 0 && a[0] == b[0] {
      LessAsymmetric(a[1..], b[1..]);
    }
  }

  // ---------------------------------------------------------------------
  // positions of the pieces inside generated markup

  /** A slice of the middle part of a concatenation. */
  lemma SliceInMiddle<T>(a: seq<T>, b: seq<T>, c: seq<T>, lo: nat, hi: nat)
    requires lo <= hi <= |b|
    ensures |a| + hi <= |a + b + c|
    ensures (a + b + c)[|a| + lo..|a| + hi] == b[lo..hi]
  {
    assert forall k | |a| + lo <= k < |a| + hi :: (a + b + c)[k] == b[k - |a|];
  }

  /** `''.join(open + x + close for x in xs)`, as in `'<td>%s</td>' % c`. */
  function WrapEach(open: string, xs: seq<string>, close: string): string
  {
    if |xs| == 0 then "" else open + xs[0] + close + WrapEach(open, xs[1..], close)
  }

  /** Where the k-th wrapped piece starts inside `WrapEach(open, xs, close)`. */
  function WrapOffset(open: string, xs: seq<string>, close: string, k: nat): nat
    requires k <= |xs|
  {
    if k == 0 then 0 else |open| + |xs[0]| + |close| + WrapOffset(open, xs[1..], close, k - 1)
  }

  /** The wrapped pieces follow one another: piece k sits, verbatim and
      wrapped, at its offset, and nothing else is emitted. */
  lemma {:induction false} WrapEachAt(open: string, xs: seq<string>, close: string, k: nat)
    requires k < |xs|
    ensures |WrapEach(open, xs, close)| == WrapOffset(open, xs, close, |xs|)
    ensures WrapOffset(open, xs, close, k + 1) == WrapOffset(open, xs, close, k) + |open| + |xs[k]| + |close|
    ensures WrapOffset(open, xs, close, k + 1) <= |WrapEach(open, xs, close)|
    ensures WrapEach(open, xs, close)[WrapOffset(open, xs, close, k)..WrapOffset(open, xs, close, k + 1)]
            == open + xs[k] + close
  {
    var head := open + xs[0] + close;
    var tail := WrapEach(open, xs[1..], close);
    assert WrapEach(open, xs, close) == head + tail + [];
    if k == 0 {
      if |xs| > 1 { WrapEachAt(open, xs[1..], close, 0); } else { assert tail == ""; }
      SliceInMiddle([], head, tail, 0, |head|);
      assert [] + head + tail == head + tail + [];
    } else {
      WrapEachAt(open, xs[1..], close, k - 1);
      var lo := WrapOffset(open, xs[1..], close, k - 1);
      var hi := WrapOffset(open, xs[1..], close, k);
      SliceInMiddle(head, tail, [], lo, hi);
    }
  }

  /** Where the k-th piece starts inside `Join(xs, sep)`. */
  function JoinOffset(xs: seq<string>, sep: string, k: nat): nat
    requires k < |xs|
  {
    if k == 0 then 0 else |xs[0]| + |sep| + JoinOffset(xs[1..], sep, k - 1)
  }

  lemma JoinUnfold(xs: seq<string>, sep: string)
    requires |xs| >= 2
    ensures Join(xs, sep) == xs[0] + sep + Join(xs[1..], sep)
  {
  }

  /** Piece k of a join sits verbatim at its offset, preceded by the separator
      when it is not the first piece. */
  lemma {:induction false} JoinAt(xs: seq<string>, sep: string, k: nat)
    requires k < |xs|
    ensures JoinOffset(xs, sep, k) + |xs[k]| <= |Join(xs, sep)|
    ensures Join(xs, sep)[JoinOffset(xs, sep, k)..JoinOffset(xs, sep, k) + |xs[k]|] == xs[k]
    ensures k > 0 ==> JoinOffset(xs, sep, k) >= |sep|
                      && Join(xs, sep)[JoinOffset(xs, sep, k) - |sep|..JoinOffset(xs, sep, k)] == sep
    decreases k, 1
  {
    if |xs| == 1 {
      assert Join(xs, sep) == xs[0];
    } else {
      JoinUnfold(xs, sep);
      var tail := Join(xs[1..], sep);
      if k == 0 {
        SliceInMiddle([], xs[0], sep + tail, 0, |xs[0]|);
        assert [] + xs[0] + (sep + tail) == xs[0] + sep + tail;
      } else {
        JoinAtTail(xs, sep, k);
      }
    }
  }

  lemma {:induction false} JoinAtTail(xs: seq<string>, sep: string, k: nat)
    requires 0 < k < |xs|
    ensures JoinOffset(xs, sep, k) + |xs[k]| <= |Join(xs, sep)|
    ensures Join(xs, sep)[JoinOffset(xs, sep, k)..JoinOffset(xs, sep, k) + |xs[k]|] == xs[k]
    ensures JoinOffset(xs, sep, k) >= |sep|
            && Join(xs, sep)[JoinOffset(xs, sep, k) - |sep|..JoinOffset(xs, sep, k)] == sep
    decreases k, 0
  {
    JoinUnfold(xs, sep);
    var head := xs[0] + sep;
    var tail := Join(xs[1..], sep);
    var whole := Join(xs, sep);
    assert whole == head + tail + [];
    JoinAt(xs[1..], sep, k - 1);
    var lo := JoinOffset(xs[1..], sep, k - 1);
    assert JoinOffset(xs, sep, k) == |head| + lo;
    assert xs[1..][k - 1] == xs[k];
    SliceInMiddle(head, tail, [], lo, lo + |xs[k]|);
    if k > 1 {
      SliceInMiddle(head, tail, [], lo - |sep|, lo);
    } else {
      SliceInMiddle(xs[0], sep, tail, 0, |sep|);
    }
  }
}
