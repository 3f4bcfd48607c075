/** `strip_version_suffix` (buildfarm/status_page.py): the version normaliser.
    It reports the match of the regular expression `[0-9.-]+[0-9]` that
    Python's `re.search` finds, or the input unchanged when there is none. */
module VersionStrip {
  import opened Wrappers

  /** A character of the class `[0-9.-]`. */
  predicate InClass(c: char)
  {
    '0' <= c <= '9' || c == '.' || c == '-'
  }

  predicate IsDigit(c: char)
  {
    '0' <= c <= '9'
  }

  /** `s[i..j]` matches `[0-9.-]+[0-9]`: at least two class characters, the last a digit. */
  ghost predicate MatchAt(s: string, i: int, j: int)
  {
    0 <= i && i + 2 <= j <= |s|
    && (forall k | i <= k < j :: InClass(s[k]))
    && IsDigit(s[j - 1])
  }

  ghost predicate HasMatch(s: string)
  {
    exists i, j :: MatchAt(s, i, j)
  }

  /** The match `re.search` reports: the leftmost start, and for that start the
      longest end (the greedy `+` backtracks only as far as the last digit). */
  ghost predicate SearchResult(s: string, i: int, j: int)
  {
    MatchAt(s, i, j)
    && (forall i', j' | i' < i :: !MatchAt(s, i', j'))
    && (forall j' | j < j' :: !MatchAt(s, i, j'))
  }

  /** End of the run of class characters that starts at i (greedy `[0-9.-]+`). */
  function RunEnd(s: string, i: nat): (e: nat)
    requires i <= |s|
    ensures i <= e <= |s|
    ensures forall k | i <= k < e :: InClass(s[k])
    ensures e == |s| || !InClass(s[e])
    decreases |s| - i
  {
    if i < |s| && InClass(s[i]) then RunEnd(s, i + 1) else i
  }

  /** Backtracking from end j towards i + 2 until the character before the end is a digit. */
  function Backtrack(s: string, i: nat, j: nat): (r: Option<nat>)
    requires j <= |s|
    ensures r.Some? ==> i + 2 <= r.value <= j && IsDigit(s[r.value - 1])
                        && forall k | r.value <= k < j :: !IsDigit(s[k])
    ensures r.None? ==> forall k | i + 1 <= k < j :: !IsDigit(s[k])
  {
    if j < i + 2 then None
    else if IsDigit(s[j - 1]) then Some(j)
    else Backtrack(s, i, j - 1)
  }

  /** The ends a match starting at i can have all lie within the run that starts at i. */
  lemma MatchWithinRun(s: string, i: nat, j: int)
    requires i <= |s| && MatchAt(s, i, j)
    ensures j <= RunEnd(s, i)
  {
  }

  /** Trying each start position from the left, as `re.search` does. */
  function Search(s: string, start: nat): (r: Option<(nat, nat)>)
    requires start <= |s|
    ensures r.Some? ==> start <= r.value.0 && MatchAt(s, r.value.0, r.value.1)
                        && (forall i', j' | start <= i' < r.value.0 :: !MatchAt(s, i', j'))
                        && (forall j' | r.value.1 < j' :: !MatchAt(s, r.value.0, j'))
    ensures r.None? ==> forall i', j' | start <= i' :: !MatchAt(s, i', j')
    decreases |s| - start
  {
    if start == |s| then None
    else
      var e := RunEnd(s, start);
      match Backtrack(s, start, e)
      case Some(j) =>
        assert forall j' | j < j' :: !MatchAt(s, start, j') by {
          forall j' | j < j' && MatchAt(s, start, j') ensures false {
            MatchWithinRun(s, start, j');
          }
        }
        Some((start, j))
      case None =>
        assert forall j' :: !MatchAt(s, start, j') by {
          forall j' | MatchAt(s, start, j') ensures false {
            MatchWithinRun(s, start, j');
          }
        }
        Search(s, start + 1)
  }

  /** `strip_version_suffix(version)`: `match.group(0) if match else version`. */
  function StripVersionSuffix(version: string): string
  {
    match Search(version, 0)
    case Some((i, j)) => version[i..j]
    case None => version
  }

  /** The normaliser returns the match `re.search` reports, or the input
      unchanged when the pattern does not occur. */
  lemma StripIsSearch(version: string)
    ensures !HasMatch(version) ==> StripVersionSuffix(version) == version
    ensures HasMatch(version) ==> exists i, j :: SearchResult(version, i, j) && StripVersionSuffix(version) == version[i..j]
  {
    match Search(version, 0)
    case Some((i, j)) =>
      assert SearchResult(version, i, j);
    case None =>
  }

  /** The result of a successful match consists of class characters only, ends
      in a digit, and is at least two characters long; otherwise nothing changes. */
  lemma StrippedShape(version: string)
    ensures var r := StripVersionSuffix(version);
            (HasMatch(version) ==> MatchAt(r, 0, |r|))
            && (!HasMatch(version) ==> r == version)
  {
    var r := StripVersionSuffix(version);
    StripIsSearch(version);
    if HasMatch(version) {
      var i, j :| SearchResult(version, i, j) && r == version[i..j];
      assert forall k | 0 <= k < |r| :: r[k] == version[i + k];
    }
  }

  /** A string that matches the pattern as a whole is its own normal form. */
  lemma WholeMatchIsKept(s: string)
    requires MatchAt(s, 0, |s|)
    ensures StripVersionSuffix(s) == s
  {
    assert HasMatch(s);
    StripIsSearch(s);
    var r := StripVersionSuffix(s);
    var i, j :| SearchResult(s, i, j) && r == s[i..j];
    assert i == 0;
    assert j == |s|;
  }

  /** Normalising twice is normalising once. */
  lemma {:induction false} StripIdempotent(version: string)
    ensures StripVersionSuffix(StripVersionSuffix(version)) == StripVersionSuffix(version)
  {
    StrippedShape(version);
    if HasMatch(version) {
      WholeMatchIsKept(StripVersionSuffix(version));
    }
  }

  /** The normaliser only ever keeps characters of its input. */
  lemma StripKeepsCharacters(version: string, c: char)
    requires c in StripVersionSuffix(version)
    ensures c in version
  {
    var r := StripVersionSuffix(version);
    StripIsSearch(version);
    if HasMatch(version) {
      var i, j :| SearchResult(version, i, j) && r == version[i..j];
      var k :| 0 <= k < |r| && r[k] == c;
      assert version[i + k] == c;
    }
  }

  lemma MatchEndsWithDigitPair(s: string, i: int, j: int)
    requires MatchAt(s, i, j)
    ensures 0 < j - 1 < |s| && InClass(s[j - 2]) && IsDigit(s[j - 1])
  {
  }

  /** A string without two consecutive class characters ending in a digit, such
      as the absence sentinel `None` or a lone digit, is returned unchanged. */
  lemma NoDigitPairUnchanged(version: string)
    requires forall k | 0 < k < |version| :: !(InClass(version[k - 1]) && IsDigit(version[k]))
    ensures StripVersionSuffix(version) == version
  {
    StripIsSearch(version);
    if HasMatch(version) {
      var i, j :| MatchAt(version, i, j);
      MatchEndsWithDigitPair(version, i, j);
      assert false;
    }
  }

  lemma AbsenceSentinelUnchanged()
    ensures StripVersionSuffix("None") == "None"
  {
    NoDigitPairUnchanged("None");
  }

  lemma EmptyUnchanged()
    ensures StripVersionSuffix("") == ""
  {
    NoDigitPairUnchanged("");
  }

  lemma LoneDigitUnchanged()
    ensures StripVersionSuffix("5") == "5"
  {
    NoDigitPairUnchanged("5");
  }

  /** Every character of `t` is in the class `[0-9.-]`. */
  predicate AllInClass(t: string)
  {
    |t| == 0 || (InClass(t[0]) && AllInClass(t[1..]))
  }

  lemma {:induction false} AllInClassAt(t: string, k: nat)
    requires AllInClass(t) && k < |t|
    ensures InClass(t[k])
  {
    if k > 0 { AllInClassAt(t[1..], k - 1); }
  }

  lemma RunEndIs(s: string, i: nat, e: nat)
    requires i <= e <= |s|
    requires forall k | i <= k < e :: InClass(s[k])
    requires e == |s| || !InClass(s[e])
    ensures RunEnd(s, i) == e
    decreases e - i
  {
    if i < e { RunEndIs(s, i + 1, e); }
  }

  /** When the string opens with a run of class characters ending at e, the
      match is that run cut back to its last digit. */
  lemma StripFromStart(s: string, j: nat, e: nat)
    requires 2 <= j <= e <= |s|
    requires AllInClass(s[..e])
    requires e == |s| || !InClass(s[e])
    requires IsDigit(s[j - 1])
    requires forall k | j <= k < e :: !IsDigit(s[k])
    ensures StripVersionSuffix(s) == s[..j]
  {
    forall k | 0 <= k < e ensures InClass(s[k]) {
      AllInClassAt(s[..e], k);
    }
    RunEndIs(s, 0, e);
    var b := Backtrack(s, 0, e);
    assert b.Some?;
    assert b.value == j;
  }

  /** The leftmost run wins even when a later run is longer. */
  lemma DebianSuffixStripped()
    ensures StripVersionSuffix("1.9.9-0quantal-20121115-0529-+0000") == "1.9.9-0"
  {
    var s := "1.9.9-0quantal-20121115-0529-+0000";
    assert s[..7] == "1.9.9-0";
    assert AllInClass("1.9.9-0");
    assert s[6] == '0' && s[7] == 'q';
    StripFromStart(s, 7, 7);
  }

  /** Backtracking drops trailing class characters that are not digits. */
  lemma TrailingHyphenDropped()
    ensures StripVersionSuffix("1.9.9-foo") == "1.9.9"
  {
    var s := "1.9.9-foo";
    assert s[..6] == "1.9.9-";
    assert AllInClass("1.9.9-");
    StripFromStart(s, 5, 6);
  }
}
