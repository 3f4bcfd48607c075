/** The status page's client-side filter and sort (resources/js/setup.js):
    query terms, the rows they select, the column sort and its direction,
    the header-click toggle, the rule that skips an unchanged rebuild, and
    the `q`/`s`/`r` parameters read from and written back to the address.
    The page's globals (`window.rows`, `window.queries`, `window.sort`,
    `window.reverse`, `window.previous_*`) are the fields of `Page`; the
    table body and the address bar are two more. JavaScript's loosely typed
    values are `JsVal`. */
module RowFilter {
  import opened Wrappers
  import opened Text
  import opened Sorting

  /** The table columns a row's sort texts are taken from. */
  const SortColumns: seq<nat> := [1, 2, 3, 4, 5]

  /** The number of leading columns whose header sorts the table. */
  const MetaColumns: nat := 5

  // ---------------------------------------------------------------------
  // JavaScript values

  datatype JsVal = Undefined | Str(s: string) | Num(n: int)

  /** `if (v)`. */
  predicate Truthy(v: JsVal)
  {
    match v
    case Undefined => false
    case Str(s) => |s| > 0
    case Num(n) => n != 0
  }

  predicate IsDigit(c: char)
  {
    '0' <= c <= '9'
  }

  predicate AllDigits(s: string)
  {
    forall k | 0 <= k < |s| :: IsDigit(s[k])
  }

  /** The value of a run of decimal digits. */
  function DigitsValue(s: string): nat
    requires AllDigits(s)
  {
    if |s| == 0 then 0 else DigitsValue(s[..|s| - 1]) * 10 + (s[|s| - 1] as int - '0' as int)
  }

  /** `Number(s)` for the empty string and plain decimal digits. Every
      other string is taken as `NaN`, here `None`; other numeric forms that
      `Number` accepts are not modelled. */
  function ToNumber(s: string): Option<int>
  {
    if AllDigits(s) then Some(DigitsValue(s)) else None
  }

  /** `a == b`: a string and a number compare as numbers. */
  predicate LooseEq(a: JsVal, b: JsVal)
  {
    match (a, b)
    case (Undefined, Undefined) => true
    case (Str(x), Str(y)) => x == y
    case (Num(x), Num(y)) => x == y
    case (Str(x), Num(y)) => ToNumber(x) == Some(y)
    case (Num(x), Str(y)) => ToNumber(y) == Some(x)
    case _ => false
  }

  /** The length of the leading run of digits. */
  function LeadingDigits(s: string): (r: nat)
    ensures r <= |s| && AllDigits(s[..r])
    ensures r < |s| ==> !IsDigit(s[r])
  {
    if |s| == 0 || !IsDigit(s[0]) then 0
    else
      var r := 1 + LeadingDigits(s[1..]);
      assert s[..r] == [s[0]] + s[1..][..r - 1];
      r
  }

  /** `parseInt(v)`, with `None` for `NaN`. */
  function ParseInt(v: JsVal): Option<int>
  {
    match v
    case Undefined => None
    case Num(n) => Some(n)
    case Str(s) =>
      var d := LeadingDigits(s);
      if d == 0 then None else Some(DigitsValue(s[..d]))
  }

  /** `'' + v` for the values the page writes into its address. */
  function JsString(v: JsVal): string
  {
    match v
    case Undefined => "undefined"
    case Str(s) => s
    case Num(n) => if n < 0 then "-" + NatToString(-n) else NatToString(n)
  }

  lemma {:induction false} DigitsValueOfNatToString(n: nat)
    ensures AllDigits(NatToString(n)) && DigitsValue(NatToString(n)) == n
  {
    var s := NatToString(n);
    if n >= 10 {
      DigitsValueOfNatToString(n / 10);
      assert s[..|s| - 1] == NatToString(n / 10);
    }
  }

  /** A number written out in decimal compares equal to itself. */
  lemma WrittenNumberIsLooselyEqual(n: nat)
    ensures LooseEq(Str(NatToString(n)), Num(n))
  {
    DigitsValueOfNatToString(n);
  }

  // ---------------------------------------------------------------------
  // query terms

  /** `QUERY_TRANSFORMS[q] || q`. */
  function Transform(q: string): string
  {
    if q == "blue" then "class=\"o\""
    else if q == "red" then "class=\"m\""
    else if q == "yellow" then "class=\"obs\""
    else if q == "gray" then "class=\"i\""
    else q
  }

  /** The `$.map` over the pieces: short pieces are dropped, the rest
      transformed. */
  function KeepTerms(pieces: seq<string>): seq<string>
  {
    if |pieces| == 0 then []
    else KeepTerms(pieces[..|pieces| - 1])
         + (if |pieces[|pieces| - 1]| < 3 then [] else [Transform(pieces[|pieces| - 1])])
  }

  /** The terms of a query: `queries.split("+")`, then `KeepTerms`. */
  function ProcessQuery(q: string): seq<string>
  {
    KeepTerms(Split(q, '+'))
  }

  /** A term is exactly the transform of a piece of at least three
      characters, and is itself at least three characters long. */
  lemma {:induction false} KeepTermsMembership(pieces: seq<string>, t: string)
    ensures t in KeepTerms(pieces) <==> exists p | p in pieces :: |p| >= 3 && Transform(p) == t
    ensures t in KeepTerms(pieces) ==> |t| >= 3
  {
    if |pieces| > 0 {
      var init, last := pieces[..|pieces| - 1], pieces[|pieces| - 1];
      KeepTermsMembership(init, t);
      assert pieces == init + [last];
      var tail := if |last| < 3 then [] else [Transform(last)];
      assert KeepTerms(pieces) == KeepTerms(init) + tail;
      if t in tail {
        assert last in pieces;
      }
      if exists p | p in pieces :: |p| >= 3 && Transform(p) == t {
        var p :| p in pieces && |p| >= 3 && Transform(p) == t;
        assert p in init || p == last;
      }
      TransformLength(last);
    }
  }

  /** A transformed term is at least as long as three characters when the
      piece is. */
  lemma TransformLength(q: string)
    ensures |q| >= 3 ==> |Transform(q)| >= 3
  {
  }

  /** `ProcessQuery` keeps the pieces of the query between `+` signs that
      have at least three characters, the four colour words replaced by the
      class attributes they select. */
  lemma ProcessQueryTerms(q: string, t: string)
    ensures t in ProcessQuery(q) <==> exists p | p in Split(q, '+') :: |p| >= 3 && Transform(p) == t
    ensures t in ProcessQuery(q) ==> |t| >= 3
  {
    KeepTermsMembership(Split(q, '+'), t);
  }

  // ---------------------------------------------------------------------
  // rows

  /** A scanned row: its inner HTML (`row[0]`) and the texts of the sort
      columns (`row[1]` ... `row[5]`). */
  datatype Row = Row(html: string, sortTexts: seq<string>)

  /** What `scan_rows` builds: one sort text per sort column. */
  predicate Scanned(rows: seq<Row>)
  {
    forall k | 0 <= k < |rows| :: |rows[k].sortTexts| == |SortColumns|
  }

  /** `row[idx]` as the comparator reads it; an index past the row is
      `undefined`, which compares equal to everything, as `""` does with
      itself. */
  function SortKey(idx: int): Row -> string
  {
    (r: Row) => if idx == 0 then r.html else if 1 <= idx <= |r.sortTexts| then r.sortTexts[idx - 1] else ""
  }

  /** The HTML holds every term. */
  predicate Matches(html: string, terms: seq<string>)
  {
    forall k | 0 <= k < |terms| :: Contains(html, terms[k])
  }

  /** The rows whose HTML holds every term, in order. */
  function FilterRows(rows: seq<Row>, terms: seq<string>): seq<Row>
  {
    if |rows| == 0 then []
    else FilterRows(rows[..|rows| - 1], terms)
         + (if Matches(rows[|rows| - 1].html, terms) then [rows[|rows| - 1]] else [])
  }

  /** A row is kept exactly when it is one of the rows and holds every
      term. */
  lemma {:induction false} FilterRowsMembership(rows: seq<Row>, terms: seq<string>, x: Row)
    ensures x in FilterRows(rows, terms) <==> x in rows && Matches(x.html, terms)
  {
    if |rows| > 0 {
      var init, last := rows[..|rows| - 1], rows[|rows| - 1];
      FilterRowsMembership(init, terms, x);
      assert rows == init + [last];
    }
  }

  /** Without terms every row is kept, in order. */
  lemma {:induction false} FilterRowsNoTerms(rows: seq<Row>)
    ensures FilterRows(rows, []) == rows
  {
    if |rows| > 0 {
      FilterRowsNoTerms(rows[..|rows| - 1]);
      assert rows == rows[..|rows| - 1] + [rows[|rows| - 1]];
    }
  }

  /** The inner loop of the filter: `indexOf` of each term, giving up at the
      first one missing. */
  method MatchesAll(html: string, terms: seq<string>) returns (keep: bool)
    ensures keep == Matches(html, terms)
  {
    for i := 0 to |terms|
      invariant forall k | 0 <= k < i :: Contains(html, terms[k])
    {
      if !Contains(html, terms[i]) {
        return false;
      }
    }
    return true;
  }

  /** `$.map(window.rows, ...)`: the matching rows, in order. */
  method SelectRows(rows: seq<Row>, terms: seq<string>) returns (selected: seq<Row>)
    ensures selected == FilterRows(rows, terms)
  {
    selected := [];
    for i := 0 to |rows|
      invariant selected == FilterRows(rows[..i], terms)
    {
      assert rows[..i + 1][..i] == rows[..i];
      var keep := MatchesAll(rows[i].html, terms);
      if keep {
        selected := selected + [rows[i]];
      }
    }
    assert rows[..|rows|] == rows;
  }

  /** `reverse == 1`. */
  predicate Descending(reverse: JsVal)
  {
    LooseEq(reverse, Num(1))
  }

  /** The rows after the sort: by the text of column `parseInt(sort)`,
      ascending, or descending when `reverse == 1`; unsorted when `sort` is
      unset or not a number (every comparison then returns 0). */
  function Ordered(rows: seq<Row>, sort: JsVal, reverse: JsVal): seq<Row>
  {
    if Truthy(sort) && ParseInt(sort).Some?
    then SortBy(rows, SortKey(ParseInt(sort).value), Descending(reverse))
    else rows
  }

  /** The sorted rows are the same rows, and no row is followed by one whose
      sort text goes before its own in the chosen direction. */
  lemma OrderedIsSortedPermutation(rows: seq<Row>, sort: JsVal, reverse: JsVal)
    requires Truthy(sort) && ParseInt(sort).Some?
    ensures var r := Ordered(rows, sort, reverse);
            var key := SortKey(ParseInt(sort).value);
            && multiset(r) == multiset(rows)
            && forall i, j | 0 <= i < j < |r| :: !Before(key(r[j]), key(r[i]), Descending(reverse))
  {
  }

  /** Sorting rows that came out of the same sort changes nothing. */
  lemma OrderedIdempotent(rows: seq<Row>, sort: JsVal, reverse: JsVal)
    ensures Ordered(Ordered(rows, sort, reverse), sort, reverse) == Ordered(rows, sort, reverse)
  {
    if Truthy(sort) && ParseInt(sort).Some? {
      SortByIdempotent(rows, SortKey(ParseInt(sort).value), Descending(reverse));
    }
  }

  /** Loosely equal directions are both descending or both ascending. */
  lemma LooselyEqualDirections(r1: JsVal, r2: JsVal)
    requires LooseEq(r1, r2)
    ensures Descending(r1) == Descending(r2)
  {
  }

  /** Loosely equal sort settings that are not the number 0 both sort, by
      the same column, or neither does. */
  lemma LooselyEqualColumns(s1: JsVal, s2: JsVal)
    requires LooseEq(s1, s2)
    requires s1 != Num(0) && s2 != Num(0)
    ensures (Truthy(s1) && ParseInt(s1).Some?) == (Truthy(s2) && ParseInt(s2).Some?)
    ensures Truthy(s1) && ParseInt(s1).Some? ==> ParseInt(s1) == ParseInt(s2)
  {
    match (s1, s2)
    case (Str(x), Num(y)) => DigitsParse(x);
    case (Num(y), Str(x)) => DigitsParse(x);
    case _ =>
  }

  /** A non-empty string of digits is truthy and parses to its value. */
  lemma DigitsParse(x: string)
    requires AllDigits(x)
    ensures |x| == 0 ==> DigitsValue(x) == 0
    ensures |x| > 0 ==> ParseInt(Str(x)) == Some(DigitsValue(x))
  {
    if |x| > 0 {
      var d := LeadingDigits(x);
      assert d == |x|;
      assert x[..d] == x;
    }
  }

  /** Loosely equal sort settings sort alike, as long as neither is the
      number 0 (which no header click produces). */
  lemma LooselyEqualSettingsOrderAlike(rows: seq<Row>, s1: JsVal, r1: JsVal, s2: JsVal, r2: JsVal)
    requires LooseEq(s1, s2) && LooseEq(r1, r2)
    requires s1 != Num(0) && s2 != Num(0)
    ensures Ordered(rows, s1, r1) == Ordered(rows, s2, r2)
  {
    LooselyEqualDirections(r1, r2);
    LooselyEqualColumns(s1, s2);
  }

  /** The HTML of each row, in order. */
  function Htmls(rows: seq<Row>): (r: seq<string>)
    ensures |r| == |rows| && forall k | 0 <= k < |rows| :: r[k] == rows[k].html
  {
    seq(|rows|, i requires 0 <= i < |rows| => rows[i].html)
  }

  /** `"<tr/><tr>" + plain.join("</tr><tr>") + "</tr>"`. */
  function Tbody(rows: seq<Row>): string
  {
    "<tr/><tr>" + Join(Htmls(rows), "</tr><tr>") + "</tr>"
  }

  // ---------------------------------------------------------------------
  // the address

  /** `if (window.queries)`. */
  predicate QueryGiven(queries: Option<string>)
  {
    queries.Some? && |queries.value| > 0
  }

  /** The `q=`, `s=` and `r=` items `filter_table` writes, each only when
      its value is truthy. */
  function ParamItems(queries: Option<string>, sort: JsVal, reverse: JsVal): seq<string>
  {
    Param("q", QueryGiven(queries), if queries.Some? then queries.value else "")
    + Param("s", Truthy(sort), JsString(sort))
    + Param("r", Truthy(reverse), JsString(reverse))
  }

  /** `key=value` when the value is written, nothing otherwise. */
  function Param(key: string, written: bool, value: string): seq<string>
  {
    if written then [key + "=" + value] else []
  }

  /** The search part of the address: `"?" + qs.join("&")`, or nothing. */
  function QueryString(queries: Option<string>, sort: JsVal, reverse: JsVal): string
  {
    var items := ParamItems(queries, sort, reverse);
    if |items| > 0 then "?" + Join(items, "&") else ""
  }

  // ---------------------------------------------------------------------
  // the page state

  /** The globals, the table body shown and the address shown. */
  datatype PageState = PageState(
    rows: Option<seq<Row>>, queries: Option<string>, sort: JsVal, reverse: JsVal,
    previousQueries: Option<seq<string>>, previousSort: JsVal, previousReverse: JsVal,
    tbody: string, address: string)

  /** One `key=value` item of the query string; only `q`, `s` and `r` are
      read, and an item without `=` assigns `undefined`. */
  function ApplyParam(item: string, st: PageState): PageState
  {
    var kv := Split(item, '=');
    var value := if |kv| > 1 then Str(kv[1]) else Undefined;
    if kv[0] == "q" then st.(queries := if |kv| > 1 then Some(kv[1]) else None)
    else if kv[0] == "s" then st.(sort := value)
    else if kv[0] == "r" then st.(reverse := value)
    else st
  }

  /** The items in order; a later item for the same key wins. */
  function ApplyParams(items: seq<string>, st: PageState): PageState
  {
    if |items| == 0 then st else ApplyParams(items[1..], ApplyParam(items[0], st))
  }

  /** `body_ready`: the part after the first `?`, when there is one and it is
      not empty, split on `&`. */
  function ParseLocation(href: string, st: PageState): PageState
  {
    var parts := Split(href, '?');
    if |parts| > 1 && |parts[1]| > 0 then ApplyParams(Split(parts[1], '&'), st) else st
  }

  /** The header click: the current sort column flips the direction, another
      column becomes the sort column, ascending. */
  function Click(st: PageState, column: nat): PageState
  {
    if LooseEq(st.sort, Num(column))
    then st.(reverse := if Truthy(st.reverse) then Num(0) else Num(1))
    else st.(sort := Num(column), reverse := Undefined)
  }

  /** The terms the current query selects by (none without a query). */
  function CurrentTerms(queries: Option<string>): seq<string>
  {
    if QueryGiven(queries) then ProcessQuery(queries.value) else []
  }

  /** Renders `selected`: sorts it, writes the body and the address, and,
      when `selected` is `window.rows` itself, leaves it sorted in place. */
  function Render(st: PageState, rows: seq<Row>, selected: seq<Row>, aliased: bool, path: string): PageState
  {
    var shown := Ordered(selected, st.sort, st.reverse);
    st.(rows := Some(if aliased then shown else rows),
        tbody := Tbody(shown),
        address := path + QueryString(st.queries, st.sort, st.reverse))
  }

  /** `filter_table` as written: the previous terms are compared through
      their comma-joined text, and a rendering without a query leaves them
      in place. */
  function FilterStepAsWritten(st: PageState, scanned: seq<Row>, path: string): PageState
  {
    var rows := if st.rows.Some? then st.rows.value else scanned;
    if QueryGiven(st.queries) then
      var terms := ProcessQuery(st.queries.value);
      if st.previousQueries.Some? && Join(st.previousQueries.value, ",") == Join(terms, ",")
         && LooseEq(st.previousSort, st.sort) && LooseEq(st.previousReverse, st.reverse)
      then st.(rows := Some(rows))
      else
        var st' := st.(previousQueries := Some(terms), previousSort := st.sort, previousReverse := st.reverse);
        if |terms| > 0 then Render(st', rows, FilterRows(rows, terms), false, path)
        else Render(st', rows, rows, true, path)
    else
      Render(st, rows, rows, true, path)
  }

  /** `filter_table` with the skip rule corrected: the term lists are
      compared themselves, and a rendering without a query forgets them. */
  function FilterStep(st: PageState, scanned: seq<Row>, path: string): PageState
  {
    var rows := if st.rows.Some? then st.rows.value else scanned;
    if QueryGiven(st.queries) then
      var terms := ProcessQuery(st.queries.value);
      if st.previousQueries == Some(terms)
         && LooseEq(st.previousSort, st.sort) && LooseEq(st.previousReverse, st.reverse)
      then st.(rows := Some(rows))
      else
        var st' := st.(previousQueries := Some(terms), previousSort := st.sort, previousReverse := st.reverse);
        if |terms| > 0 then Render(st', rows, FilterRows(rows, terms), false, path)
        else Render(st', rows, rows, true, path)
    else
      Render(st.(previousQueries := None), rows, rows, true, path)
  }

  /** The body shows the rows the current query selects, in the current
      order. */
  ghost predicate Shows(st: PageState)
  {
    st.rows.Some? && st.tbody == Tbody(Ordered(FilterRows(st.rows.value, CurrentTerms(st.queries)), st.sort, st.reverse))
  }

  /** The remembered terms and sort settings are the ones the body was
      rendered with, and no sort setting is the number 0. */
  ghost predicate Consistent(st: PageState)
  {
    && (st.previousQueries.Some? ==>
          st.rows.Some?
          && st.tbody == Tbody(Ordered(FilterRows(st.rows.value, st.previousQueries.value), st.previousSort, st.previousReverse)))
    && st.sort != Num(0) && st.previousSort != Num(0)
  }

  /** With the corrected rule, every `filter_table` leaves the body showing
      the current query's rows in the current order, whether it rebuilt the
      body or skipped, and keeps the page consistent. */
  lemma FilterStepShowsQuery(st: PageState, scanned: seq<Row>, path: string)
    requires Consistent(st)
    ensures Shows(FilterStep(st, scanned, path)) && Consistent(FilterStep(st, scanned, path))
  {
    var rows := if st.rows.Some? then st.rows.value else scanned;
    if QueryGiven(st.queries) {
      var terms := ProcessQuery(st.queries.value);
      if st.previousQueries == Some(terms)
         && LooseEq(st.previousSort, st.sort) && LooseEq(st.previousReverse, st.reverse) {
        LooselyEqualSettingsOrderAlike(FilterRows(rows, terms), st.previousSort, st.previousReverse, st.sort, st.reverse);
      } else if |terms| == 0 {
        var shown := Ordered(rows, st.sort, st.reverse);
        FilterRowsNoTerms(rows);
        FilterRowsNoTerms(shown);
        OrderedIdempotent(rows, st.sort, st.reverse);
      }
    } else {
      var shown := Ordered(rows, st.sort, st.reverse);
      FilterRowsNoTerms(shown);
      OrderedIdempotent(rows, st.sort, st.reverse);
    }
  }

  /** A header click keeps the page consistent, designates its column, and
      orders ascending on a new column or flips the direction on the
      current one. */
  lemma ClickOrders(st: PageState, column: nat)
    requires Consistent(st) && 1 <= column <= MetaColumns
    ensures var st' := Click(st, column);
            && Consistent(st')
            && LooseEq(st'.sort, Num(column))
            && (!LooseEq(st.sort, Num(column)) ==> !Descending(st'.reverse) && st'.reverse == Undefined)
            && (LooseEq(st.sort, Num(column)) ==> (Descending(st'.reverse) <==> !Truthy(st.reverse)))
  {
  }

  /** Reading the address only sets the query, the sort and the direction,
      and never to the number 0. */
  lemma {:induction false} ApplyParamsConsistent(items: seq<string>, st: PageState)
    requires Consistent(st)
    ensures var st' := ApplyParams(items, st);
            && Consistent(st')
            && st' == st.(queries := st'.queries, sort := st'.sort, reverse := st'.reverse)
  {
    if |items| > 0 {
      ApplyParamsConsistent(items[1..], ApplyParam(items[0], st));
    }
  }

  // ---------------------------------------------------------------------
  // the address round trip

  lemma {:induction false} ApplyParamsAppend(a: seq<string>, b: seq<string>, st: PageState)
    ensures ApplyParams(a + b, st) == ApplyParams(b, ApplyParams(a, st))
    decreases |a|
  {
    if |a| > 0 {
      assert (a + b)[0] == a[0];
      assert (a + b)[1..] == a[1..] + b;
      ApplyParamsAppend(a[1..], b, ApplyParam(a[0], st));
    } else {
      assert a + b == b;
    }
  }

  /** `key=value` splits into the key and the value. */
  lemma SplitItem(key: string, value: string)
    requires '=' !in key && '=' !in value
    ensures Split(key + "=" + value, '=') == [key, value]
  {
    SplitAfterPiece(key, value, '=');
    SplitNoSeparator(value, '=');
    assert key + "=" + value == key + ['='] + value;
  }

  /** A written `q`, `s` or `r` item sets that global to its value. */
  lemma ApplyParam1(key: string, written: bool, value: string, st: PageState)
    requires key == "q" || key == "s" || key == "r"
    requires '=' !in value
    ensures ApplyParams(Param(key, written, value), st)
            == if !written then st
               else if key == "q" then st.(queries := Some(value))
               else if key == "s" then st.(sort := Str(value))
               else st.(reverse := Str(value))
  {
    if written {
      SplitItem(key, value);
      assert [key + "=" + value][1..] == [];
    }
  }

  lemma ApplyParams3(a: seq<string>, b: seq<string>, c: seq<string>, st: PageState)
    ensures ApplyParams(a + b + c, st) == ApplyParams(c, ApplyParams(b, ApplyParams(a, st)))
  {
    ApplyParamsAppend(a + b, c, st);
    ApplyParamsAppend(a, b, st);
  }

  /** A value the address can carry unchanged. */
  predicate Plain(s: string)
  {
    '&' !in s && '=' !in s && '?' !in s
  }

  /** What reading a written value back gives. */
  predicate ReadBack(written: JsVal, read: JsVal)
  {
    if Truthy(written) then read == Str(JsString(written)) else read == Undefined
  }

  /** A value read back has the truthiness of the value written and, unless
      it is a negative number, compares equal to it. */
  lemma ReadBackAgrees(written: JsVal, read: JsVal)
    requires ReadBack(written, read)
    requires written.Num? ==> written.n >= 0
    ensures Truthy(read) == Truthy(written)
    ensures Truthy(written) ==> LooseEq(read, written)
  {
    if written.Num? && written.n != 0 {
      WrittenNumberIsLooselyEqual(written.n);
    }
  }

  lemma ItemsReadBack(queries: Option<string>, sort: JsVal, reverse: JsVal, st: PageState)
    requires queries.Some? ==> Plain(queries.value)
    requires Plain(JsString(sort)) && Plain(JsString(reverse))
    requires st.queries == None && st.sort == Undefined && st.reverse == Undefined
    ensures var st' := ApplyParams(ParamItems(queries, sort, reverse), st);
            && (if QueryGiven(queries) then st'.queries == queries else st'.queries == None)
            && ReadBack(sort, st'.sort) && ReadBack(reverse, st'.reverse)
  {
    var qv := if queries.Some? then queries.value else "";
    var q := Param("q", QueryGiven(queries), qv);
    var s := Param("s", Truthy(sort), JsString(sort));
    var r := Param("r", Truthy(reverse), JsString(reverse));
    ApplyParams3(q, s, r, st);
    ApplyParam1("q", QueryGiven(queries), qv, st);
    var st1 := ApplyParams(q, st);
    ApplyParam1("s", Truthy(sort), JsString(sort), st1);
    var st2 := ApplyParams(s, st1);
    ApplyParam1("r", Truthy(reverse), JsString(reverse), st2);
  }

  /** An address with a non-empty search part is read item by item. */
  lemma LocationItems(path: string, search: string, st: PageState)
    requires '?' !in path && '?' !in search && |search| > 0
    ensures ParseLocation(path + "?" + search, st) == ApplyParams(Split(search, '&'), st)
  {
    SplitAfterPiece(path, search, '?');
    SplitNoSeparator(search, '?');
    assert path + "?" + search == path + ['?'] + search;
  }

  /** Writing items after a plain path and reading the address back applies
      exactly those items. */
  lemma WrittenItemsRead(path: string, items: seq<string>, st: PageState)
    requires '?' !in path
    requires forall k | 0 <= k < |items| :: '&' !in items[k] && '?' !in items[k]
    requires |items| > 0 ==> |items[0]| > 0
    ensures ParseLocation(path + (if |items| > 0 then "?" + Join(items, "&") else ""), st) == ApplyParams(items, st)
  {
    if |items| > 0 {
      var search := Join(items, "&");
      SplitJoin(items, '&');
      JoinNoChar(items, "&", '?');
      JoinNonEmpty(items, "&");
      LocationItems(path, search, st);
      assert path + ("?" + search) == path + "?" + search;
    } else {
      SplitNoSeparator(path, '?');
      assert path + "" == path;
    }
  }

  /** The items carry no `&` or `?` and none is empty. */
  lemma ItemsPlain(queries: Option<string>, sort: JsVal, reverse: JsVal)
    requires queries.Some? ==> Plain(queries.value)
    requires Plain(JsString(sort)) && Plain(JsString(reverse))
    ensures var items := ParamItems(queries, sort, reverse);
            && (forall k | 0 <= k < |items| :: '&' !in items[k] && '?' !in items[k])
            && (|items| > 0 ==> |items[0]| > 0)
  {
    var qv := if queries.Some? then queries.value else "";
    var q := Param("q", QueryGiven(queries), qv);
    var s := Param("s", Truthy(sort), JsString(sort));
    var r := Param("r", Truthy(reverse), JsString(reverse));
    forall x | x in q + s + r
      ensures '&' !in x && '?' !in x
    {
      if x in q {
        assert x == "q" + "=" + qv;
      } else if x in s {
        assert x == "s" + "=" + JsString(sort);
      } else {
        assert x == "r" + "=" + JsString(reverse);
      }
    }
  }

  /** The address `filter_table` writes, read back by `body_ready` on a
      fresh page, restores the query, and restores the sort and the
      direction as strings of the same truthiness that compare equal to
      them. */
  lemma AddressRoundTrip(path: string, queries: Option<string>, sort: JsVal, reverse: JsVal, st: PageState)
    requires '?' !in path
    requires queries.Some? ==> Plain(queries.value)
    requires Plain(JsString(sort)) && Plain(JsString(reverse))
    requires sort.Num? ==> sort.n >= 0
    requires reverse.Num? ==> reverse.n >= 0
    requires st.queries == None && st.sort == Undefined && st.reverse == Undefined
    ensures var st' := ParseLocation(path + QueryString(queries, sort, reverse), st);
            && (if QueryGiven(queries) then st'.queries == queries else st'.queries == None)
            && ReadBack(sort, st'.sort) && ReadBack(reverse, st'.reverse)
            && Truthy(st'.sort) == Truthy(sort) && (Truthy(sort) ==> LooseEq(st'.sort, sort))
            && Truthy(st'.reverse) == Truthy(reverse) && (Truthy(reverse) ==> LooseEq(st'.reverse, reverse))
  {
    var items := ParamItems(queries, sort, reverse);
    ItemsPlain(queries, sort, reverse);
    WrittenItemsRead(path, items, st);
    ItemsReadBack(queries, sort, reverse, st);
    var st' := ApplyParams(items, st);
    ReadBackAgrees(sort, st'.sort);
    ReadBackAgrees(reverse, st'.reverse);
  }

  lemma {:induction false} JoinNoChar(parts: seq<string>, sep: string, c: char)
    requires c !in sep && forall k | 0 <= k < |parts| :: c !in parts[k]
    ensures c !in Join(parts, sep)
  {
    if |parts| > 1 {
      JoinNoChar(parts[1..], sep, c);
    }
  }

  lemma JoinNonEmpty(parts: seq<string>, sep: string)
    requires |parts| > 0 && |parts[0]| > 0
    ensures |Join(parts, sep)| > 0
  {
  }

  // ---------------------------------------------------------------------
  // the skip rule as written

  /** As written, a rendering without a query keeps the remembered terms
      and settings of an earlier filtered rendering. */
  lemma AsWrittenKeepsTermsWithoutQuery(st: PageState, scanned: seq<Row>, path: string)
    requires !QueryGiven(st.queries) && st.rows.Some?
    ensures var st' := FilterStepAsWritten(st, scanned, path);
            var shown := Ordered(st.rows.value, st.sort, st.reverse);
            && st'.previousQueries == st.previousQueries
            && st'.previousSort == st.previousSort && st'.previousReverse == st.previousReverse
            && st'.sort == st.sort && st'.reverse == st.reverse
            && st'.rows == Some(shown) && st'.tbody == Tbody(shown)
  {
  }

  /** As written, a query with terms whose comma-joined text and settings
      match the remembered ones leaves the body as it is. */
  lemma AsWrittenSkips(st: PageState, scanned: seq<Row>, path: string)
    requires QueryGiven(st.queries) && st.previousQueries.Some? && st.rows.Some?
    requires Join(st.previousQueries.value, ",") == Join(ProcessQuery(st.queries.value), ",")
    requires LooseEq(st.previousSort, st.sort) && LooseEq(st.previousReverse, st.reverse)
    ensures FilterStepAsWritten(st, scanned, path) == st
  {
  }

  /** As written, a first query with terms shows the matching rows and
      remembers the terms. */
  lemma AsWrittenFilters(st: PageState, scanned: seq<Row>, path: string)
    requires QueryGiven(st.queries) && st.previousQueries.None? && st.rows.Some?
    requires |ProcessQuery(st.queries.value)| > 0
    ensures var terms := ProcessQuery(st.queries.value);
            var st' := FilterStepAsWritten(st, scanned, path);
            && st'.rows == st.rows && st'.sort == st.sort && st'.reverse == st.reverse
            && st'.previousQueries == Some(terms)
            && st'.previousSort == st.sort && st'.previousReverse == st.reverse
            && st'.tbody == Tbody(Ordered(FilterRows(st.rows.value, terms), st.sort, st.reverse))
  {
  }

  lemma FilterOne(r: Row, terms: seq<string>)
    ensures FilterRows([r], terms) == if Matches(r.html, terms) then [r] else []
  {
    assert [r][..0] == [];
  }

  lemma TbodyOne(r: Row)
    ensures Tbody([r]) == "<tr/><tr>" + r.html + "</tr>"
  {
    assert Htmls([r]) == [r.html];
  }

  lemma TbodyTwo(a: Row, b: Row)
    ensures |Tbody([a, b])| == 9 + |a.html| + 9 + |b.html| + 5
  {
    var htmls := Htmls([a, b]);
    assert htmls == [a.html, b.html];
    assert htmls[1..] == [b.html];
    assert Join(htmls, "</tr><tr>") == a.html + "</tr><tr>" + b.html;
  }

  lemma TbodyEmpty()
    ensures Tbody([]) == "<tr/><tr></tr>"
  {
    assert Htmls([]) == [];
  }

  /** Two rows for the first counterexample. */
  function AbcXyz(): seq<Row>
  {
    [Row("abc", []), Row("xyz", [])]
  }

  lemma AbcTerms()
    ensures ProcessQuery("abc") == ["abc"]
  {
    SplitNoSeparator("abc", '+');
    assert KeepTerms(["abc"]) == KeepTerms([]) + ["abc"];
  }

  lemma AbcMatches()
    ensures Matches("abc", ["abc"])
    ensures !Matches("xyz", ["abc"])
  {
    assert OccursAt("abc", "abc", 0);
    assert "xyz"[0..3][0] != "abc"[0];
    assert !Contains("xyz", ["abc"][0]);
  }

  lemma AbcFilter()
    ensures FilterRows(AbcXyz(), ["abc"]) == [Row("abc", [])]
  {
    AbcMatches();
    FilterOne(Row("abc", []), ["abc"]);
    assert AbcXyz()[..1] == [Row("abc", [])];
  }

  lemma AbcXyzBodies()
    ensures Tbody(AbcXyz()) != Tbody([Row("abc", [])])
  {
    TbodyOne(Row("abc", []));
    TbodyTwo(Row("abc", []), Row("xyz", []));
  }

  lemma AbcXyzFacts()
    ensures ProcessQuery("abc") == ["abc"]
    ensures FilterRows(AbcXyz(), ["abc"]) == [Row("abc", [])]
    ensures Tbody(AbcXyz()) != Tbody([Row("abc", [])])
  {
    AbcTerms();
    AbcFilter();
    AbcXyzBodies();
  }

  /** A page freshly opened on `rows` with query `q` and no sort. */
  function Opened(rows: seq<Row>, q: string): (st: PageState)
    ensures st.rows == Some(rows) && st.queries == Some(q) && st.previousQueries.None?
  {
    PageState(Some(rows), Some(q), Undefined, Undefined, None, Undefined, Undefined, "", "")
  }

  /** As written, filtering for `q`, clearing the query and asking for `q`
      again skips the third rebuild: the body is left showing every row,
      and it shows what the query selects only when that is every row. */
  lemma ClearingLeavesTermsStale(rows: seq<Row>, q: string)
    requires |q| > 0 && |ProcessQuery(q)| > 0
    ensures var st1 := FilterStepAsWritten(Opened(rows, q), [], "");
            var st2 := FilterStepAsWritten(st1.(queries := Some("")), [], "");
            var st3 := FilterStepAsWritten(st2.(queries := Some(q)), [], "");
            && st3.rows == Some(rows) && st3.queries == Some(q) && st3.tbody == Tbody(rows)
            && (Shows(st3) <==> Tbody(rows) == Tbody(FilterRows(rows, ProcessQuery(q))))
  {
    var st0 := Opened(rows, q);
    AsWrittenFilters(st0, [], "");
    var st1 := FilterStepAsWritten(st0, [], "");
    AsWrittenKeepsTermsWithoutQuery(st1.(queries := Some("")), [], "");
    var st2 := FilterStepAsWritten(st1.(queries := Some("")), [], "");
    AsWrittenSkips(st2.(queries := Some(q)), [], "");
  }

  /** Filter for `abc`, clear the query, then ask for `abc` again: the code
      as written keeps showing both rows where only `abc` matches. */
  lemma StaleSkipAfterClearing()
    ensures var st1 := FilterStepAsWritten(Opened(AbcXyz(), "abc"), [], "");
            var st2 := FilterStepAsWritten(st1.(queries := Some("")), [], "");
            var st3 := FilterStepAsWritten(st2.(queries := Some("abc")), [], "");
            st3.tbody == Tbody(AbcXyz()) && !Shows(st3)
  {
    AbcXyzFacts();
    ClearingLeavesTermsStale(AbcXyz(), "abc");
  }

  lemma CollidingMatches()
    ensures Matches("defabc", ["abc", "def"])
    ensures !Matches("defabc", ["abc,def"])
  {
    assert OccursAt("defabc", "abc", 3);
    assert OccursAt("defabc", "def", 0);
    assert !Contains("defabc", ["abc,def"][0]);
  }

  lemma CollidingJoins()
    ensures Join(["abc", "def"], ",") == Join(["abc,def"], ",")
  {
    assert ["abc", "def"][1..] == ["def"];
  }

  lemma CollidingFacts()
    ensures ProcessQuery("abc+def") == ["abc", "def"]
    ensures ProcessQuery("abc,def") == ["abc,def"]
    ensures Join(ProcessQuery("abc+def"), ",") == Join(ProcessQuery("abc,def"), ",")
    ensures FilterRows([Row("defabc", [])], ["abc", "def"]) == [Row("defabc", [])]
    ensures FilterRows([Row("defabc", [])], ["abc,def"]) == []
    ensures Tbody([Row("defabc", [])]) != Tbody([])
  {
    SplitsOfCollidingQueries();
    TermsOfCollidingQueries();
    CollidingJoins();
    CollidingMatches();
    FilterOne(Row("defabc", []), ["abc", "def"]);
    FilterOne(Row("defabc", []), ["abc,def"]);
    TbodyOne(Row("defabc", []));
    TbodyEmpty();
  }

  /** As written, after filtering for `q1`, a query `q2` whose terms join
      with commas to the same text skips the rebuild: the body keeps the rows
      `q1` selected, and it shows what `q2` selects only when both select the
      same body. */
  lemma JoinedTermsCollide(rows: seq<Row>, q1: string, q2: string)
    requires |q1| > 0 && |q2| > 0 && |ProcessQuery(q1)| > 0
    requires Join(ProcessQuery(q1), ",") == Join(ProcessQuery(q2), ",")
    ensures var st1 := FilterStepAsWritten(Opened(rows, q1), [], "");
            var st2 := FilterStepAsWritten(st1.(queries := Some(q2)), [], "");
            && st2.rows == Some(rows) && st2.queries == Some(q2)
            && st2.tbody == Tbody(FilterRows(rows, ProcessQuery(q1)))
            && (Shows(st2) <==> Tbody(FilterRows(rows, ProcessQuery(q1))) == Tbody(FilterRows(rows, ProcessQuery(q2))))
  {
    var st0 := Opened(rows, q1);
    AsWrittenFilters(st0, [], "");
    var st1 := FilterStepAsWritten(st0, [], "");
    AsWrittenSkips(st1.(queries := Some(q2)), [], "");
  }

  /** Filter for `abc+def`, then for `abc,def`: both term lists join to
      `abc,def`, so the code as written keeps showing a row that does not
      hold `abc,def`. */
  lemma CommaJoinedTermsCollide()
    ensures var rows := [Row("defabc", [])];
            var st1 := FilterStepAsWritten(Opened(rows, "abc+def"), [], "");
            var st2 := FilterStepAsWritten(st1.(queries := Some("abc,def")), [], "");
            st2.tbody == Tbody(rows) && !Shows(st2)
  {
    CollidingFacts();
    JoinedTermsCollide([Row("defabc", [])], "abc+def", "abc,def");
  }

  lemma SplitsOfCollidingQueries()
    ensures Split("abc+def", '+') == ["abc", "def"]
    ensures Split("abc,def", '+') == ["abc,def"]
  {
    SplitAfterPiece("abc", "def", '+');
    SplitNoSeparator("def", '+');
    assert "abc+def" == "abc" + ['+'] + "def";
    SplitNoSeparator("abc,def", '+');
  }

  lemma TermsOfCollidingQueries()
    ensures KeepTerms(["abc", "def"]) == ["abc", "def"]
    ensures KeepTerms(["abc,def"]) == ["abc,def"]
  {
    assert ["abc", "def"][..1] == ["abc"];
    assert Transform("def") == "def";
    assert Transform("abc") == "abc";
    assert Transform("abc,def") == "abc,def";
  }

  // ---------------------------------------------------------------------
  // the page

  /** The page's globals, its table body and its address bar. */
  class Page {
    var rows: Option<seq<Row>>
    var queries: Option<string>
    var sort: JsVal
    var reverse: JsVal
    var previousQueries: Option<seq<string>>
    var previousSort: JsVal
    var previousReverse: JsVal
    var tbody: string
    var address: string

    function State(): PageState
      reads this
    {
      PageState(rows, queries, sort, reverse, previousQueries, previousSort, previousReverse, tbody, address)
    }

    /** A freshly loaded page: no global is set yet. */
    constructor (tbody: string, address: string)
      ensures State() == PageState(None, None, Undefined, Undefined, None, Undefined, Undefined, tbody, address)
      ensures Consistent(State())
    {
      rows := None;
      queries := None;
      sort := Undefined;
      reverse := Undefined;
      previousQueries := None;
      previousSort := Undefined;
      previousReverse := Undefined;
      this.tbody := tbody;
      this.address := address;
    }

    /** `body_ready`: reads `q`, `s` and `r` from the address. */
    method BodyReady(href: string)
      modifies this
      ensures State() == ParseLocation(href, old(State()))
    {
      var urlParts := Split(href, '?');
      if |urlParts| > 1 && |urlParts[1]| > 0 {
        var queryParts := Split(urlParts[1], '&');
        for i := 0 to |queryParts|
          invariant ApplyParams(queryParts[i..], State()) == ApplyParams(queryParts, old(State()))
        {
          assert queryParts[i..][1..] == queryParts[i + 1..];
          var keyVal := Split(queryParts[i], '=');
          if keyVal[0] == "q" {
            queries := if |keyVal| > 1 then Some(keyVal[1]) else None;
          } else if keyVal[0] == "s" {
            sort := if |keyVal| > 1 then Str(keyVal[1]) else Undefined;
          } else if keyVal[0] == "r" {
            reverse := if |keyVal| > 1 then Str(keyVal[1]) else Undefined;
          }
        }
      }
    }

    /** The end of `filter_table`: sorts `selected`, writes the body and
        the address, and stores the sorted rows back when `selected` is
        `window.rows` itself. */
    method Show(all: seq<Row>, selected: seq<Row>, aliased: bool, path: string)
      modifies this
      ensures State() == Render(old(State()), all, selected, aliased, path)
    {
      var shown := Ordered(selected, sort, reverse);
      rows := Some(if aliased then shown else all);
      tbody := Tbody(shown);
      address := path + QueryString(queries, sort, reverse);
    }

    /** `filter_table`, with the corrected skip rule; `scanned` is what
        `scan_rows` reads from the table on the first call. */
    method FilterTable(scanned: seq<Row>, path: string)
      modifies this
      ensures State() == FilterStep(old(State()), scanned, path)
    {
      ghost var st := State();
      var all := if rows.Some? then rows.value else scanned;
      if queries.Some? && |queries.value| > 0 {
        var terms := ProcessQuery(queries.value);
        if previousQueries == Some(terms) && LooseEq(previousSort, sort) && LooseEq(previousReverse, reverse) {
          rows := Some(all);
          return;
        }
        previousQueries := Some(terms);
        previousSort := sort;
        previousReverse := reverse;
        ghost var st' := st.(previousQueries := Some(terms), previousSort := st.sort, previousReverse := st.reverse);
        assert State() == st';
        if |terms| > 0 {
          var selected := SelectRows(all, terms);
          Show(all, selected, false, path);
          assert State() == Render(st', all, FilterRows(all, terms), false, path);
        } else {
          Show(all, all, true, path);
          assert State() == Render(st', all, all, true, path);
        }
      } else {
        previousQueries := None;
        assert State() == st.(previousQueries := None);
        Show(all, all, true, path);
      }
    }

    /** A click on sort header `column` (1-based), then `filter_table`. */
    method HeaderClick(column: nat, scanned: seq<Row>, path: string)
      requires 1 <= column <= MetaColumns
      modifies this
      ensures State() == FilterStep(Click(old(State()), column), scanned, path)
    {
      if LooseEq(sort, Num(column)) {
        reverse := if Truthy(reverse) then Num(0) else Num(1);
      } else {
        sort := Num(column);
        reverse := Undefined;
      }
      FilterTable(scanned, path);
    }

    /** A new query from the search box or a keyword link, then
        `filter_table`. */
    method Search(text: string, scanned: seq<Row>, path: string)
      modifies this
      ensures State() == FilterStep(old(State()).(queries := Some(text)), scanned, path)
    {
      queries := Some(text);
      FilterTable(scanned, path);
    }

    /** `body_done`: filters once when the address asked for a query or a
        sort. */
    method BodyDone(scanned: seq<Row>, path: string)
      modifies this
      ensures State() == if QueryGiven(old(queries)) || Truthy(old(sort))
                         then FilterStep(old(State()), scanned, path) else old(State())
    {
      if (queries.Some? && |queries.value| > 0) || Truthy(sort) {
        FilterTable(scanned, path);
      }
    }
  }
}
