/**
  `fetchDataForYear` and `fetchLastYearData`: read one year page into its
  total, range and contributions (a flat list or a year -> month -> day
  object), pick the most recent year link, and in the flat shape sort the
  contributions in place, newest day first. The network requests are
  parameters: `overview` gives the year anchors of a user's contribution tab
  and `pages` the year page found at a link.
 */
module FetchLastYear {
  import opened Wrappers
  import opened JsText
  import opened JsNumber
  import opened Calendar
  import opened YearLinks

  /** The `format` argument: "nested" or "flat". */
  datatype Format = Nested | Flat

  /** A year page as the scraper selects it: the day cells of the grid, in
      document order, and the text of the yearly heading. */
  datatype YearPage = YearPage(cells: seq<Cell>, heading: string)

  /** `contributions`: the flat array, shared by reference, or the nested object. */
  datatype Contributions = FlatList(days: array<Contribution>) | NestedTree(tree: Tree)

  /** `YearData`. */
  datatype YearData = YearData(year: string, total: ParsedInt, range: Range, contributions: Contributions)

  /** What `fetchLastYearData` resolves to. */
  datatype LastYear = LastYear(years: seq<YearData>, total: ParsedInt, contributions: Contributions)

  const NoDataMessage: string := "No contribution data found for the user."

  // ---- reading one year page ----

  /** `fetchDataForYear(url, year, format)`. */
  method FetchDataForYear(url: string, year: string, format: Format, pages: string -> YearPage)
    returns (data: YearData)
    ensures data.year == year
    ensures data.total == TotalOf(pages(url).heading)
    ensures data.range == RangeOf(pages(url).cells)
    ensures format == Flat ==>
              && data.contributions.FlatList?
              && fresh(data.contributions.days)
              && data.contributions.days[..] == FlatDays(pages(url).cells, data.total)
    ensures format == Nested ==>
              && data.contributions.NestedTree?
              && HoldsLast(data.contributions.tree, Entries(ParsedDays(pages(url).cells, data.total)))
              && NoEmptyObjects(data.contributions.tree)
  {
    var page := pages(url);
    var contribCount := ReadTotal(page.heading);
    var contributions;
    if format != Nested {
      var a := NewArray(FlatDays(page.cells, contribCount));
      contributions := FlatList(a);
    } else {
      var tree := BuildNested(ParsedDays(page.cells, contribCount));
      contributions := NestedTree(tree);
    }
    data := YearData(year, contribCount, RangeOf(page.cells), contributions);
  }

  /** The array `.map` builds: a new array holding `days` in order. */
  method NewArray(days: seq<Contribution>) returns (a: array<Contribution>)
    ensures fresh(a) && a[..] == days
  {
    a := new Contribution[|days|](i requires 0 <= i < |days| => days[i]);
  }

  /** `contribCount`: 0 unless the trimmed heading matches `/^([0-9,]+)\s/`
      with a non-empty group, which is then read without its commas. */
  method ReadTotal(heading: string) returns (contribCount: ParsedInt)
    ensures contribCount == TotalOf(heading)
  {
    var contribText := MatchCount(Trim(heading));
    contribCount := Int(0);
    if contribText.Some? && contribText.value != [] {
      contribCount := ParseInt(RemoveCommas(contribText.value), Decimal);
    }
  }

  // ---- sorting by date ----

  /** `parseInt` reading of a date's three parts with a month 1 to 12, a day
      1 to 31 and a year 0 to 9999: what `new Date(date)` accepts from a
      calendar cell. */
  predicate IsCalendarDate(p: seq<ParsedInt>) {
    && |p| == 3 && p[0].Int? && p[1].Int? && p[2].Int?
    && 0 <= p[0].value <= 9999 && 1 <= p[1].value <= 12 && 1 <= p[2].value <= 31
  }

  /** The position of a date in time: larger is later; 0 for a date `Date`
      cannot read. */
  function PartsRank(p: seq<ParsedInt>): (rank: nat)
    ensures rank > 0 <==> IsCalendarDate(p)
  {
    if IsCalendarDate(p) then 1 + (p[0].value * 12 + p[1].value - 1) * 31 + p[2].value - 1 else 0
  }

  /** (year, month, day) comes strictly later than (year', month', day'). */
  predicate LaterParts(p: seq<ParsedInt>, q: seq<ParsedInt>)
    requires IsCalendarDate(p) && IsCalendarDate(q)
  {
    || p[0].value > q[0].value
    || (p[0].value == q[0].value && p[1].value > q[1].value)
    || (p[0].value == q[0].value && p[1].value == q[1].value && p[2].value > q[2].value)
  }

  /** Ranks order readable dates as their (year, month, day) triples do, and
      dates that cannot be read come after every readable one. */
  lemma {:induction false} RankOrder(p: seq<ParsedInt>, q: seq<ParsedInt>)
    ensures IsCalendarDate(p) && IsCalendarDate(q) ==> (PartsRank(p) > PartsRank(q) <==> LaterParts(p, q))
    ensures IsCalendarDate(p) && IsCalendarDate(q) ==>
              (PartsRank(p) == PartsRank(q) <==> p[0] == q[0] && p[1] == q[1] && p[2] == q[2])
    ensures IsCalendarDate(p) && !IsCalendarDate(q) ==> PartsRank(p) > PartsRank(q)
  {
    if IsCalendarDate(p) && IsCalendarDate(q) {
      var dp := (p[1].value - 1) * 31 + p[2].value - 1;
      var dq := (q[1].value - 1) * 31 + q[2].value - 1;
      assert 0 <= dp < 372 && 0 <= dq < 372;
      assert PartsRank(p) == 1 + p[0].value * 372 + dp;
      assert PartsRank(q) == 1 + q[0].value * 372 + dq;
      if p[0].value > q[0].value {
        assert p[0].value * 372 >= q[0].value * 372 + 372;
      } else if p[0].value < q[0].value {
        assert q[0].value * 372 >= p[0].value * 372 + 372;
      }
    }
  }

  /** The sort key of a contribution: the rank of its date. */
  function DateRank(c: Contribution): nat
  {
    PartsRank(DateParts(c.date))
  }

  /** Newest first: no record comes before a later-dated one. */
  ghost predicate NewestFirst(s: seq<Contribution>, rank: Contribution -> int) {
    forall i, j :: 0 <= i < j < |s| ==> rank(s[i]) >= rank(s[j])
  }

  /** `contributions.sort((a, b) => time(b) - time(a))`: sorts the array in
      place so that later dates come first, moving each record left past the
      earlier-dated ones before it. */
  method SortNewestFirst(a: array<Contribution>, rank: Contribution -> int)
    modifies a
    ensures NewestFirst(a[..], rank)
    ensures multiset(a[..]) == multiset(old(a[..]))
  {
    var i := 0;
    while i < a.Length
      invariant 0 <= i <= a.Length
      invariant NewestFirst(a[..i], rank)
      invariant multiset(a[..]) == multiset(old(a[..]))
    {
      InsertLeft(a, i, rank);
      i := i + 1;
    }
    assert a[..a.Length] == a[..];
  }

  /** Moves `a[i]` left past the earlier-dated records before it, so that
      `a[..i + 1]` is newest first when `a[..i]` was. */
  method InsertLeft(a: array<Contribution>, i: nat, rank: Contribution -> int)
    requires i < a.Length
    requires NewestFirst(a[..i], rank)
    modifies a
    ensures NewestFirst(a[..i + 1], rank)
    ensures multiset(a[..]) == multiset(old(a[..]))
    ensures multiset(a[..i + 1]) == multiset(old(a[..i + 1]))
    ensures a[i + 1..] == old(a[i + 1..])
  {
    var j: nat := i;
    InsertingStart(a[..], i, rank);
    while j > 0 && rank(a[j - 1]) < rank(a[j])
      invariant Inserting(a[..], j, i, rank)
      invariant multiset(a[..i + 1]) == multiset(old(a[..i + 1]))
      invariant a[i + 1..] == old(a[i + 1..])
    {
      ghost var s := a[..];
      SwapLeft(s, j, i, rank);
      SwapFrame(s, j, i);
      a[j - 1], a[j] := a[j], a[j - 1];
      assert a[..] == s[j - 1 := s[j]][j := s[j - 1]];
      j := j - 1;
    }
    InsertingDone(a[..], j, i, rank);
    assert a[..] == a[..i + 1] + a[i + 1..];
    assert old(a[..]) == old(a[..i + 1]) + old(a[i + 1..]);
  }

  /** Halfway through moving `s[j]` left: apart from `s[j]` the prefix up to
      `i` is newest first, and `s[j]` is later than everything after it. */
  ghost predicate Inserting(s: seq<Contribution>, j: nat, i: nat, rank: Contribution -> int) {
    && j <= i < |s|
    && (forall x, y :: 0 <= x < y <= i && x != j && y != j ==> rank(s[x]) >= rank(s[y]))
    && (forall y :: j < y <= i ==> rank(s[j]) > rank(s[y]))
  }

  lemma {:induction false} InsertingStart(s: seq<Contribution>, i: nat, rank: Contribution -> int)
    requires i < |s| && NewestFirst(s[..i], rank)
    ensures Inserting(s, i, i, rank)
  {
    forall x, y | 0 <= x < y <= i && x != i && y != i
      ensures rank(s[x]) >= rank(s[y])
    {
      assert s[x] == s[..i][x] && s[y] == s[..i][y];
    }
  }

  /** One swap of `s[j]` with the earlier-dated record before it. */
  lemma {:induction false} SwapLeft(s: seq<Contribution>, j: nat, i: nat, rank: Contribution -> int)
    requires Inserting(s, j, i, rank) && 0 < j && rank(s[j - 1]) < rank(s[j])
    ensures Inserting(s[j - 1 := s[j]][j := s[j - 1]], j - 1, i, rank)
    ensures multiset(s[j - 1 := s[j]][j := s[j - 1]]) == multiset(s)
  {
  }

  /** A swap inside `s[..i + 1]` keeps the records of that prefix and
      leaves everything after it alone. */
  lemma SwapFrame(s: seq<Contribution>, j: nat, i: nat)
    requires 0 < j <= i < |s|
    ensures var t := s[j - 1 := s[j]][j := s[j - 1]];
      && t[i + 1..] == s[i + 1..]
      && multiset(t[..i + 1]) == multiset(s[..i + 1])
  {
    var t := s[j - 1 := s[j]][j := s[j - 1]];
    assert t[..i + 1] == s[..i + 1][j - 1 := s[j]][j := s[j - 1]];
  }

  lemma {:induction false} InsertingDone(s: seq<Contribution>, j: nat, i: nat, rank: Contribution -> int)
    requires Inserting(s, j, i, rank)
    requires j == 0 || rank(s[j - 1]) >= rank(s[j])
    ensures NewestFirst(s[..i + 1], rank)
  {
  }

  /** Two newest-first orderings of the same records are the same sequence
      when no two records share a rank: the order the sort leaves is the only
      one its contract allows. */
  lemma {:induction false} NewestFirstUnique(s: seq<Contribution>, t: seq<Contribution>, rank: Contribution -> int)
    requires NewestFirst(s, rank) && NewestFirst(t, rank)
    requires multiset(s) == multiset(t)
    requires DistinctRanks(s, rank)
    ensures s == t
    decreases |s|
  {
    if s != [] {
      assert |t| == |s| by { assert |multiset(s)| == |multiset(t)|; }
      SameFirst(s, t, rank);
      DropFirst(s, rank);
      DropFirst(t, rank);
      NewestFirstUnique(s[1..], t[1..], rank);
      SameHeadAndTail(s, t);
    }
  }

  /** No two records share a rank. */
  ghost predicate DistinctRanks(s: seq<Contribution>, rank: Contribution -> int) {
    forall i, j :: 0 <= i < j < |s| ==> rank(s[i]) != rank(s[j])
  }

  lemma {:induction false} SameHeadAndTail(s: seq<Contribution>, t: seq<Contribution>)
    requires s != [] && t != [] && s[0] == t[0] && s[1..] == t[1..]
    ensures s == t
  {
    assert s == [s[0]] + s[1..] && t == [t[0]] + t[1..];
  }

  /** Dropping the first record keeps the order newest first and takes one
      copy of that record out of the multiset. */
  lemma {:induction false} DropFirst(s: seq<Contribution>, rank: Contribution -> int)
    requires s != [] && NewestFirst(s, rank)
    ensures NewestFirst(s[1..], rank)
    ensures multiset(s[1..]) == multiset(s) - multiset{s[0]}
    ensures DistinctRanks(s, rank) ==> DistinctRanks(s[1..], rank)
  {
    assert s == [s[0]] + s[1..];
  }

  /** The first record of a newest-first ordering is the latest one, so two
      such orderings of the same records with distinct ranks start alike. */
  lemma {:induction false} SameFirst(s: seq<Contribution>, t: seq<Contribution>, rank: Contribution -> int)
    requires s != [] && |t| == |s|
    requires NewestFirst(s, rank) && NewestFirst(t, rank)
    requires multiset(s) == multiset(t)
    requires DistinctRanks(s, rank)
    ensures s[0] == t[0]
  {
    assert t[0] in multiset(s);
    var k :| 0 <= k < |s| && s[k] == t[0];
    assert s[0] in multiset(t);
    var l :| 0 <= l < |t| && t[l] == s[0];
    assert rank(s[0]) >= rank(s[k]);
    assert rank(t[0]) >= rank(t[l]);
  }

  // ---- the last year ----

  /** `fetchYears(username)` over the anchors the contribution tab shows. */
  function FetchYears(username: string, overview: string -> seq<Anchor>): (links: seq<YearRef>)
    ensures |links| == |overview(username)|
    ensures forall i :: 0 <= i < |links| ==> links[i] == FormatYearLink(overview(username)[i])
  {
    FormatYearLinks(overview(username))
  }

  /** `fetchLastYearData(username, format)`: no year link is an error;
      otherwise the first link's year is read, and in the flat shape its
      contributions are sorted newest first in place, so the returned list and
      `years[0].contributions` are one and the same array. */
  method FetchLastYearData(username: string, format: Format,
                           overview: string -> seq<Anchor>, pages: string -> YearPage)
    returns (r: Result<LastYear, string>)
    ensures r.Failure? <==> overview(username) == []
    ensures r.Failure? ==> r.error == NoDataMessage
    ensures r.Success? ==>
              var link := FormatYearLink(overview(username)[0]);
              var page := pages(link.href);
              var total := TotalOf(page.heading);
              && |r.value.years| == 1
              && r.value.years[0].year == link.text
              && r.value.years[0].total == total
              && r.value.years[0].range == RangeOf(page.cells)
              && r.value.total == total
              && r.value.contributions == r.value.years[0].contributions
              && (format == Flat ==>
                    && r.value.contributions.FlatList?
                    && fresh(r.value.contributions.days)
                    && NewestFirst(r.value.contributions.days[..], DateRank)
                    && multiset(r.value.contributions.days[..]) == multiset(FlatDays(page.cells, total)))
              && (format == Nested ==>
                    && r.value.contributions.NestedTree?
                    && HoldsLast(r.value.contributions.tree, Entries(ParsedDays(page.cells, total)))
                    && NoEmptyObjects(r.value.contributions.tree))
  {
    var years := FetchYears(username, overview);
    if years == [] {
      return Failure(NoDataMessage);
    }
    var lastYear := years[0];
    var yearData := FetchDataForYear(lastYear.href, lastYear.text, format, pages);
    if format == Nested {
      r := Success(LastYear([yearData], yearData.total, yearData.contributions));
    } else {
      SortNewestFirst(yearData.contributions.days, DateRank);
      r := Success(LastYear([yearData], yearData.total, yearData.contributions));
    }
  }
}
