/**
  The contribution-calendar transform of `fetchDataForYear`: the yearly total
  read from the heading, one record per day cell (`parseDay`), the flat list
  (`.map`) and the year -> month -> day object (`.reduce`), and the range.
  A page arrives here as plain values: the day cells with their `data-date`
  and `data-level` attributes, and the text of the heading.
 */
module Calendar {
  import opened Wrappers
  import opened JsText
  import opened JsNumber

  /** COLOR_MAP: the heatmap colour of each level. */
  const ColorMap: map<int, string> :=
    map[0 := "#ebedf0", 1 := "#9be9a8", 2 := "#40c463", 3 := "#30a14e", 4 := "#216e39"]

  /** A day cell of the grid: its `data-date` and its `data-level` (None when the attribute is absent). */
  datatype Cell = Cell(date: string, level: Option<string>)

  /** The record built for a day. `color` is None where the source reads
      `undefined` out of COLOR_MAP; `count` is a Number and may be NaN. */
  datatype Contribution = Contribution(date: string, count: ParsedInt, color: Option<string>, intensity: int)

  /** `parseDay`'s result: the date split into numbers, and the record. */
  datatype ParsedDay = ParsedDay(date: seq<ParsedInt>, value: Contribution)

  /** `parseInt(data-level)` without a radix. An absent attribute is read as
      the string "undefined", which gives NaN (see UndefinedLevel). */
  function LevelOf(cell: Cell): ParsedInt
  {
    match cell.level
    case None => NaN
    case Some(s) => ParseInt(s, Unspecified)
  }

  /** `parseInt(undefined)` reads the string "undefined": NaN. */
  lemma {:induction false} UndefinedLevel()
    ensures ParseInt("undefined", Unspecified) == NaN
  {
    var s := "undefined";
    assert forall i :: 0 <= i < |s| ==> !IsDigit(s[i], 10);
  }

  /** `COLOR_MAP[level]`: defined exactly for the levels 0 to 4. */
  function ColorOf(level: ParsedInt): (color: Option<string>)
    ensures color.Some? <==> level.Int? && 0 <= level.value <= 4
  {
    if level.Int? && level.value in ColorMap then Some(ColorMap[level.value]) else None
  }

  /** `level || 0`: NaN (and zero) give 0, any other number is kept. */
  function IntensityOf(level: ParsedInt): int
  {
    if level.NaN? || level.value == 0 then 0 else level.value
  }

  /** `data-date.split("-").map(d => parseInt(d, 10))`: each piece between
      dashes read in base 10. */
  function DateParts(date: string): (parts: seq<ParsedInt>)
    ensures |parts| == |Split(date, '-')|
    ensures forall k :: 0 <= k < |parts| ==> parts[k] == ParseInt(Split(date, '-')[k], Decimal)
    decreases |date|
  {
    if '-' in date then
      var i := IndexOf(date, '-');
      [ParseInt(date[..i], Decimal)] + DateParts(date[i + 1..])
    else [ParseInt(date, Decimal)]
  }

  /** A `data-date` made of three runs of digits reads as their three values:
      leading zeros are dropped, so "2024-01-05" gives 2024, 1 and 5. */
  lemma {:induction false} DatePartsOfTriple(y: string, m: string, d: string)
    requires y != [] && m != [] && d != []
    requires AllDigits(y, 10) && AllDigits(m, 10) && AllDigits(d, 10)
    ensures DateParts(y + "-" + m + "-" + d) ==
              [Int(DigitsValue(y, 10)), Int(DigitsValue(m, 10)), Int(DigitsValue(d, 10))]
  {
    NoDashInDigits(y);
    NoDashInDigits(m);
    NoDashInDigits(d);
    assert y + "-" + m + "-" + d == y + "-" + (m + "-" + d);
    DatePartsStep(y, m + "-" + d);
    DatePartsStep(m, d);
    ParseDigits(y);
    ParseDigits(m);
    ParseDigits(d);
  }

  lemma {:induction false} NoDashInDigits(s: string)
    requires AllDigits(s, 10)
    ensures '-' !in s && DateParts(s) == [ParseInt(s, Decimal)]
  {
  }

  /** Reading a date splits it at its first dash. */
  lemma {:induction false} DatePartsStep(head: string, tail: string)
    requires '-' !in head
    ensures DateParts(head + "-" + tail) == [ParseInt(head, Decimal)] + DateParts(tail)
  {
    var date := head + "-" + tail;
    IndexOfAfter(head, '-', tail);
    assert date[..|head|] == head;
    assert date[|head| + 1..] == tail;
  }

  /** The day key of such a date: the year, month and day as numbers. */
  lemma {:induction false} DayKeyOfTriple(y: string, m: string, d: string)
    requires y != [] && m != [] && d != []
    requires AllDigits(y, 10) && AllDigits(m, 10) && AllDigits(d, 10)
    ensures DayKeyOf(DateParts(y + "-" + m + "-" + d)) ==
              DayKey(IntKey(DigitsValue(y, 10)), IntKey(DigitsValue(m, 10)), IntKey(DigitsValue(d, 10)))
  {
    DatePartsOfTriple(y, m, d);
  }

  /** The date GitHub writes for 5 January 2024 is keyed 2024, 1, 5. */
  lemma {:induction false} DayKeyExample()
    ensures DayKeyOf(DateParts("2024-01-05")) == DayKey(IntKey(2024), IntKey(1), IntKey(5))
  {
    DigitsOfDateExample();
    assert "2024-01-05" == "2024" + "-" + "01" + "-" + "05";
    DayKeyOfTriple("2024", "01", "05");
  }

  lemma {:induction false} DigitsOfDateExample()
    ensures AllDigits("2024", 10) && DigitsValue("2024", 10) == 2024
    ensures AllDigits("01", 10) && DigitsValue("01", 10) == 1
    ensures AllDigits("05", 10) && DigitsValue("05", 10) == 5
  {
    assert "2024"[..3] == "202";
    assert "202"[..2] == "20";
    assert "20"[..1] == "2";
    assert "01"[..1] == "0";
    assert "05"[..1] == "0";
  }

  /** `parseDay(day, index)`: the yearly total rides on the first day only;
      colour and intensity both come from the level, but only the intensity
      falls back when the level is not a number. */
  function ParseDay(cell: Cell, index: nat, total: ParsedInt): (day: ParsedDay)
    ensures day.date == DateParts(cell.date)
    ensures day.value.date == cell.date
    ensures day.value.count == if index == 0 then total else Int(0)
    ensures day.value.color.Some? <==> LevelOf(cell).Int? && 0 <= LevelOf(cell).value <= 4
    ensures day.value.color.Some? ==>
              day.value.intensity in ColorMap && day.value.color.value == ColorMap[day.value.intensity]
    ensures LevelOf(cell).Int? ==> day.value.intensity == LevelOf(cell).value
    ensures LevelOf(cell).NaN? ==> day.value.intensity == 0 && day.value.color == None
  {
    var level := LevelOf(cell);
    ParsedDay(DateParts(cell.date),
              Contribution(cell.date, if index == 0 then total else Int(0), ColorOf(level), IntensityOf(level)))
  }

  /** A cell without `data-level` gets intensity 0 and no colour, and the page is still read. */
  lemma {:induction false} MissingLevel(date: string, index: nat, total: ParsedInt)
    ensures ParseDay(Cell(date, None), index, total).value.intensity == 0
    ensures ParseDay(Cell(date, None), index, total).value.color == None
  {
  }

  /** The level written as a decimal numeral 0 to 4 selects that palette entry. */
  lemma {:induction false} PaletteByLevel(date: string, level: int, index: nat, total: ParsedInt)
    requires 0 <= level <= 4
    ensures var v := ParseDay(Cell(date, Some(DecimalString(level))), index, total).value;
            v.intensity == level && v.color == Some(ColorMap[level])
  {
    ParseDecimalString(level, [], Unspecified);
  }

  /** Different palette entries: the colour of a day determines its level. */
  lemma {:induction false} ColorDeterminesLevel(a: ParsedInt, b: ParsedInt)
    requires ColorOf(a).Some? && ColorOf(a) == ColorOf(b)
    ensures a == b
  {
  }

  // ---- the yearly total ----

  predicate IsCountChar(c: char) {
    '0' <= c <= '9' || c == ','
  }

  predicate AllCountChars(s: string) {
    forall i :: 0 <= i < |s| ==> IsCountChar(s[i])
  }

  /** The longest leading run of digits and commas. */
  function CountRun(h: string): (run: string)
    ensures |run| <= |h| && run == h[..|run|]
    ensures AllCountChars(run)
    ensures |run| == |h| || !IsCountChar(h[|run|])
  {
    if h != [] && IsCountChar(h[0]) then
      var run := [h[0]] + CountRun(h[1..]);
      assert run == h[..|run|];
      run
    else []
  }

  /** The capture group of `/^([0-9,]+)\s/`: a non-empty run of digits and
      commas at the start, directly followed by white space. */
  function MatchCount(h: string): (group: Option<string>)
    ensures group.Some? ==>
              && 0 < |group.value| < |h| && group.value == h[..|group.value|]
              && AllCountChars(group.value) && IsSpace(h[|group.value|])
  {
    var run := CountRun(h);
    if run != [] && |run| < |h| && IsSpace(h[|run|]) then Some(run)
    else
      None
  }

  /** The match is the only run that qualifies: any k with a count prefix and a space at k is its length. */
  lemma {:induction false} MatchCountUnique(h: string, k: nat)
    requires 0 < k < |h| && AllCountChars(h[..k]) && IsSpace(h[k])
    ensures MatchCount(h) == Some(h[..k])
  {
    var run := CountRun(h);
    assert h[..k] == run[..k];
  }

  /** `.replace(/,/g, "")`. */
  function RemoveCommas(s: string): (r: string)
    ensures ',' !in r
    ensures AllCountChars(s) ==> AllDigits(r, 10)
    ensures (',' !in s) ==> r == s
  {
    if s == [] then []
    else (if s[0] == ',' then [] else [s[0]]) + RemoveCommas(s[1..])
  }

  /** The yearly total read from the heading text: 0 without a match, otherwise
      the digits of the match read in base 10. A match made of commas only
      leaves no digits, and `parseInt` then gives NaN. */
  function TotalOf(heading: string): (total: ParsedInt)
    ensures total.Int? ==> total.value >= 0
    ensures MatchCount(Trim(heading)).None? ==> total == Int(0)
    ensures total.NaN? <==>
              MatchCount(Trim(heading)).Some? && RemoveCommas(MatchCount(Trim(heading)).value) == []
    ensures MatchCount(Trim(heading)).Some? && RemoveCommas(MatchCount(Trim(heading)).value) != [] ==>
              total == Int(DigitsValue(RemoveCommas(MatchCount(Trim(heading)).value), 10))
  {
    match MatchCount(Trim(heading))
    case None => Int(0)
    case Some(group) =>
      ParseDigits(RemoveCommas(group));
      ParseInt(RemoveCommas(group), Decimal)
  }

  /** A heading that starts with a run of digits and commas, then white
      space and more text, reads as that run without its commas. */
  lemma {:induction false} TotalOfRun(g: string, rest: string, j: nat)
    requires g != [] && AllCountChars(g)
    requires rest != [] && IsSpace(rest[0])
    requires j < |rest| && !IsSpace(rest[j])
    ensures TotalOf(g + rest) == ParseInt(RemoveCommas(g), Decimal)
  {
    var h := g + rest;
    assert MatchCount(Trim(h)) == Some(g) by {
      assert !IsSpace(h[0]) by { assert h[0] == g[0] && IsCountChar(g[0]); }
      var t := Trim(h);
      TrimLeadingKept(h, |g| + j);
      assert t[..|g|] == g;
      assert t[|g|] == rest[0];
      MatchCountUnique(t, |g|);
    }
  }

  /** White space in front of the heading does not change the total: the
      heading is trimmed before the pattern is matched. */
  lemma {:induction false} TotalOfSpaced(space: string, heading: string)
    requires AllSpace(space)
    ensures TotalOf(space + heading) == TotalOf(heading)
  {
    TrimSkipsSpace(space, heading);
  }

  /** A heading that starts with a numeral followed by white space and more
      text gives that number. */
  lemma {:induction false} TotalOfNumeral(n: nat, rest: string, j: nat)
    requires rest != [] && IsSpace(rest[0])
    requires j < |rest| && !IsSpace(rest[j])
    ensures TotalOf(DecimalString(n) + rest) == Int(n)
  {
    NumeralIsRun(n);
    TotalOfRun(DecimalString(n), rest, j);
  }

  /** The canonical numeral of a natural number is a run the total's pattern
      accepts, and reading it without commas gives the number back. */
  lemma {:induction false} NumeralIsRun(n: nat)
    ensures var digits := DecimalString(n);
            && digits != [] && '0' <= digits[0] <= '9' && AllCountChars(digits)
            && ParseInt(RemoveCommas(digits), Decimal) == Int(n)
  {
    var digits := DecimalString(n);
    assert digits == DecimalDigits(n);
    assert forall i :: 0 <= i < |digits| ==> IsDigit(digits[i], 10);
    assert IsDigit(digits[0], 10);
    DigitsKeep(digits);
    assert digits + [] == digits;
    ParseDecimalString(n, [], Decimal);
  }

  /** A numeral with a thousands comma reads as its digits without the comma. */
  lemma {:induction false} TotalOfGrouped(a: string, b: string, rest: string, j: nat)
    requires a != [] && AllDigits(a, 10) && AllDigits(b, 10)
    requires rest != [] && IsSpace(rest[0])
    requires j < |rest| && !IsSpace(rest[j])
    ensures AllDigits(a + b, 10)
    ensures TotalOf(a + "," + b + rest) == Int(DigitsValue(a + b, 10))
  {
    GroupedIsRun(a, b);
    TotalOfRun(a + "," + b, rest, j);
    RemoveGroupComma(a, b);
    ParseDigits(a + b);
  }

  /** Digits, a comma and digits make a run the total's pattern accepts. */
  lemma {:induction false} GroupedIsRun(a: string, b: string)
    requires a != [] && AllDigits(a, 10) && AllDigits(b, 10)
    ensures AllDigits(a + b, 10)
    ensures var g := a + "," + b; '0' <= g[0] <= '9' && AllCountChars(g)
  {
    var g := a + "," + b;
    assert forall i :: 0 <= i < |a + b| ==> (a + b)[i] == if i < |a| then a[i] else b[i - |a|];
    assert forall i :: 0 <= i < |g| ==>
             g[i] == if i < |a| then a[i] else if i == |a| then ',' else b[i - |a| - 1];
    assert g[0] == a[0];
  }

  /** Stripping the comma of `a,b` leaves the digits `a` then `b`. */
  lemma {:induction false} RemoveGroupComma(a: string, b: string)
    requires AllDigits(a, 10) && AllDigits(b, 10)
    ensures RemoveCommas(a + "," + b) == a + b
  {
    assert a + "," + b == a + ("," + b);
    RemoveCommasAppend(a, "," + b);
    RemoveCommasAppend(",", b);
    assert RemoveCommas(",") == [] by { assert ","[1..] == []; }
    DigitsKeep(a);
    DigitsKeep(b);
    assert [] + b == b;
  }

  /** When a string starts with a non-space, trimming keeps it up to its last
      non-space character at least. */
  lemma {:induction false} TrimLeadingKept(h: string, j: nat)
    requires h != [] && !IsSpace(h[0])
    requires j < |h| && !IsSpace(h[j])
    ensures |Trim(h)| > j && Trim(h) == h[..|Trim(h)|]
  {
    var r := Trim(h);
    assert LeadingSpace(h) == 0;
    assert forall i :: 0 <= i < |r| ==> r[i] == h[..|r|][i];
  }

  /** Removing commas works piece by piece. */
  lemma {:induction false} RemoveCommasAppend(a: string, b: string)
    ensures RemoveCommas(a + b) == RemoveCommas(a) + RemoveCommas(b)
  {
    if a != [] {
      assert (a + b)[1..] == a[1..] + b;
      RemoveCommasAppend(a[1..], b);
    } else {
      assert a + b == b;
    }
  }

  /** Digits have no comma to remove. */
  lemma {:induction false} DigitsKeep(d: string)
    requires AllDigits(d, 10)
    ensures RemoveCommas(d) == d
  {
    assert ',' !in d;
  }

  /** The heading of a year page in the form GitHub renders it. */
  lemma {:induction false} TotalExample()
    ensures TotalOf("1,234" + " contributions in the last year") == Int(1234)
  {
    var rest := " contributions in the last year";
    DigitsOfExample();
    assert "1,234" == "1" + "," + "234";
    TotalOfGrouped("1", "234", rest, 1);
  }

  lemma {:induction false} DigitsOfExample()
    ensures AllDigits("1" + "234", 10) && DigitsValue("1" + "234", 10) == 1234
  {
    assert "1" + "234" == "1234";
    assert "1234"[..3] == "123";
    assert "123"[..2] == "12";
    assert "12"[..1] == "1";
  }

  // ---- the flat list ----

  /** `$days.get().map((day, index) => parseDay(day, index).value)`: one
      record per cell, in the cells' order; only the first carries the total. */
  function FlatDays(cells: seq<Cell>, total: ParsedInt): (days: seq<Contribution>)
    ensures |days| == |cells|
    ensures forall i :: 0 <= i < |cells| ==> days[i] == ParseDay(cells[i], i, total).value
  {
    if cells == [] then []
    else
      var n := |cells| - 1;
      var init := FlatDays(cells[..n], total);
      assert forall i :: 0 <= i < n ==> cells[..n][i] == cells[i];
      init + [ParseDay(cells[n], n, total).value]
  }

  /** The `range` of a year: the dates of the first and the last cell;
      `undefined` for a page without cells. */
  datatype Range = Range(start: Option<string>, end: Option<string>)

  function RangeOf(cells: seq<Cell>): Range
  {
    if cells == [] then Range(None, None)
    else Range(Some(cells[0].date), Some(cells[|cells| - 1].date))
  }

  /** The range spans the flat list: its start is the first record's date and
      its end the last record's. */
  lemma {:induction false} RangeSpansFlat(cells: seq<Cell>, total: ParsedInt)
    ensures var days := FlatDays(cells, total);
            RangeOf(cells) == if days == [] then Range(None, None)
                              else Range(Some(days[0].date), Some(days[|days| - 1].date))
  {
  }

  // ---- the nested object ----

  /** A property key of the nested object: `String(n)` of an integral number,
      "NaN", or "undefined" for a component the date does not have. */
  datatype Key = IntKey(n: int) | NaNKey | UndefinedKey

  function KeyOf(p: ParsedInt): Key
  {
    match p
    case NaN => NaNKey
    case Int(n) => IntKey(n)
  }

  /** `const [y, m, d] = date`. */
  datatype DayKey = DayKey(year: Key, month: Key, day: Key)

  function ComponentKey(parts: seq<ParsedInt>, i: nat): Key
  {
    if i < |parts| then KeyOf(parts[i]) else UndefinedKey
  }

  function DayKeyOf(parts: seq<ParsedInt>): DayKey
  {
    DayKey(ComponentKey(parts, 0), ComponentKey(parts, 1), ComponentKey(parts, 2))
  }

  /** The year -> month -> day object. */
  type Tree = map<Key, map<Key, map<Key, Contribution>>>

  /** `o[y]?.[m]?.[d]`. */
  function Lookup(o: Tree, k: DayKey): Option<Contribution>
  {
    if k.year in o && k.month in o[k.year] && k.day in o[k.year][k.month]
    then Some(o[k.year][k.month][k.day]) else None
  }

  /** Every year object holds a month object and every month object a day:
      the reduce creates an inner object only to store into it. */
  predicate NoEmptyObjects(o: Tree) {
    forall y :: y in o ==> o[y] != map[] && forall m :: m in o[y] ==> o[y][m] != map[]
  }

  /** A cell's key in the nested object and its record. */
  datatype Entry = Entry(key: DayKey, value: Contribution)

  /** `parseDay(day, index)` applied to every cell, in order: what both the
      map and the reduce receive. */
  function ParsedDays(cells: seq<Cell>, total: ParsedInt): (days: seq<ParsedDay>)
    ensures |days| == |cells|
    ensures forall i :: 0 <= i < |cells| ==> days[i] == ParseDay(cells[i], i, total)
  {
    if cells == [] then []
    else
      var n := |cells| - 1;
      var init := ParsedDays(cells[..n], total);
      assert forall i :: 0 <= i < n ==> cells[..n][i] == cells[i];
      init + [ParseDay(cells[n], n, total)]
  }

  /** The parsed days as the reduce stores them: `[y, m, d]` and the record. */
  function Entries(days: seq<ParsedDay>): (es: seq<Entry>)
    ensures |es| == |days|
    ensures forall i :: 0 <= i < |days| ==> es[i] == Entry(DayKeyOf(days[i].date), days[i].value)
  {
    if days == [] then []
    else [Entry(DayKeyOf(days[0].date), days[0].value)] + Entries(days[1..])
  }

  /** Reference definition: the record of the last entry with key `k`. */
  function LastWith(es: seq<Entry>, k: DayKey): Option<Contribution>
  {
    if es == [] then None
    else if es[|es| - 1].key == k then Some(es[|es| - 1].value)
    else LastWith(es[..|es| - 1], k)
  }

  /** A cell that no later cell shares a key with is found under its key;
      a later cell with the same key overwrites it. */
  lemma {:induction false} LastWithFound(es: seq<Entry>, i: nat)
    requires i < |es|
    requires forall j :: i < j < |es| ==> es[j].key != es[i].key
    ensures LastWith(es, es[i].key) == Some(es[i].value)
  {
    if i < |es| - 1 {
      var init := es[..|es| - 1];
      assert forall j :: i < j < |init| ==> init[j] == es[j];
      LastWithFound(init, i);
    }
  }

  /** Every leaf comes from a cell with that key, and no later cell has the key. */
  lemma {:induction false} LastWithOrigin(es: seq<Entry>, k: DayKey)
    requires LastWith(es, k).Some?
    ensures exists i :: 0 <= i < |es| && es[i].key == k && es[i].value == LastWith(es, k).value
                        && forall j :: i < j < |es| ==> es[j].key != k
  {
    var last := |es| - 1;
    if es[last].key != k {
      var init := es[..last];
      LastWithOrigin(init, k);
      var i :| 0 <= i < |init| && init[i].key == k && init[i].value == LastWith(init, k).value
                && forall j :: i < j < |init| ==> init[j].key != k;
      assert es[i] == init[i];
      assert forall j :: i < j < |es| ==> es[j].key != k by {
        forall j | i < j < |es| ensures es[j].key != k {
          if j < last { assert es[j] == init[j]; }
        }
      }
    }
  }

  /** The records of a nested object, whatever their keys. */
  function Leaves(o: Tree): set<Contribution>
  {
    set y, m, d | y in o && m in o[y] && d in o[y][m] :: o[y][m][d]
  }

  lemma {:induction false} LeavesByLookup(o: Tree, v: Contribution)
    ensures v in Leaves(o) <==> exists k :: Lookup(o, k) == Some(v)
  {
    if v in Leaves(o) {
      var y, m, d :| y in o && m in o[y] && d in o[y][m] && o[y][m][d] == v;
      assert Lookup(o, DayKey(y, m, d)) == Some(v);
    }
    if k :| Lookup(o, k) == Some(v) {
      assert o[k.year][k.month][k.day] == v;
    }
  }

  /** No two cells share a day key. */
  predicate DistinctKeys(es: seq<Entry>) {
    forall i, j :: 0 <= i < j < |es| ==> es[i].key != es[j].key
  }

  /** What the reduce leaves behind: under each key, the record of the last
      entry with that key, and nothing under other keys. */
  ghost predicate HoldsLast(o: Tree, es: seq<Entry>) {
    forall k :: Lookup(o, k) == LastWith(es, k)
  }

  /** Flattening the nested object gives records of cells only, and, when no
      two cells share a day key, exactly the records of all cells. */
  lemma {:induction false} NestedLeaves(o: Tree, es: seq<Entry>)
    requires HoldsLast(o, es)
    ensures forall v :: v in Leaves(o) ==> exists i :: 0 <= i < |es| && es[i].value == v
    ensures DistinctKeys(es) ==> Leaves(o) == set i | 0 <= i < |es| :: es[i].value
  {
    forall v | v in Leaves(o) ensures exists i :: 0 <= i < |es| && es[i].value == v {
      LeavesByLookup(o, v);
      var k :| Lookup(o, k) == Some(v);
      LastWithOrigin(es, k);
    }
    if DistinctKeys(es) {
      forall i | 0 <= i < |es| ensures es[i].value in Leaves(o) {
        LastWithFound(es, i);
        assert Lookup(o, es[i].key) == Some(es[i].value);
        LeavesByLookup(o, es[i].value);
      }
    }
  }

  /** The flat and the nested shape of one page hold the same records when the
      dates of its cells name different days. */
  lemma {:induction false} FlatAndNestedAgree(cells: seq<Cell>, total: ParsedInt, o: Tree)
    requires HoldsLast(o, Entries(ParsedDays(cells, total)))
    requires DistinctKeys(Entries(ParsedDays(cells, total)))
    ensures Leaves(o) == set d | d in FlatDays(cells, total)
  {
    SameValues(cells, total);
    LeavesOfValues(o, Entries(ParsedDays(cells, total)), FlatDays(cells, total));
  }

  lemma {:induction false} LeavesOfValues(o: Tree, es: seq<Entry>, days: seq<Contribution>)
    requires HoldsLast(o, es) && DistinctKeys(es)
    requires |es| == |days| && forall i :: 0 <= i < |es| ==> es[i].value == days[i]
    ensures Leaves(o) == set d | d in days
  {
    NestedLeaves(o, es);
    assert (set i | 0 <= i < |es| :: es[i].value) == set d | d in days by {
      forall d | d in days ensures d in set i | 0 <= i < |es| :: es[i].value {
        var i :| 0 <= i < |days| && days[i] == d;
        assert es[i].value == d;
      }
    }
  }

  /** The reduce stores, cell by cell, the records the map lists. */
  lemma {:induction false} SameValues(cells: seq<Cell>, total: ParsedInt)
    ensures var es := Entries(ParsedDays(cells, total));
            var days := FlatDays(cells, total);
            |es| == |days| && forall i :: 0 <= i < |es| ==> es[i].value == days[i]
  {
  }

  /** One step of the reduce on object values: create the year and the month
      object when missing, then store the record under the day. */
  function Put(o: Tree, k: DayKey, v: Contribution): Tree
  {
    var year := if k.year in o then o[k.year] else map[];
    var month := if k.month in year then year[k.month] else map[];
    o[k.year := year[k.month := month[k.day := v]]]
  }

  /** A step stores the record under its key and leaves every other key as it
      was, and it creates no empty object. */
  lemma {:induction false} PutLookup(o: Tree, k: DayKey, v: Contribution)
    ensures forall k' :: Lookup(Put(o, k, v), k') == if k' == k then Some(v) else Lookup(o, k')
    ensures NoEmptyObjects(o) ==> NoEmptyObjects(Put(o, k, v))
  {
    var r := Put(o, k, v);
    forall k' ensures Lookup(r, k') == if k' == k then Some(v) else Lookup(o, k') {
      if k'.year != k.year {
        assert Lookup(r, k') == Lookup(o, k');
      } else if k'.month != k.month {
        assert Lookup(r, k') == Lookup(o, k');
      }
    }
    if NoEmptyObjects(o) {
      forall y | y in r ensures r[y] != map[] && forall m :: m in r[y] ==> r[y][m] != map[] {
        if y == k.year {
          assert k.month in r[y];
          forall m | m in r[y] ensures r[y][m] != map[] {
            if m == k.month {
              assert k.day in r[y][m];
            }
          }
        }
      }
    }
  }

  /** The callback of the reduce: `if (!o[y]) o[y] = {}`, `if (!o[y][m])
      o[y][m] = {}`, `o[y][m][d] = value`. */
  method Assign(o: Tree, k: DayKey, v: Contribution) returns (r: Tree)
    ensures r == Put(o, k, v)
  {
    ghost var year := if k.year in o then o[k.year] else map[];
    ghost var month := if k.month in year then year[k.month] else map[];
    r := o;
    if k.year !in r {
      r := r[k.year := map[]];
    }
    assert r[k.year] == year;
    if k.month !in r[k.year] {
      r := r[k.year := r[k.year][k.month := map[]]];
    }
    assert r[k.year][k.month] == month;
    assert r[k.year][k.month := month[k.day := v]] == year[k.month := month[k.day := v]];
    r := r[k.year := r[k.year][k.month := r[k.year][k.month][k.day := v]]];
  }

  /** A step of the reduce keeps the object holding the last record of each key. */
  lemma {:induction false} PutKeepsLast(o: Tree, es: seq<Entry>, e: Entry)
    requires HoldsLast(o, es)
    ensures HoldsLast(Put(o, e.key, e.value), es + [e])
  {
    PutLookup(o, e.key, e.value);
    forall k ensures Lookup(Put(o, e.key, e.value), k) == LastWith(es + [e], k) {
      assert (es + [e])[..|es|] == es;
    }
  }

  /** The reduce over the parsed days: for each day, create the year and
      month objects it needs and assign its record under its day. */
  method BuildNested(days: seq<ParsedDay>) returns (o: Tree)
    ensures HoldsLast(o, Entries(days))
    ensures NoEmptyObjects(o)
  {
    ghost var es := Entries(days);
    o := map[];
    for i := 0 to |days|
      invariant HoldsLast(o, es[..i])
      invariant NoEmptyObjects(o)
    {
      var day := days[i];
      var k := DayKeyOf(day.date);
      ghost var before := o;
      o := Assign(o, k, day.value);
      PutLookup(before, k, day.value);
      assert es[i] == Entry(k, day.value);
      PutKeepsLast(before, es[..i], es[i]);
      assert es[..i + 1] == es[..i] + [es[i]];
    }
    assert es[..|days|] == es;
  }
}
