# GitHub contribution calendar, modelled in Dafny

This project models the scraper in `day1-github-user-repositories/src/utils/fetch.ts`, which reads a GitHub user's contribution calendar for the most recent year. It has three steps:

- **fetchYears** reads the `.js-year-link` anchors of the profile's contribution tab. It rewrites each `href` so that its query carries `tab=contributions`, and keeps the anchor's trimmed text.
- **fetchDataForYear** reads one year page:
  - the yearly total comes from the heading, through the pattern `/^([0-9,]+)\s/` and `parseInt(…, 10)`;
  - each day cell becomes a `Contribution` (`parseDay`), with its date, its count (the total rides on the first cell only), a colour from `COLOR_MAP` and an intensity from `data-level`;
  - the contributions are either a flat list (`.map`) or a year → month → day object (`.reduce`);
  - the range gives the first and last cell dates.
- **fetchLastYearData** takes the first year link and fails with "No contribution data found for the user." when there is none. In the flat shape it sorts the contributions newest first, in place, so the returned list and `years[0].contributions` are one array.

The modules follow that structure:

- `JsText`, `JsNumber`, `UrlQuery`: the ECMAScript and URL behaviour the scraper relies on. This covers `trim`, the white space of `parseInt` and `\s`, `split`/`join`, `parseInt` with and without a radix, `URLSearchParams.set`, and the urlencoded serializer and parser.
- `Calendar`: COLOR_MAP, the total, `parseDay`, the flat list, the nested object and the range.
- `YearLinks`: the link rewriting of `fetchYears`.
- `FetchLastYear`: `fetchDataForYear`, the in-place sort and `fetchLastYearData`.

The network requests are function parameters. `pages` maps a link to the year page it shows; `overview` maps a user name to the anchors of the contribution tab. The pages arrive as plain values: cells carry their `data-date` and `data-level` attributes, and anchors their `href` and text.

## Model

All sources are in `day1-github-user-repositories/src/utils/fetch.ts`.

| member | source | states |
|---|---|---|
| JsText.LeadingSpace | day1-github-user-repositories/src/utils/fetch.ts:76 | the count of leading white space: every character before it is white space, and the one at it is not (or the string ends) |
| JsText.TextEnd | day1-github-user-repositories/src/utils/fetch.ts:76 | the end of the text once trailing white space is dropped: everything after it is white space, and the character before it is not |
| JsText.TrimStart | day1-github-user-repositories/src/utils/fetch.ts:81 | what `parseInt` reads after skipping white space never starts with white space |
| JsText.Trim | day1-github-user-repositories/src/utils/fetch.ts:76 | `trim()` neither starts nor ends with white space; it is the part of the input after the leading white space, and only white space follows it |
| JsText.TrimUnique | day1-github-user-repositories/src/utils/fetch.ts:76 | any core framed by white space that neither starts nor ends with white space is the trim: the contract of Trim determines it |
| JsText.TrimIdempotent | day1-github-user-repositories/src/utils/fetch.ts:54 | trimming a trimmed text changes nothing |
| JsText.TrimSkipsSpace | day1-github-user-repositories/src/utils/fetch.ts:76 | white space in front of a text does not change its trim |
| JsText.IndexOf | day1-github-user-repositories/src/utils/fetch.ts:91 | the first occurrence of the separator: it is there, and not before |
| JsText.Split | day1-github-user-repositories/src/utils/fetch.ts:91 | `split("-")` gives at least one piece, and no piece contains the separator |
| JsText.JoinSplit | day1-github-user-repositories/src/utils/fetch.ts:91 | joining the pieces of a split gives the string back |
| JsText.SplitJoin | day1-github-user-repositories/src/utils/fetch.ts:91 | splitting a join of separator-free pieces gives the pieces back |
| JsNumber.DigitValue | day1-github-user-repositories/src/utils/fetch.ts:92 | digit values are at most 36, and below 10 exactly for '0'..'9' |
| JsNumber.LeadingDigits | day1-github-user-repositories/src/utils/fetch.ts:92 | the longest prefix of digits of the base: a prefix, all digits, followed by a non-digit or the end |
| JsNumber.ParseInt | day1-github-user-repositories/src/utils/fetch.ts:92 | `parseInt` gives NaN for a string without a decimal digit |
| JsNumber.ReadSigned | day1-github-user-repositories/src/utils/fetch.ts:92 | after the white space, a number is read only when a decimal digit is present |
| JsNumber.ReadUnsigned | day1-github-user-repositories/src/utils/fetch.ts:93 | an unsigned read is non-negative and starts at a decimal digit (a hex prefix starts with "0") |
| JsNumber.DecimalDigits | day1-github-user-repositories/src/utils/fetch.ts:92 | the canonical numeral of a natural number is non-empty and all decimal digits |
| JsNumber.DecimalDigitsValue | day1-github-user-repositories/src/utils/fetch.ts:92 | the digits of a numeral denote the number |
| JsNumber.LeadingDigitsOf | day1-github-user-repositories/src/utils/fetch.ts:92 | reading digits stops exactly where the digits stop |
| JsNumber.ParseDecimalString | day1-github-user-repositories/src/utils/fetch.ts:92 | `parseInt(String(n) + rest, 10) == n` when `rest` does not continue the digits; without a radix the same holds of the bare numeral |
| JsNumber.ParseNatural | day1-github-user-repositories/src/utils/fetch.ts:92 | the round trip for a natural number |
| JsNumber.ParseNegative | day1-github-user-repositories/src/utils/fetch.ts:92 | the round trip for a negative number, through its "-" |
| JsNumber.ParseIntMinus | day1-github-user-repositories/src/utils/fetch.ts:92 | a leading "-" negates what follows |
| JsNumber.ParseDigits | day1-github-user-repositories/src/utils/fetch.ts:81 | a string of decimal digits parses to its value; the empty string parses to NaN |
| JsNumber.ReadDecimalDigits | day1-github-user-repositories/src/utils/fetch.ts:93 | a canonical numeral reads as its number, also when no radix is given (no "0x" prefix can occur) |
| JsNumber.NoLeadingZero | day1-github-user-repositories/src/utils/fetch.ts:93 | a canonical numeral of two or more digits does not start with "0" |
| JsNumber.ParseIntSkipsSpace | day1-github-user-repositories/src/utils/fetch.ts:92 | white space in front does not change what `parseInt` reads |
| JsNumber.ParseIntTrimStart | day1-github-user-repositories/src/utils/fetch.ts:92 | `parseInt` reads the sign and digits that follow the leading white space |
| UrlQuery.FirstIndex | day1-github-user-repositories/src/utils/fetch.ts:49 | the first pair with a given name: it has that name, and no earlier pair does |
| UrlQuery.NamedAppend | day1-github-user-repositories/src/utils/fetch.ts:49 | selecting by name distributes over concatenation |
| UrlQuery.OthersHasNoName | day1-github-user-repositories/src/utils/fetch.ts:49 | the pairs not called `name` include none called `name`, and selecting them again changes nothing |
| UrlQuery.ReplaceFirstParts | day1-github-user-repositories/src/utils/fetch.ts:49 | replacing the first pair leaves exactly one pair with that name and keeps the other pairs |
| UrlQuery.SetParamEffect | day1-github-user-repositories/src/utils/fetch.ts:49 | after `searchParams.set("tab", …)` exactly one `tab` pair exists and holds the new value; pairs with other names are kept in order |
| UrlQuery.SetParamPlace | day1-github-user-repositories/src/utils/fetch.ts:49 | `set` appends when the name is absent; otherwise it writes at the first such pair and leaves everything before it unchanged |
| UrlQuery.ReplaceFirstPlace | day1-github-user-repositories/src/utils/fetch.ts:49 | the replacement sits at the first pair's position, and the prefix before it is unchanged |
| UrlQuery.SetParam | day1-github-user-repositories/src/utils/fetch.ts:49 | `searchParams.set(name, value)` on the list of query pairs: it replaces the first pair with that name and drops the other such pairs, or appends the pair when none exists; SetParamEffect, SetParamPlace and SetParamIdempotent state its properties |
| UrlQuery.SetParamIdempotent | day1-github-user-repositories/src/utils/fetch.ts:49 | setting the same pair twice is setting it once |
| UrlQuery.ReplaceFirstSingle | day1-github-user-repositories/src/utils/fetch.ts:49 | a list whose only pair with that name already holds the value is left unchanged |
| UrlQuery.OthersNoName | day1-github-user-repositories/src/utils/fetch.ts:49 | with no pair of that name, removing such pairs changes nothing |
| UrlQuery.Pieces | day1-github-user-repositories/src/utils/fetch.ts:50 | one "name=value" piece per pair |
| UrlQuery.Serialize | day1-github-user-repositories/src/utils/fetch.ts:50 | the urlencoded serializer: the pieces joined by "&"; ParseSerialize proves ParseQuery reads it back |
| UrlQuery.ParseQuery | day1-github-user-repositories/src/utils/fetch.ts:48 | the query parser of `new URL`: split on "&", empty pieces skipped, each piece split at its first "="; ParseSerialize and ParsedIsPlain state its properties |
| UrlQuery.ParsedIsPlain | day1-github-user-repositories/src/utils/fetch.ts:48 | whatever the query parser reads has no "&" anywhere and no "=" in a name |
| UrlQuery.ParsePiecesPlain | day1-github-user-repositories/src/utils/fetch.ts:48 | pieces without "&" parse to plain pairs |
| UrlQuery.ParsePieceOf | day1-github-user-repositories/src/utils/fetch.ts:48 | a serialized pair parses back to itself |
| UrlQuery.ParsePiecesOf | day1-github-user-repositories/src/utils/fetch.ts:48 | serialized pieces parse back to the pairs |
| UrlQuery.ParseSerialize | day1-github-user-repositories/src/utils/fetch.ts:50 | parsing the serialization of plain pairs gives the pairs back |
| UrlQuery.Search | day1-github-user-repositories/src/utils/fetch.ts:50 | `URL.search`: "?" and the serialized pairs, or "" when there are none; PathAndSearch reads path and pairs back from `pathname + search` |
| UrlQuery.PathOf | day1-github-user-repositories/src/utils/fetch.ts:48 | `pathname` of the href: everything before the first "?"; PathHasNoQuery and PathAndSearch state its properties |
| UrlQuery.QueryOf | day1-github-user-repositories/src/utils/fetch.ts:48 | the query string of the href: everything after the first "?"; PathAndSearch states its round trip with Search |
| UrlQuery.PathAndSearch | day1-github-user-repositories/src/utils/fetch.ts:50 | from `pathname + search` the path and the pairs are read back |
| Calendar.UndefinedLevel | day1-github-user-repositories/src/utils/fetch.ts:93 | `parseInt` of a missing attribute (read as "undefined") is NaN |
| Calendar.ColorMap | day1-github-user-repositories/src/utils/fetch.ts:4-10 | COLOR_MAP: levels 0..4 map to "#ebedf0", "#9be9a8", "#40c463", "#30a14e" and "#216e39"; ColorOf, PaletteByLevel and ColorDeterminesLevel state its properties |
| Calendar.LevelOf | day1-github-user-repositories/src/utils/fetch.ts:93 | `parseInt(data-level)` without a radix, NaN for a missing attribute; UndefinedLevel, MissingLevel and PaletteByLevel state its properties |
| Calendar.IntensityOf | day1-github-user-repositories/src/utils/fetch.ts:98 | `level || 0`: NaN and 0 give 0, any other number is kept; ParseDay's contract and MissingLevel state it |
| Calendar.ColorOf | day1-github-user-repositories/src/utils/fetch.ts:4-10 | `COLOR_MAP[level]` is defined exactly for the levels 0 to 4 |
| Calendar.DateParts | day1-github-user-repositories/src/utils/fetch.ts:89-92 | one number per dash-separated piece of `data-date`, each piece read with `parseInt(…, 10)` |
| Calendar.DatePartsOfTriple | day1-github-user-repositories/src/utils/fetch.ts:89-92 | a date made of three runs of digits joined by "-" reads as the three values, leading zeros dropped |
| Calendar.DatePartsStep | day1-github-user-repositories/src/utils/fetch.ts:89-92 | reading a date splits it at its first dash |
| Calendar.NoDashInDigits | day1-github-user-repositories/src/utils/fetch.ts:89-92 | a run of digits has no dash and reads as one part |
| Calendar.ParseDay | day1-github-user-repositories/src/utils/fetch.ts:84-101 | the split date and the date string; the count is the total on the first cell and 0 elsewhere; a colour iff the level is 0 to 4, and then it is the palette entry of the intensity; intensity = the level when it is a number, else 0 with no colour |
| Calendar.MissingLevel | day1-github-user-repositories/src/utils/fetch.ts:93-99 | a cell without `data-level` gets intensity 0 and no colour |
| Calendar.PaletteByLevel | day1-github-user-repositories/src/utils/fetch.ts:4-10 | a level written as the numeral 0..4 gives that intensity and that palette colour |
| Calendar.ColorDeterminesLevel | day1-github-user-repositories/src/utils/fetch.ts:4-10 | the palette entries are distinct: equal colours mean equal levels |
| Calendar.CountRun | day1-github-user-repositories/src/utils/fetch.ts:77 | the longest prefix of digits and commas, followed by a different character or the end |
| Calendar.MatchCount | day1-github-user-repositories/src/utils/fetch.ts:74-77 | a match of `/^([0-9,]+)\s/` is a non-empty prefix of digits and commas followed by white space |
| Calendar.MatchCountUnique | day1-github-user-repositories/src/utils/fetch.ts:77 | any digits-and-commas prefix followed by white space is the match |
| Calendar.RemoveCommas | day1-github-user-repositories/src/utils/fetch.ts:81 | the result has no comma, is all digits when the input is digits and commas, and is the input when that has no comma |
| Calendar.RemoveCommasAppend | day1-github-user-repositories/src/utils/fetch.ts:81 | removing commas works piece by piece |
| Calendar.RemoveGroupComma | day1-github-user-repositories/src/utils/fetch.ts:81 | removing the comma of "a,b" leaves the digits of a then b |
| Calendar.TotalOf | day1-github-user-repositories/src/utils/fetch.ts:74-82 | the total is 0 without a match; it is NaN exactly when the match holds only commas; otherwise it is the value of the match's digits with the commas removed |
| Calendar.TotalOfRun | day1-github-user-repositories/src/utils/fetch.ts:74-82 | a heading starting with a run of digits and commas, then white space and text, totals the run without commas |
| Calendar.TotalOfSpaced | day1-github-user-repositories/src/utils/fetch.ts:74-82 | white space in front of the heading does not change the total (the heading is trimmed before matching) |
| Calendar.TotalOfNumeral | day1-github-user-repositories/src/utils/fetch.ts:74-82 | a heading "n contributions…" totals n |
| Calendar.TotalOfGrouped | day1-github-user-repositories/src/utils/fetch.ts:74-82 | a heading "a,b contributions…" totals the number with digits a then b |
| Calendar.TotalExample | day1-github-user-repositories/src/utils/fetch.ts:74-82 | "1,234 contributions in the last year" totals 1234 |
| Calendar.FlatDays | day1-github-user-repositories/src/utils/fetch.ts:103-107 | the `.map`: one record per cell, in order, the i-th being `parseDay(cell i, i).value` |
| Calendar.RangeSpansFlat | day1-github-user-repositories/src/utils/fetch.ts:119-127 | the range's start and end are the dates of the flat list's first and last records, or both undefined without cells |
| Calendar.RangeOf | day1-github-user-repositories/src/utils/fetch.ts:121-124 | the range: the `data-date` of the first and the last cell, undefined without cells; RangeSpansFlat ties it to the flat list and FetchDataForYear returns it |
| Calendar.ParsedDays | day1-github-user-repositories/src/utils/fetch.ts:108-117 | what the reduce receives: `parseDay(cell i, i)` for each cell, in order |
| Calendar.Entries | day1-github-user-repositories/src/utils/fetch.ts:113-115 | each parsed day as the reduce stores it: the key from `[y, m, d]` and the record |
| Calendar.DayKeyOf | day1-github-user-repositories/src/utils/fetch.ts:112 | `const [y, m, d] = date`: the property keys of the first three parts, "undefined" for a missing one; DayKeyOfTriple and DayKeyExample give its value for a well-formed date |
| Calendar.DayKeyOfTriple | day1-github-user-repositories/src/utils/fetch.ts:112 | a date of three digit runs is keyed by their three values |
| Calendar.DayKeyExample | day1-github-user-repositories/src/utils/fetch.ts:112 | "2024-01-05" is keyed 2024, 1, 5 (no zero padding in the keys) |
| Calendar.LastWithFound | day1-github-user-repositories/src/utils/fetch.ts:108-117 | a cell whose key no later cell shares is what the object holds under that key |
| Calendar.LastWithOrigin | day1-github-user-repositories/src/utils/fetch.ts:108-117 | whatever the object holds under a key comes from a cell with that key, and no later cell has it |
| Calendar.LeavesByLookup | day1-github-user-repositories/src/utils/fetch.ts:108-117 | a record is a leaf of the object iff some key finds it |
| Calendar.NestedLeaves | day1-github-user-repositories/src/utils/fetch.ts:108-117 | every leaf of the nested object is some cell's record; with distinct day keys the leaves are exactly the cells' records |
| Calendar.FlatAndNestedAgree | day1-github-user-repositories/src/utils/fetch.ts:103-117 | with distinct day keys the nested object holds exactly the records of the flat list |
| Calendar.SameValues | day1-github-user-repositories/src/utils/fetch.ts:103-117 | cell by cell, the reduce stores the record the map lists |
| Calendar.LeavesOfValues | day1-github-user-repositories/src/utils/fetch.ts:108-117 | with distinct keys, the leaves are the set of the records stored |
| Calendar.PutLookup | day1-github-user-repositories/src/utils/fetch.ts:113-115 | after one step of the reduce the key finds the new record and every other key finds what it found before; no empty year or month object appears |
| Calendar.Put | day1-github-user-repositories/src/utils/fetch.ts:113-115 | one step of the reduce on object values: create the year and the month object when missing, store the record under the day; PutLookup states its effect and Assign is its statement-by-statement form |
| Calendar.Assign | day1-github-user-repositories/src/utils/fetch.ts:113-115 | the three statements `if (!o[y]) o[y] = {}`, `if (!o[y][m]) o[y][m] = {}` and `o[y][m][d] = value` give the stored object Put describes |
| Calendar.PutKeepsLast | day1-github-user-repositories/src/utils/fetch.ts:108-117 | one step keeps "every key holds its last record" true for the entries seen so far |
| Calendar.BuildNested | day1-github-user-repositories/src/utils/fetch.ts:108-117 | the reduce leaves, under each key, the record of the last cell with that key, and nothing under other keys; no year or month object is empty |
| YearLinks.FormatYearLink | day1-github-user-repositories/src/utils/fetch.ts:43-56 | the link's text is the trimmed anchor text, and its href carries a query |
| YearLinks.FormatYearLinkQuery | day1-github-user-repositories/src/utils/fetch.ts:46-50 | the rewritten href keeps the anchor's path, has exactly one `tab` pair (`tab=contributions`), and keeps the other query pairs in order |
| YearLinks.FormatYearLinkIdempotent | day1-github-user-repositories/src/utils/fetch.ts:46-50 | rewriting a rewritten link changes nothing |
| YearLinks.SetParamPlain | day1-github-user-repositories/src/utils/fetch.ts:49 | `set` with a plain pair keeps a plain list plain |
| YearLinks.ReplaceFirstPlain | day1-github-user-repositories/src/utils/fetch.ts:49 | replacing the first pair keeps a plain list plain |
| YearLinks.OthersPlain | day1-github-user-repositories/src/utils/fetch.ts:49 | dropping the pairs of one name keeps a plain list plain |
| YearLinks.FormatYearLinks | day1-github-user-repositories/src/utils/fetch.ts:43-56 | one link per anchor, in document order, each rewritten by FormatYearLink |
| FetchLastYear.ReadTotal | day1-github-user-repositories/src/utils/fetch.ts:79-82 | the `let contribCount = 0` and its reassignment give exactly TotalOf of the heading |
| FetchLastYear.NewArray | day1-github-user-repositories/src/utils/fetch.ts:103-107 | the array `.map` builds is new and holds the records in order |
| FetchLastYear.FetchDataForYear | day1-github-user-repositories/src/utils/fetch.ts:59-128 | year as given; total = TotalOf(heading); range = RangeOf(cells); flat: a new array equal to FlatDays; nested: every key holds the last record with that key, and no object is empty |
| FetchLastYear.PartsRank | day1-github-user-repositories/src/utils/fetch.ts:152-158 | the rank is positive exactly for a readable calendar date |
| FetchLastYear.DateRank | day1-github-user-repositories/src/utils/fetch.ts:155-157 | the sort key of a record: PartsRank of its parsed date; RankOrder states that it orders dates as `getTime` does for readable dates |
| FetchLastYear.RankOrder | day1-github-user-repositories/src/utils/fetch.ts:152-158 | ranks order readable dates as their (year, month, day) triples do, are equal iff the triples are, and put unreadable dates after all readable ones |
| FetchLastYear.SortNewestFirst | day1-github-user-repositories/src/utils/fetch.ts:152-158 | the in-place `sort` leaves the array newest first, and a permutation of what it held |
| FetchLastYear.InsertLeft | day1-github-user-repositories/src/utils/fetch.ts:152-158 | one insertion step: the newest-first prefix `a[..i]` grows to `a[..i + 1]`, which holds the same records as before; everything after index i is unchanged |
| FetchLastYear.SwapLeft | day1-github-user-repositories/src/utils/fetch.ts:152-158 | one swap keeps the insertion invariant and the multiset |
| FetchLastYear.NewestFirstUnique | day1-github-user-repositories/src/utils/fetch.ts:152-158 | with distinct dates, two newest-first orderings of the same records are equal: the sort's result is determined |
| FetchLastYear.SameFirst | day1-github-user-repositories/src/utils/fetch.ts:152-158 | with distinct ranks, two newest-first orderings of the same records start with the same record |
| FetchLastYear.DropFirst | day1-github-user-repositories/src/utils/fetch.ts:152-158 | dropping the first record keeps the order newest first and removes one copy of it |
| FetchLastYear.FetchYears | day1-github-user-repositories/src/utils/fetch.ts:29-57 | one link per anchor of the contribution tab, the i-th being FormatYearLink of the i-th anchor |
| FetchLastYear.FetchLastYearData | day1-github-user-repositories/src/utils/fetch.ts:130-161 | fails with "No contribution data found for the user." iff there is no year link; otherwise exactly one year, read from the first link with the link's text as year; total and range from that page; the returned contributions are the same value (in flat mode the same array) as `years[0].contributions`; flat: newest first and a permutation of the page's records; nested: every key holds its last record and no year or month object is empty |

## Left out

- Network and parsing library: the HTTP requests, their headers and `async` are left out; the responses are function parameters. The cheerio selection is left out too; a page arrives as its cells and heading, and an overview as its anchors.
- Percent-encoding, the "+"/space exchange, path normalisation, fragments and hrefs that are not path-absolute are left out. `new URL` is modelled as splitting an `href` at its first "?" into a path and a query.
- FetchYears: the request for `?tab=contributions` and the anchor selection are left out. `overview` gives the anchors directly.
- Dates: `new Date(date).getTime()` is replaced by a rank of the `parseInt` (year, month, day) triple. It agrees with the Date order for dates in the `YYYY-MM-DD` form GitHub writes. Years outside 0..9999 and days past the end of a month (which `Date` may roll over or reject) are not modelled.
- SortNewestFirst: dates `Date` cannot read are ranked below every readable one, so they end up last. The source's comparator then returns NaN, which leaves the order up to the engine.
- SortNewestFirst: implemented as an insertion sort. It is proved sorted and a permutation. Stability is not stated or proved, although the insertion step moves a record only past strictly earlier-dated ones, so equal-dated records keep their order as in `Array.prototype.sort`. The engine's own `sort` algorithm is not modelled; with distinct dates NewestFirstUnique shows the result does not depend on it.
- `parseInt` is modelled on unbounded integers. Rounding of numerals above 2^53 to the nearest double, and "-0", are not modelled. `-0` behaves like `0` everywhere it is used here.
- A cell without `data-date` makes the source throw on `.split`; the model always has a date string.
- A heading run made only of commas (", …") gives a NaN total. The model does this as written (TotalOf).
- The nested object is a map from keys to maps. The key enumeration order of the JavaScript object is not modelled.
- BuildNested receives the results of `parseDay` for the cells, rather than calling it inside the reduce. ParsedDays ties the two together.
- The default `format = "flat"` is not modelled; `Format` always has a value.
- The actions module, the React component and lodash are not part of this model.
