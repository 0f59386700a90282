/**
  `fetchYears`: the year links of a profile's contribution tab. Each
  `.js-year-link` anchor's `href` is read as a URL on github.com, its query
  gets `tab=contributions`, and the link becomes `pathname + search` together
  with the anchor's trimmed text. The request itself is not modelled: the
  anchors arrive as values.
 */
module YearLinks {
  import opened JsText
  import opened UrlQuery

  /** A `.js-year-link` anchor: its `href` attribute and its text. */
  datatype Anchor = Anchor(href: string, text: string)

  /** What `fetchYears` returns for one anchor. */
  datatype YearRef = YearRef(href: string, text: string)

  /** `new URL("https://github.com" + href)`, `searchParams.set("tab",
      "contributions")`, then `pathname + search`; the text is trimmed. */
  function FormatYearLink(a: Anchor): (r: YearRef)
    ensures r.text == Trim(a.text)
    ensures '?' in r.href
  {
    var query := SetParam(ParseQuery(QueryOf(a.href)), "tab", "contributions");
    var r := YearRef(PathOf(a.href) + Search(query), Trim(a.text));
    assert r.href[|PathOf(a.href)|] == '?' by { SetParamEffect(ParseQuery(QueryOf(a.href)), "tab", "contributions"); }
    r
  }

  /** The formatted link keeps the anchor's path, carries exactly one `tab`
      pair, set to "contributions", and keeps the anchor's other query pairs
      in their order. */
  lemma {:induction false} FormatYearLinkQuery(a: Anchor)
    ensures var href := FormatYearLink(a).href;
            && PathOf(href) == PathOf(a.href)
            && Named(ParseQuery(QueryOf(href)), "tab") == [Param("tab", "contributions")]
            && Others(ParseQuery(QueryOf(href)), "tab") == Others(ParseQuery(QueryOf(a.href)), "tab")
  {
    var q := ParseQuery(QueryOf(a.href));
    var q' := SetParam(q, "tab", "contributions");
    ParsedIsPlain(QueryOf(a.href));
    SetParamPlain(q, "tab", "contributions");
    PathHasNoQuery(a.href);
    PathAndSearch(PathOf(a.href), q');
    SetParamEffect(q, "tab", "contributions");
  }

  /** Formatting a formatted link changes nothing. */
  lemma {:induction false} FormatYearLinkIdempotent(a: Anchor, text: string)
    ensures FormatYearLink(Anchor(FormatYearLink(a).href, text)).href == FormatYearLink(a).href
  {
    var q := ParseQuery(QueryOf(a.href));
    var q' := SetParam(q, "tab", "contributions");
    var href := FormatYearLink(a).href;
    ParsedIsPlain(QueryOf(a.href));
    SetParamPlain(q, "tab", "contributions");
    PathHasNoQuery(a.href);
    PathAndSearch(PathOf(a.href), q');
    SetParamIdempotent(q, "tab", "contributions");
  }

  /** The path read from an href stops before its query. */
  lemma {:induction false} PathHasNoQuery(href: string)
    ensures '?' !in PathOf(href)
  {
  }

  /** `set` with a plain pair keeps a plain list plain. */
  lemma {:induction false} SetParamPlain(q: seq<Param>, name: string, value: string)
    requires Plain(q)
    requires '&' !in name && '=' !in name && '&' !in value
    ensures Plain(SetParam(q, name, value))
  {
    if Named(q, name) != [] {
      ReplaceFirstPlain(q, name, value);
    }
  }

  lemma {:induction false} ReplaceFirstPlain(q: seq<Param>, name: string, value: string)
    requires Named(q, name) != []
    requires Plain(q)
    requires '&' !in name && '=' !in name && '&' !in value
    ensures Plain(ReplaceFirst(q, name, value))
  {
    if q[0].name == name {
      OthersPlain(q[1..], name);
    } else {
      ReplaceFirstPlain(q[1..], name, value);
    }
  }

  lemma {:induction false} OthersPlain(q: seq<Param>, name: string)
    requires Plain(q)
    ensures Plain(Others(q, name))
  {
    if q != [] {
      OthersPlain(q[1..], name);
    }
  }

  /** `fetchYears`: one link per anchor, in document order. */
  function FormatYearLinks(anchors: seq<Anchor>): (links: seq<YearRef>)
    ensures |links| == |anchors|
    ensures forall i :: 0 <= i < |anchors| ==> links[i] == FormatYearLink(anchors[i])
  {
    if anchors == [] then []
    else [FormatYearLink(anchors[0])] + FormatYearLinks(anchors[1..])
  }
}
