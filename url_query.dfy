/**
  The part of the WHATWG URL standard the year links go through: a URL's
  query as a list of name/value pairs (URLSearchParams), `set` on that list,
  the application/x-www-form-urlencoded serializer and parser, and
  `pathname + search`. Percent-encoding and the "+"/space exchange are not
  modelled: names and values are kept as they are.
 */
module UrlQuery {
  import opened JsText

  datatype Param = Param(name: string, value: string)

  /** The pairs called `name`, in order. */
  function Named(q: seq<Param>, name: string): seq<Param>
  {
    if q == [] then []
    else (if q[0].name == name then [q[0]] else []) + Named(q[1..], name)
  }

  /** The pairs not called `name`, in order. */
  function Others(q: seq<Param>, name: string): seq<Param>
  {
    if q == [] then []
    else (if q[0].name != name then [q[0]] else []) + Others(q[1..], name)
  }

  /** Index of the first pair called `name`. */
  function FirstIndex(q: seq<Param>, name: string): (k: nat)
    requires Named(q, name) != []
    ensures k < |q| && q[k].name == name
    ensures Named(q[..k], name) == []
  {
    if q[0].name == name then 0
    else
      var k := 1 + FirstIndex(q[1..], name);
      assert q[..k] == [q[0]] + q[1..][..k - 1];
      k
  }

  /** URLSearchParams.prototype.set: when some pair is called `name`, the first
      such pair gets `value` and the others are removed; otherwise the pair is
      appended. */
  function SetParam(q: seq<Param>, name: string, value: string): seq<Param>
  {
    if Named(q, name) == [] then q + [Param(name, value)]
    else ReplaceFirst(q, name, value)
  }

  function ReplaceFirst(q: seq<Param>, name: string, value: string): seq<Param>
    requires Named(q, name) != []
  {
    if q[0].name == name then [Param(name, value)] + Others(q[1..], name)
    else [q[0]] + ReplaceFirst(q[1..], name, value)
  }

  lemma {:induction false} NamedAppend(a: seq<Param>, b: seq<Param>, name: string)
    ensures Named(a + b, name) == Named(a, name) + Named(b, name)
    ensures Others(a + b, name) == Others(a, name) + Others(b, name)
  {
    if a != [] {
      assert (a + b)[1..] == a[1..] + b;
      NamedAppend(a[1..], b, name);
    } else {
      assert a + b == b;
    }
  }

  lemma {:induction false} OthersHasNoName(q: seq<Param>, name: string)
    ensures Named(Others(q, name), name) == []
    ensures Others(Others(q, name), name) == Others(q, name)
  {
    if q != [] {
      OthersHasNoName(q[1..], name);
      NamedAppend(if q[0].name != name then [q[0]] else [], Others(q[1..], name), name);
    }
  }

  lemma {:induction false} ReplaceFirstParts(q: seq<Param>, name: string, value: string)
    requires Named(q, name) != []
    ensures Named(ReplaceFirst(q, name, value), name) == [Param(name, value)]
    ensures Others(ReplaceFirst(q, name, value), name) == Others(q, name)
  {
    if q[0].name == name {
      OthersHasNoName(q[1..], name);
      NamedAppend([Param(name, value)], Others(q[1..], name), name);
    } else {
      ReplaceFirstParts(q[1..], name, value);
      NamedAppend([q[0]], ReplaceFirst(q[1..], name, value), name);
    }
  }

  /** After `set`, exactly one pair is called `name` and it holds `value`;
      the pairs with other names are kept, in their order. */
  lemma {:induction false} SetParamEffect(q: seq<Param>, name: string, value: string)
    ensures Named(SetParam(q, name, value), name) == [Param(name, value)]
    ensures Others(SetParam(q, name, value), name) == Others(q, name)
  {
    if Named(q, name) == [] {
      NamedAppend(q, [Param(name, value)], name);
    } else {
      ReplaceFirstParts(q, name, value);
    }
  }

  /** `set` keeps the position of the first pair it replaces, and appends
      when there is none. */
  lemma {:induction false} SetParamPlace(q: seq<Param>, name: string, value: string)
    ensures Named(q, name) == [] ==> SetParam(q, name, value) == q + [Param(name, value)]
    ensures Named(q, name) != [] ==>
              var k := FirstIndex(q, name);
              var r := SetParam(q, name, value);
              k < |r| && r[..k] == q[..k] && r[k] == Param(name, value)
  {
    if Named(q, name) != [] {
      ReplaceFirstPlace(q, name, value);
    }
  }

  lemma {:induction false} ReplaceFirstPlace(q: seq<Param>, name: string, value: string)
    requires Named(q, name) != []
    ensures var k := FirstIndex(q, name);
            var r := ReplaceFirst(q, name, value);
            k < |r| && r[..k] == q[..k] && r[k] == Param(name, value)
  {
    if q[0].name != name {
      ReplaceFirstPlace(q[1..], name, value);
      var k := FirstIndex(q[1..], name);
      var r := ReplaceFirst(q[1..], name, value);
      assert ReplaceFirst(q, name, value) == [q[0]] + r;
      assert ([q[0]] + r)[..k + 1] == [q[0]] + r[..k];
      assert q[..k + 1] == [q[0]] + q[1..][..k];
    }
  }

  /** Setting the same pair twice is setting it once. */
  lemma {:induction false} SetParamIdempotent(q: seq<Param>, name: string, value: string)
    ensures SetParam(SetParam(q, name, value), name, value) == SetParam(q, name, value)
  {
    var r := SetParam(q, name, value);
    SetParamEffect(q, name, value);
    ReplaceFirstSingle(r, name, value);
  }

  lemma {:induction false} ReplaceFirstSingle(q: seq<Param>, name: string, value: string)
    requires Named(q, name) == [Param(name, value)]
    ensures ReplaceFirst(q, name, value) == q
  {
    if q[0].name == name {
      assert Named(q[1..], name) == [];
      OthersNoName(q[1..], name);
      assert q == [q[0]] + q[1..];
    } else {
      ReplaceFirstSingle(q[1..], name, value);
      assert q == [q[0]] + q[1..];
    }
  }

  lemma {:induction false} OthersNoName(q: seq<Param>, name: string)
    requires Named(q, name) == []
    ensures Others(q, name) == q
  {
    if q != [] {
      OthersNoName(q[1..], name);
      assert q == [q[0]] + q[1..];
    }
  }

  /** The "name=value" pieces of the urlencoded serializer. */
  function Pieces(q: seq<Param>): (pieces: seq<string>)
    ensures |pieces| == |q|
  {
    seq(|q|, i requires 0 <= i < |q| => q[i].name + "=" + q[i].value)
  }

  /** The application/x-www-form-urlencoded serializer: pieces joined by "&". */
  function Serialize(q: seq<Param>): string
  {
    Join(Pieces(q), '&')
  }

  /** One piece of a query: the name up to the first "=", the value after it. */
  function ParsePiece(piece: string): Param
  {
    if '=' in piece then
      var i := IndexOf(piece, '=');
      Param(piece[..i], piece[i + 1..])
    else Param(piece, "")
  }

  /** The application/x-www-form-urlencoded parser: split on "&", skip empty pieces. */
  function ParseQuery(s: string): seq<Param>
  {
    ParsePieces(Split(s, '&'))
  }

  function ParsePieces(pieces: seq<string>): seq<Param>
  {
    if pieces == [] then []
    else (if pieces[0] == [] then [] else [ParsePiece(pieces[0])]) + ParsePieces(pieces[1..])
  }

  /** Names and values the serializer can write without percent-encoding and
      the parser reads back: no "&" anywhere and no "=" in a name. */
  predicate Plain(q: seq<Param>) {
    forall i :: 0 <= i < |q| ==> '&' !in q[i].name && '=' !in q[i].name && '&' !in q[i].value
  }

  /** Whatever the parser reads is plain: pieces hold no "&", and a name ends
      at the first "=". */
  lemma {:induction false} ParsedIsPlain(s: string)
    ensures Plain(ParseQuery(s))
  {
    ParsePiecesPlain(Split(s, '&'));
  }

  lemma {:induction false} ParsePiecesPlain(pieces: seq<string>)
    requires forall k :: 0 <= k < |pieces| ==> '&' !in pieces[k]
    ensures Plain(ParsePieces(pieces))
  {
    if pieces != [] {
      ParsePiecesPlain(pieces[1..]);
      var piece := pieces[0];
      var head := if piece == [] then [] else [ParsePiece(piece)];
      assert forall i :: 0 <= i < |head| ==> '&' !in head[i].name && '=' !in head[i].name && '&' !in head[i].value by {
        if piece != [] && '=' in piece {
          var i := IndexOf(piece, '=');
          assert piece == piece[..i] + piece[i..];
          assert piece[i + 1..] == piece[i..][1..];
        }
      }
      assert ParsePieces(pieces) == head + ParsePieces(pieces[1..]);
    }
  }

  lemma {:induction false} ParsePieceOf(p: Param)
    requires '=' !in p.name
    ensures ParsePiece(p.name + "=" + p.value) == p
  {
    var piece := p.name + "=" + p.value;
    IndexOfAfter(p.name, '=', p.value);
    assert piece == p.name + ['='] + p.value;
    assert piece[..|p.name|] == p.name;
    assert piece[|p.name| + 1..] == p.value;
  }

  lemma {:induction false} ParsePiecesOf(q: seq<Param>)
    requires Plain(q)
    ensures ParsePieces(Pieces(q)) == q
  {
    if q != [] {
      assert Pieces(q)[1..] == Pieces(q[1..]);
      ParsePieceOf(q[0]);
      assert Pieces(q)[0] != [];
      ParsePiecesOf(q[1..]);
      assert q == [q[0]] + q[1..];
    }
  }

  /** Reading back a serialized query gives the pairs that were written. */
  lemma {:induction false} ParseSerialize(q: seq<Param>)
    requires Plain(q)
    ensures ParseQuery(Serialize(q)) == q
  {
    if q == [] {
      assert Split([], '&') == [[]];
    } else {
      var pieces := Pieces(q);
      forall k | 0 <= k < |pieces| ensures '&' !in pieces[k] {
        assert pieces[k] == q[k].name + "=" + q[k].value;
      }
      SplitJoin(pieces, '&');
      ParsePiecesOf(q);
    }
  }

  /** `URL.search`: "?" and the serialized query, or nothing when the list is empty. */
  function Search(q: seq<Param>): string
  {
    if q == [] then "" else "?" + Serialize(q)
  }

  /** The path of a `pathname + search` string: everything before the first "?". */
  function PathOf(href: string): string
  {
    if '?' in href then href[..IndexOf(href, '?')] else href
  }

  /** The query of a `pathname + search` string: everything after the first "?". */
  function QueryOf(href: string): string
  {
    if '?' in href then href[IndexOf(href, '?') + 1..] else ""
  }

  /** A path without "?" and a plain list read back from `pathname + search`. */
  lemma {:induction false} PathAndSearch(path: string, q: seq<Param>)
    requires '?' !in path
    requires Plain(q)
    ensures PathOf(path + Search(q)) == path
    ensures ParseQuery(QueryOf(path + Search(q))) == q
  {
    if q == [] {
      assert path + Search(q) == path;
      assert ParseQuery("") == [] by { assert Split([], '&') == [[]]; }
    } else {
      var href := path + Search(q);
      assert href == path + ['?'] + Serialize(q);
      IndexOfAfter(path, '?', Serialize(q));
      assert href[..|path|] == path;
      assert href[|path| + 1..] == Serialize(q);
      ParseSerialize(q);
    }
  }
}
