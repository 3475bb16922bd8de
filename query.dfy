/**
 * Request links of the paged fetch: the base link, `?`, then `name=value&`
 * for every parameter with a value, in the order of the parameter map.
 * The discovery request drops the last character; a page request appends
 * `page=N`. `Parse` reads a query string back and is the partner of the
 * builder: building then parsing gives back the present parameters.
 */
module Query {
  import opened Wrappers
  import Decoders

  /** One entry of the ordered parameter map; `None` stands for Python's None. */
  datatype Param = Param(name: string, value: Option<string>)

  /** The text one parameter contributes to the query string. */
  function Piece(p: Param): string
  {
    if p.value.Some? then p.name + "=" + p.value.value + "&" else ""
  }

  /** The parameters that have a value, in map order, as (name, value) pairs. */
  function Present(params: seq<Param>): seq<(string, string)>
  {
    if params == [] then []
    else (if params[0].value.Some? then [(params[0].name, params[0].value.value)] else []) + Present(params[1..])
  }

  /** The query string built from the parameters. */
  function Rendered(params: seq<Param>): string
  {
    if params == [] then "" else Piece(params[0]) + Rendered(params[1..])
  }

  /** Names carry neither `=` nor `&`; values carry no `&`. */
  predicate Clean(params: seq<Param>)
  {
    forall i | 0 <= i < |params| ::
      '=' !in params[i].name && '&' !in params[i].name
      && (params[i].value.Some? ==> '&' !in params[i].value.value)
  }

  /** Index of the first `c` in `s`, or `|s|` when there is none. */
  function IndexOf(s: string, c: char): (i: nat)
    ensures i <= |s|
  {
    if s == [] then 0 else if s[0] == c then 0 else 1 + IndexOf(s[1..], c)
  }

  /** `IndexOf` finds the first occurrence, and `|s|` when there is none. */
  lemma {:induction false} IndexOfFirst(s: string, c: char, i: nat)
    requires i <= |s| && (i < |s| ==> s[i] == c)
    requires forall j | 0 <= j < i :: s[j] != c
    ensures IndexOf(s, c) == i
  {
    if s != [] && i > 0 {
      assert forall j | 0 <= j < i - 1 :: s[1..][j] != c by {
        forall j | 0 <= j < i - 1 ensures s[1..][j] != c { assert s[1..][j] == s[j + 1]; }
      }
      IndexOfFirst(s[1..], c, i - 1);
    }
  }

  /** Splits a query string at `&` and each segment at its first `=`. */
  function Parse(q: string): seq<(string, string)>
    decreases |q|
  {
    if q == [] then []
    else
      var amp := IndexOf(q, '&');
      var seg := q[..amp];
      var eq := IndexOf(seg, '=');
      [(seg[..eq], if eq < |seg| then seg[eq + 1..] else "")]
      + (if amp < |q| then Parse(q[amp + 1..]) else [])
  }

  /** The decimal text of a page number, as `str` writes it. */
  function NatText(n: nat): (s: string)
    ensures |s| > 0
    ensures forall i | 0 <= i < |s| :: '0' <= s[i] <= '9'
  {
    if n < 10 then ['0' + n as char] else NatText(n / 10) + ['0' + (n % 10) as char]
  }

  /** The page text reads back as the page number: `int(str(n)) == n`. */
  lemma {:induction false} NatTextValue(n: nat)
    ensures Decoders.ParseInt(NatText(n)) == Some(n)
  {
    var s := NatText(n);
    if n >= 10 {
      NatTextValue(n / 10);
      assert s[..|s| - 1] == NatText(n / 10);
      assert Decoders.DigitsValue(s) == Decoders.DigitsValue(NatText(n / 10)) * 10 + n % 10;
    }
  }

  /** The link built before any request: base link, `?` and the query string. */
  function RequestLink(link: string, params: seq<Param>): string
  {
    link + "?" + Rendered(params)
  }

  /** The discovery request: the request link without its last character. */
  function DiscoveryLink(link: string, params: seq<Param>): string
  {
    var rq := RequestLink(link, params);
    rq[..|rq| - 1]
  }

  /** The request for one page. */
  function PageLink(link: string, params: seq<Param>, page: nat): string
  {
    RequestLink(link, params) + "page=" + NatText(page)
  }

  /** Builds the request link as the source's loop does, one parameter at a time. */
  method BuildRequestLink(link: string, params: seq<Param>) returns (rq: string)
    ensures rq == RequestLink(link, params)
  {
    var head := link + "?";
    rq := head;
    for i := 0 to |params|
      invariant rq == head + Rendered(params[..i])
    {
      var p := params[i];
      RenderedSnoc(params[..i], p);
      assert params[..i + 1] == params[..i] + [p];
      if p.value.Some? {
        var before := rq;
        rq := rq + p.name + "=" + p.value.value + "&";
        assert rq == before + Piece(p);
        Associate(head, Rendered(params[..i]), Piece(p));
      }
    }
    assert params[..|params|] == params;
  }

  lemma {:induction false} RenderedSnoc(params: seq<Param>, p: Param)
    ensures Rendered(params + [p]) == Rendered(params) + Piece(p)
  {
    if params == [] {
      assert [p][1..] == [];
    } else {
      assert (params + [p])[1..] == params[1..] + [p];
      RenderedSnoc(params[1..], p);
    }
  }

  lemma ParsePiece(q: string, name: string, value: string, tail: string)
    requires '=' !in name && '&' !in name && '&' !in value
    requires q == name + "=" + value + "&" + tail
    ensures Parse(q) == [(name, value)] + Parse(tail)
  {
    var amp := IndexOf(q, '&');
    assert q[|name + "=" + value|] == '&';
    assert forall j | 0 <= j < |name + "=" + value| :: q[j] != '&' by {
      forall j | 0 <= j < |name + "=" + value| ensures q[j] != '&' {
        if j < |name| { assert q[j] == name[j]; }
        else if j > |name| { assert q[j] == value[j - |name| - 1]; }
      }
    }
    IndexOfFirst(q, '&', |name + "=" + value|);
    var seg := q[..amp];
    assert seg == name + "=" + value;
    var eq := IndexOf(seg, '=');
    assert seg[|name|] == '=';
    assert forall j | 0 <= j < |name| :: seg[j] == name[j];
    IndexOfFirst(seg, '=', |name|);
    assert seg[..eq] == name;
    assert seg[eq + 1..] == value;
    assert q[amp + 1..] == tail;
  }

  lemma CleanTail(params: seq<Param>)
    requires params != [] && Clean(params)
    ensures Clean(params[1..])
    ensures '=' !in params[0].name && '&' !in params[0].name
    ensures params[0].value.Some? ==> '&' !in params[0].value.value
  {
    forall i | 0 <= i < |params[1..]| ensures
      '=' !in params[1..][i].name && '&' !in params[1..][i].name
      && (params[1..][i].value.Some? ==> '&' !in params[1..][i].value.value)
    {
      assert params[1..][i] == params[i + 1];
    }
  }

  /**
   * Parsing a built query string followed by any tail gives the present
   * parameters, in map order, followed by whatever the tail parses to.
   */
  lemma {:induction false} ParseRendered(params: seq<Param>, tail: string)
    requires Clean(params)
    ensures Parse(Rendered(params) + tail) == Present(params) + Parse(tail)
  {
    if params == [] {
      assert Rendered(params) + tail == tail;
    } else {
      CleanTail(params);
      ParseRendered(params[1..], tail);
      if params[0].value.Some? {
        RenderedCons(params, tail);
        ParsePiece(Rendered(params) + tail, params[0].name, params[0].value.value, Rendered(params[1..]) + tail);
        Associate([(params[0].name, params[0].value.value)], Present(params[1..]), Parse(tail));
      } else {
        RenderedSkip(params, tail);
      }
    }
  }

  lemma Associate<T>(a: seq<T>, b: seq<T>, c: seq<T>)
    ensures a + (b + c) == (a + b) + c
  {
  }

  lemma DropHead<T>(head: seq<T>, rest: seq<T>)
    ensures (head + rest)[|head|..] == rest
  {
  }

  lemma RenderedSkip(params: seq<Param>, tail: string)
    requires params != [] && params[0].value.None?
    ensures Rendered(params) + tail == Rendered(params[1..]) + tail
    ensures Present(params) == Present(params[1..])
  {
    assert Piece(params[0]) == "";
    assert Rendered(params) == Rendered(params[1..]);
  }

  lemma RenderedCons(params: seq<Param>, tail: string)
    requires params != [] && params[0].value.Some?
    ensures Rendered(params) + tail
         == params[0].name + "=" + params[0].value.value + "&" + (Rendered(params[1..]) + tail)
    ensures Present(params) == [(params[0].name, params[0].value.value)] + Present(params[1..])
  {
    var p := params[0];
    assert Rendered(params) == Piece(p) + Rendered(params[1..]);
    assert Piece(p) == p.name + "=" + p.value.value + "&";
  }

  /** The page segment alone parses to the single pair ("page", N). */
  lemma ParsePageSegment(page: nat)
    ensures Parse("page=" + NatText(page)) == [("page", NatText(page))]
  {
    var t := "page=" + NatText(page);
    var amp := IndexOf(t, '&');
    assert forall j | 0 <= j < |t| :: t[j] != '&' by {
      forall j | 0 <= j < |t| ensures t[j] != '&' {
        if j >= 5 { assert t[j] == NatText(page)[j - 5]; }
      }
    }
    IndexOfFirst(t, '&', |t|);
    assert t[..amp] == t;
    var eq := IndexOf(t, '=');
    assert t[4] == '=';
    IndexOfFirst(t, '=', 4);
    assert t[..4] == "page";
    assert t[5..] == NatText(page);
  }

  /** Building then parsing gives back exactly the parameters that have a value. */
  lemma QueryRoundTrip(params: seq<Param>)
    requires Clean(params)
    ensures Parse(Rendered(params)) == Present(params)
  {
    ParseRendered(params, "");
    assert Rendered(params) + "" == Rendered(params);
  }

  /**
   * A page request carries, after the base link and `?`, every present
   * parameter once, in map order, followed by the page segment, whose value
   * reads back as the page number.
   */
  lemma PageQueryRoundTrip(link: string, params: seq<Param>, page: nat)
    requires Clean(params)
    ensures Parse(PageLink(link, params, page)[|link| + 1..]) == Present(params) + [("page", NatText(page))]
    ensures Decoders.ParseInt(NatText(page)) == Some(page)
  {
    var t := "page=" + NatText(page);
    ParseRendered(params, t);
    ParsePageSegment(page);
    NatTextValue(page);
    var head, r := link + "?", Rendered(params);
    Associate(head + r, "page=", NatText(page));
    Associate(head, r, t);
    DropHead(head, r + t);
  }

  /** The query string is empty exactly when no parameter has a value, and otherwise ends in `&`. */
  lemma {:induction false} RenderedShape(params: seq<Param>)
    ensures Rendered(params) == [] <==> Present(params) == []
    ensures Rendered(params) != [] ==> Rendered(params)[|Rendered(params)| - 1] == '&'
  {
    if params != [] {
      RenderedShape(params[1..]);
    }
  }

  /**
   * The discovery request is the base link alone when no parameter has a
   * value, and otherwise the request link without its final `&`.
   */
  lemma DiscoveryDropsSeparator(link: string, params: seq<Param>)
    ensures Present(params) == [] ==> DiscoveryLink(link, params) == link
    ensures Present(params) != [] ==>
      DiscoveryLink(link, params) + "&" == RequestLink(link, params)
  {
    RenderedShape(params);
    var rq := RequestLink(link, params);
    if Present(params) == [] {
      assert rq == link + "?";
    } else {
      assert rq[|rq| - 1] == Rendered(params)[|Rendered(params)| - 1];
      assert rq[..|rq| - 1] + [rq[|rq| - 1]] == rq;
    }
  }
}
