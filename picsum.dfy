/**
 * The Picsum list API client of `Pager/Picsum.swift`: page links, link
 * selection, the first-page request and the link-header parser built on an
 * `NSRegularExpression`. The network call itself is not modelled: a fetch is
 * an outcome handed to the list models.
 */
module Picsum {
  import opened Outcomes
  import opened Urls
  import Decimal

  /** `Pagination.Relation`, whose raw values are the case names. */
  datatype Relation = First | Last | Next | Prev {
    function RawValue(): string {
      match this
      case First => "first"
      case Last => "last"
      case Next => "next"
      case Prev => "prev"
    }
  }

  /** `Relation(rawValue:)`: the relation whose raw value is `raw`, if any. */
  function RelationFromRaw(raw: string): (r: Option<Relation>)
    ensures r.Some? <==> raw in {"first", "last", "next", "prev"}
    ensures r.Some? ==> r.value.RawValue() == raw
    ensures forall rel: Relation :: rel.RawValue() == raw ==> r == Some(rel)
  {
    if raw == "first" then Some(First)
    else if raw == "last" then Some(Last)
    else if raw == "next" then Some(Next)
    else if raw == "prev" then Some(Prev)
    else None
  }

  /** Each relation's raw value reads back as that relation, so no two relations share one. */
  lemma RawValueRoundTrip(rel: Relation)
    ensures RelationFromRaw(rel.RawValue()) == Some(rel)
  {
  }

  /** A page link: a URL (kept as the text `URL(string:)` accepted) and its relation. */
  datatype Pagination = Pagination(url: string, relation: Relation) {
    /** `isNext`: the link's relation text is `next`. */
    predicate IsNext()
      ensures IsNext() <==> relation.RawValue() == "next"
    {
      relation == Next
    }
  }

  /**
   * `Pagination(urlString:relString:)`: fails unless the relation text is one
   * of the four raw values and `URL(string:)`, here `isURL`, accepts the URL.
   */
  function PaginationFrom(urlString: string, relString: string, isURL: string -> bool): (p: Option<Pagination>)
    ensures p.Some? <==> relString in {"first", "last", "next", "prev"} && isURL(urlString)
    ensures p.Some? ==> p.value.url == urlString && p.value.relation.RawValue() == relString
  {
    match RelationFromRaw(relString)
    case None => None
    case Some(relation) => if isURL(urlString) then Some(Pagination(urlString, relation)) else None
  }

  /** `PicsumAPI.Metadata`: one image record of a list page. */
  datatype Metadata = Metadata(id: string, author: string, width: int, height: int, url: Url, downloadURL: Url)

  /** `PicsumAPI.Response`: the page links of the `Link` header and the decoded list. */
  datatype Response = Response(pageInfo: seq<Pagination>, list: seq<Metadata>)

  /** `item.id == items.last?.id`: the item has the id of the last item, so the list is not empty. */
  predicate IsLastItem(items: seq<Metadata>, item: Metadata) {
    |items| > 0 && items[|items| - 1].id == item.id
  }

  /**
   * With the distinct ids a SwiftUI list of `Identifiable` items relies on,
   * the `items.last?.id` guard passes for the last item and for no other.
   */
  lemma LastItemOnly(items: seq<Metadata>, i: nat)
    requires i < |items|
    requires forall j, k :: 0 <= j < k < |items| ==> items[j].id != items[k].id
    ensures IsLastItem(items, items[i]) <==> i == |items| - 1
  {
  }

  /** `pageInfo.first(where: { $0.relation == rel })`. */
  function SelectPage(pageInfo: seq<Pagination>, rel: Relation): (r: Option<Pagination>)
    ensures r.None? <==> forall i :: 0 <= i < |pageInfo| ==> pageInfo[i].relation != rel
    ensures r.Some? ==> exists i :: 0 <= i < |pageInfo| && pageInfo[i] == r.value && FirstWith(pageInfo, rel, i)
  {
    if pageInfo == [] then None
    else if pageInfo[0].relation == rel then
      assert FirstWith(pageInfo, rel, 0);
      Some(pageInfo[0])
    else
      var r := SelectPage(pageInfo[1..], rel);
      assert r.Some? ==> exists i :: 0 < i < |pageInfo| && pageInfo[i] == r.value && FirstWith(pageInfo, rel, i) by {
        if r.Some? {
          var i :| 0 <= i < |pageInfo[1..]| && pageInfo[1..][i] == r.value && FirstWith(pageInfo[1..], rel, i);
          assert FirstWith(pageInfo, rel, i + 1);
        }
      }
      r
  }

  /** Entry `i` is the first with relation `rel`. */
  ghost predicate FirstWith(pageInfo: seq<Pagination>, rel: Relation, i: int)
    requires 0 <= i < |pageInfo|
  {
    pageInfo[i].relation == rel && forall j :: 0 <= j < i ==> pageInfo[j].relation != rel
  }

  /**
   * The URL `fetchList(_ pageInfo:rel:)` requests: that of the first link with
   * relation `rel`; without one it throws `URLError(.badURL)` before any request.
   */
  function PageURL(pageInfo: seq<Pagination>, rel: Relation): (r: Result<string>)
    ensures r.Err? <==> forall i :: 0 <= i < |pageInfo| ==> pageInfo[i].relation != rel
    ensures r.Err? ==> r.error == BadURL
    ensures r.Ok? ==> exists i :: 0 <= i < |pageInfo| && pageInfo[i].url == r.value && FirstWith(pageInfo, rel, i)
  {
    match SelectPage(pageInfo, rel)
    case None => Err(BadURL)
    case Some(page) => Ok(page.url)
  }

  /** The page and limit `fetchList(page:limit:)` uses by default. */
  const DefaultPage: int := 10
  const DefaultLimit: int := 5

  /** `https://picsum.photos/v2/list`. */
  const ListURL: Url := Url("https://picsum.photos", ["v2", "list"], [])

  /**
   * The URL `fetchList(page:limit:)` requests: the list URL with the query
   * items `page` and `limit`, whose values read back as the two numbers.
   */
  function FirstPageURL(page: int, limit: int): (r: Url)
    ensures r.origin == ListURL.origin && r.path == ListURL.path
    ensures |r.query| == 2 && r.query[0].name == "page" && r.query[1].name == "limit"
    ensures r.query[0].value.Some? && Decimal.ParseInt(r.query[0].value.value) == Some(page)
    ensures r.query[1].value.Some? && Decimal.ParseInt(r.query[1].value.value) == Some(limit)
  {
    Decimal.IntToStringRoundTrip(page);
    Decimal.IntToStringRoundTrip(limit);
    AppendingQueryItems(ListURL, [
      QueryItem("page", Some(Decimal.IntToString(page))),
      QueryItem("limit", Some(Decimal.IntToString(limit)))])
  }

  // ---------------------------------------------------------------------------
  // Link headers

  /** The text between the url and the relation in a link value. */
  const Delimiter: string := ">; rel=\""

  /** A link value as a server writes it: `<url>; rel="relation"`. */
  function LinkValue(l: Pagination): string {
    "<" + l.url + Delimiter + l.relation.RawValue() + "\""
  }

  /** A `Link` header listing `links` in order, separated by ", ". */
  function LinkHeader(links: seq<Pagination>): string
    decreases |links|
  {
    if links == [] then ""
    else if |links| == 1 then LinkValue(links[0])
    else LinkValue(links[0]) + (", " + LinkHeader(links[1..]))
  }

  /** One regex match: the `url` and `rel` captures and the length of the match. */
  datatype LinkMatch = LinkMatch(url: string, rel: string, end: nat)

  /** The `compactMap` over the matches: links whose captures make a `Pagination`, in order. */
  function Paginations(ms: seq<LinkMatch>, isURL: string -> bool): (r: seq<Pagination>)
    ensures |r| <= |ms|
    decreases |ms|
  {
    if ms == [] then []
    else
      match PaginationFrom(ms[0].url, ms[0].rel, isURL)
      case Some(p) => [p] + Paginations(ms[1..], isURL)
      case None => Paginations(ms[1..], isURL)
  }

  lemma {:induction false} PaginationsAppend(a: seq<LinkMatch>, b: seq<LinkMatch>, isURL: string -> bool)
    ensures Paginations(a + b, isURL) == Paginations(a, isURL) + Paginations(b, isURL)
    decreases |a|
  {
    if a == [] {
      assert a + b == b;
    } else {
      assert (a + b)[0] == a[0] && (a + b)[1..] == a[1..] + b;
      PaginationsAppend(a[1..], b, isURL);
      match PaginationFrom(a[0].url, a[0].rel, isURL)
      case Some(p) =>
        calc {
          Paginations(a + b, isURL);
          [p] + Paginations(a[1..] + b, isURL);
          [p] + (Paginations(a[1..], isURL) + Paginations(b, isURL));
          ([p] + Paginations(a[1..], isURL)) + Paginations(b, isURL);
        }
      case None =>
    }
  }

  /** `Delimiter` occurs in `s` at index `k`. */
  predicate DelimiterAt(s: string, k: nat) {
    k + |Delimiter| <= |s| && s[k..k + |Delimiter|] == Delimiter
  }

  /** `\w`, restricted to ASCII. */
  predicate IsWordChar(c: char) {
    'a' <= c <= 'z' || 'A' <= c <= 'Z' || '0' <= c <= '9' || c == '_'
  }

  /** The characters ICU's `.` does not match without `dotMatchesLineSeparators`. */
  predicate IsLineTerminator(c: char) {
    c == '\n' || c == '\r' || c == '\U{000B}' || c == '\U{000C}' || c == '\U{0085}' || c == '\U{2028}' || c == '\U{2029}'
  }

  predicate NoLineTerminator(s: string) {
    forall i :: 0 <= i < |s| ==> !IsLineTerminator(s[i])
  }

  // The pattern `<(?<url>http[|s]://[\d\w].*?)>; rel="(?<rel>[\w].*?)"`.
  // `[|s]` is a one-character class, so the scheme is `https` or the literal
  // `http|`; `.` does not cross a line terminator; both `.*?` are lazy.

  /** `http[|s]://` at index `i`, character by character. */
  predicate SchemeAt(s: string, i: nat) {
    && i + 8 <= |s|
    && s[i] == 'h' && s[i + 1] == 't' && s[i + 2] == 't' && s[i + 3] == 'p'
    && (s[i + 4] == 's' || s[i + 4] == '|')
    && s[i + 5] == ':' && s[i + 6] == '/' && s[i + 7] == '/'
  }

  /** What the url capture of the pattern accepts. */
  predicate LegacyUrlShape(u: string) {
    && |u| >= 9
    && SchemeAt(u, 0)
    && IsWordChar(u[8])
    && NoLineTerminator(u)
  }

  /** The scheme as text: `https://` or `http|://`. */
  lemma SchemePrefix(u: string)
    requires SchemeAt(u, 0)
    ensures u[..8] == "https://" || u[..8] == "http|://"
  {
    if u[4] == 's' {
      assert u[..8] == "https://";
    } else {
      assert u[..8] == "http|://";
    }
  }

  /** What the rel capture accepts once the lazy `.*?` has stopped at the first quote. */
  predicate LegacyRelShape(r: string) {
    && |r| >= 1
    && IsWordChar(r[0])
    && NoLineTerminator(r)
    && '"' !in r
  }

  /** The lazy `.*?"` ending the rel capture, from index `j`: the index of the quote that ends it. */
  function QuoteFrom(s: string, j: nat): (q: Option<nat>)
    ensures q.Some? ==> j <= q.value < |s| && s[q.value] == '"'
    ensures q.Some? ==> forall i :: j <= i < q.value ==> s[i] != '"' && !IsLineTerminator(s[i])
    decreases |s| - j
  {
    if j >= |s| then None
    else if s[j] == '"' then Some(j)
    else if IsLineTerminator(s[j]) then None
    else QuoteFrom(s, j + 1)
  }

  /** `(?<rel>[\w].*?)"` at index `r0`: the index of the closing quote. */
  function LegacyRelEnd(s: string, r0: nat): (q: Option<nat>)
    ensures q.Some? ==> r0 < q.value < |s| && s[q.value] == '"' && IsWordChar(s[r0])
    ensures q.Some? ==> forall i :: r0 < i < q.value ==> s[i] != '"' && !IsLineTerminator(s[i])
  {
    if r0 < |s| && IsWordChar(s[r0]) then QuoteFrom(s, r0 + 1) else None
  }

  /** The text the rel scan captures has the shape of the rel capture. */
  lemma LegacyRelCaptureShape(s: string, r0: nat, q: nat)
    requires LegacyRelEnd(s, r0) == Some(q)
    ensures LegacyRelShape(s[r0..q])
  {
    var r := s[r0..q];
    assert forall i :: 0 <= i < |r| ==> r[i] == s[r0 + i];
  }

  /**
   * The lazy `.*?` of the url capture, tried at end index `k` and onwards: the
   * first `k` at which the delimiter and a relation follow, with the index of
   * the relation's closing quote.
   */
  function LegacyUrlEnd(s: string, k: nat): (r: Option<(nat, nat)>)
    requires k <= |s|
    ensures r.Some? ==> k <= r.value.0 && DelimiterAt(s, r.value.0)
    ensures r.Some? ==> LegacyRelEnd(s, r.value.0 + |Delimiter|) == Some(r.value.1)
    ensures r.Some? ==> forall i :: k <= i < r.value.0 ==> !IsLineTerminator(s[i])
    decreases |s| - k
  {
    if DelimiterAt(s, k) && LegacyRelEnd(s, k + |Delimiter|).Some? then
      Some((k, LegacyRelEnd(s, k + |Delimiter|).value))
    else if k < |s| && !IsLineTerminator(s[k]) then
      LegacyUrlEnd(s, k + 1)
    else None
  }

  /** `<http[|s]://[\d\w]`: the fixed start of the pattern, up to the first character of the host. */
  predicate LegacyHeadAt(s: string) {
    |s| >= 10 && s[0] == '<' && SchemeAt(s, 1) && IsWordChar(s[9])
  }

  /** The match of the pattern starting at the first character of `s`, if any. */
  function LegacyMatchAt(s: string): (m: Option<LinkMatch>)
    ensures m.Some? ==> 0 < m.value.end <= |s|
  {
    if LegacyHeadAt(s) then
      match LegacyUrlEnd(s, 10)
      case None => None
      case Some((k, q)) => Some(LinkMatch(s[1..k], s[k + |Delimiter|..q], q + 1))
    else None
  }

  /** `matches(in:options:range:)`: the successive non-overlapping leftmost matches. */
  function LegacyMatches(s: string): (r: seq<LinkMatch>)
    ensures |r| <= |s|
    decreases |s|
  {
    if s == [] then []
    else
      match LegacyMatchAt(s)
      case Some(m) => [m] + LegacyMatches(s[m.end..])
      case None => LegacyMatches(s[1..])
  }

  /** `parsePagination(from:)`: the recognised links of the header, in order. */
  function ParsePagination(s: string, isURL: string -> bool): (r: seq<Pagination>)
    ensures |r| <= |s|
  {
    Paginations(LegacyMatches(s), isURL)
  }

  /** Proof step (sequence algebra) for `LegacyMatchText` and `ImagesPicsum.RelMatchSound`: cutting a string at four ascending indices. */
  lemma Split5(s: string, a: nat, b: nat, c: nat, d: nat, e: nat)
    requires a <= b <= c <= d <= e <= |s|
    ensures s[..e] == s[..a] + s[a..b] + s[b..c] + s[c..d] + s[d..e]
  {
    assert s[..b] == s[..a] + s[a..b];
    assert s[..c] == s[..b] + s[b..c];
    assert s[..d] == s[..c] + s[c..d];
    assert s[..e] == s[..d] + s[d..e];
  }

  /** A match is the text `<url>; rel="rel"` with captures of the pattern's shape. */
  lemma LegacyMatchSound(s: string)
    requires LegacyMatchAt(s).Some?
    ensures var m := LegacyMatchAt(s).value;
      && s[..m.end] == "<" + m.url + Delimiter + m.rel + "\""
      && LegacyUrlShape(m.url) && LegacyRelShape(m.rel)
  {
    var k, q := LegacyUrlEnd(s, 10).value.0, LegacyUrlEnd(s, 10).value.1;
    var r0 := k + |Delimiter|;
    assert LegacyRelEnd(s, r0) == Some(q);
    LegacyRelCaptureShape(s, r0, q);
    MatchAtFromEnds(s, k, q);
    LegacyMatchText(s, k, q);
    LegacyUrlCaptureShape(s, k, q);
  }

  /** The text of a match is `<`, the url, the delimiter, the relation and the closing quote. */
  lemma LegacyMatchText(s: string, k: nat, q: nat)
    requires s != [] && s[0] == '<' && 1 <= k && DelimiterAt(s, k)
    requires k + |Delimiter| <= q < |s| && s[q] == '"'
    ensures s[..q + 1] == "<" + s[1..k] + Delimiter + s[k + |Delimiter|..q] + "\""
  {
    Split5(s, 1, k, k + |Delimiter|, q, q + 1);
    assert s[..1] == "<";
    assert s[q..q + 1] == "\"";
  }

  /** The url capture of a match has the shape `http[|s]://[\d\w]` followed by no line terminator. */
  lemma LegacyUrlCaptureShape(s: string, k: nat, q: nat)
    requires LegacyHeadAt(s) && LegacyUrlEnd(s, 10) == Some((k, q))
    ensures LegacyUrlShape(s[1..k])
  {
    var u := s[1..k];
    LegacyHeadShift(s, k);
    forall i | 9 <= i < |u|
      ensures !IsLineTerminator(u[i])
    {
      assert u[i] == s[1 + i];
    }
  }

  /** The head of a match, read from the url capture onwards. */
  lemma LegacyHeadShift(s: string, k: nat)
    requires LegacyHeadAt(s) && 10 <= k <= |s|
    ensures SchemeAt(s[1..k], 0) && IsWordChar(s[1..k][8])
    ensures forall i :: 0 <= i < 9 ==> !IsLineTerminator(s[1..k][i])
  {
    var u := s[1..k];
    assert forall i :: 0 <= i < 9 ==> u[i] == s[1 + i];
  }


  /** A link a server may send that the pattern reads back whole. */
  predicate LegacyWellFormed(l: Pagination) {
    LegacyUrlShape(l.url) && '>' !in l.url
  }

  lemma {:induction false} QuoteFromScan(s: string, j: nat, q: nat)
    requires j <= q < |s| && s[q] == '"'
    requires forall i :: j <= i < q ==> s[i] != '"' && !IsLineTerminator(s[i])
    ensures QuoteFrom(s, j) == Some(q)
    decreases q - j
  {
    if j < q {
      QuoteFromScan(s, j + 1, q);
    }
  }

  /** The lazy rel scan fails only when a line terminator comes before every later quote. */
  lemma {:induction false} QuoteFromNone(s: string, j: nat)
    requires QuoteFrom(s, j).None?
    ensures forall q :: j <= q < |s| && s[q] == '"' ==> exists i :: j <= i < q && IsLineTerminator(s[i])
    decreases |s| - j
  {
    if j < |s| && !IsLineTerminator(s[j]) {
      QuoteFromNone(s, j + 1);
    }
  }

  lemma {:induction false} LegacyUrlEndScan(s: string, k: nat, end: nat)
    requires k <= end && DelimiterAt(s, end) && LegacyRelEnd(s, end + |Delimiter|).Some?
    requires forall i :: k <= i < end ==> s[i] != '>' && !IsLineTerminator(s[i])
    ensures LegacyUrlEnd(s, k) == Some((end, LegacyRelEnd(s, end + |Delimiter|).value))
    decreases end - k
  {
    if k < end {
      assert !DelimiterAt(s, k) by {
        if k + |Delimiter| <= |s| {
          assert s[k..k + |Delimiter|][0] == s[k];
        }
      }
      LegacyUrlEndScan(s, k + 1, end);
    }
  }

  /** `s` starts with the link value `<u>; rel="r"`, read character by character. */
  predicate LinkValueAt(s: string, u: string, r: string) {
    var end := 1 + |u|;
    var q := end + |Delimiter| + |r|;
    && q < |s| && s[0] == '<' && s[1..end] == u && DelimiterAt(s, end)
    && s[end + |Delimiter|..q] == r && s[q] == '"'
  }

  /** Where the parts of the text `<u>; rel="r"` followed by `rest` sit. */
  lemma LinkTextParts(u: string, r: string, rest: string)
    ensures |"<" + u + Delimiter + r + "\""| == |u| + |Delimiter| + |r| + 2
    ensures LinkValueAt("<" + u + Delimiter + r + "\"" + rest, u, r)
  {
    var s := "<" + u + Delimiter + r + "\"" + rest;
    var end, q := 1 + |u|, 1 + |u| + |Delimiter| + |r|;
    assert s == ("<" + u) + Delimiter + r + "\"" + rest;
    assert s[..end] == "<" + u;
    assert s[1..end] == s[..end][1..];
    assert s[end..end + |Delimiter|] == Delimiter;
    assert s[end + |Delimiter|..q] == r;
  }

  /** Where the parts of a link value followed by `rest` sit. */
  lemma LinkValueParts(l: Pagination, rest: string)
    ensures |LinkValue(l)| == |l.url| + |Delimiter| + |l.relation.RawValue()| + 2
    ensures LinkValueAt(LinkValue(l) + rest, l.url, l.relation.RawValue())
  {
    LinkTextParts(l.url, l.relation.RawValue(), rest);
  }

  lemma LegacyRelEndAt(s: string, r0: nat, q: nat)
    requires r0 < q < |s| && s[q] == '"' && LegacyRelShape(s[r0..q])
    ensures LegacyRelEnd(s, r0) == Some(q)
  {
    var r := s[r0..q];
    assert forall i :: r0 <= i < q ==> s[i] == r[i - r0];
    QuoteFromScan(s, r0 + 1, q);
  }

  /** The lazy url capture of `<u>; rel="r"` stops right after `u`. */
  lemma LegacyUrlEndParts(s: string, u: string, r: string)
    requires LinkValueAt(s, u, r)
    requires LegacyUrlShape(u) && '>' !in u && LegacyRelShape(r)
    ensures LegacyUrlEnd(s, 10) == Some((1 + |u|, 1 + |u| + |Delimiter| + |r|))
  {
    var end, q := 1 + |u|, 1 + |u| + |Delimiter| + |r|;
    LegacyRelEndAt(s, end + |Delimiter|, q);
    forall i | 10 <= i < end
      ensures s[i] != '>' && !IsLineTerminator(s[i])
    {
      assert s[i] == s[1..end][i - 1];
    }
    LegacyUrlEndScan(s, 10, end);
  }

  /** The fixed start of the pattern, up to the first character after `://`. */
  lemma LegacyHeadParts(s: string, u: string, r: string)
    requires LinkValueAt(s, u, r) && LegacyUrlShape(u)
    ensures LegacyHeadAt(s)
  {
    assert forall i :: 1 <= i <= |u| ==> s[i] == s[1..1 + |u|][i - 1];
  }

  /** `<u>; rel="r"` is matched whole when `u` and `r` have the shapes the pattern reads back. */
  lemma LegacyMatchesParts(s: string, u: string, r: string, n: nat)
    requires LinkValueAt(s, u, r) && n == |u| + |Delimiter| + |r| + 2
    requires LegacyUrlShape(u) && '>' !in u && LegacyRelShape(r)
    ensures LegacyMatchAt(s) == Some(LinkMatch(u, r, n))
  {
    LegacyHeadParts(s, u, r);
    LegacyUrlEndParts(s, u, r);
    MatchAtFromParts(s, u, r, n);
  }

  lemma MatchAtFromEnds(s: string, end: nat, q: nat)
    requires LegacyHeadAt(s) && LegacyUrlEnd(s, 10) == Some((end, q))
    ensures LegacyMatchAt(s) == Some(LinkMatch(s[1..end], s[end + |Delimiter|..q], q + 1))
  {
  }

  lemma MatchAtFromParts(s: string, u: string, r: string, n: nat)
    requires LinkValueAt(s, u, r) && LegacyHeadAt(s) && n == |u| + |Delimiter| + |r| + 2
    requires LegacyUrlEnd(s, 10) == Some((1 + |u|, 1 + |u| + |Delimiter| + |r|))
    ensures LegacyMatchAt(s) == Some(LinkMatch(u, r, n))
  {
    var end, q := 1 + |u|, 1 + |u| + |Delimiter| + |r|;
    MatchAtFromEnds(s, end, q);
    assert s[1..end] == u && s[end + |Delimiter|..q] == r;
  }

  lemma RawValueShape(rel: Relation)
    ensures LegacyRelShape(rel.RawValue()) && ',' !in rel.RawValue()
  {
  }

  /** A well-formed link value is matched whole, whatever follows it. */
  lemma LegacyMatchesLinkValue(l: Pagination, rest: string)
    requires LegacyWellFormed(l)
    ensures LegacyMatchAt(LinkValue(l) + rest) == Some(LinkMatch(l.url, l.relation.RawValue(), |LinkValue(l)|))
  {
    var raw := l.relation.RawValue();
    RawValueShape(l.relation);
    LinkValueParts(l, rest);
    LegacyMatchesParts(LinkValue(l) + rest, l.url, raw, |LinkValue(l)|);
  }

  /** A segment `<x>` cannot start a match: a url must begin with `http`. */
  lemma LegacyAngleSegmentNoMatch(b: Pagination)
    ensures LegacyMatchAt("<x>, " + LinkValue(b)).None?
  {
    var s := "<x>, " + LinkValue(b);
    assert s[1] == 'x';
  }

  /** Text without a `<` holds no match and is skipped. */
  lemma {:induction false} LegacyMatchesSkip(junk: string, rest: string)
    requires '<' !in junk
    ensures LegacyMatches(junk + rest) == LegacyMatches(rest)
    decreases |junk|
  {
    if junk == [] {
      assert junk + rest == rest;
    } else {
      var s := junk + rest;
      assert s[0] == junk[0] != '<';
      assert s[1..] == junk[1..] + rest by {
        assert junk == [junk[0]] + junk[1..];
      }
      LegacyMatchesSkip(junk[1..], rest);
    }
  }

  /** Reading back a link value gives the link it was written from. */
  lemma PaginationFromLink(l: Pagination, isURL: string -> bool)
    requires isURL(l.url)
    ensures PaginationFrom(l.url, l.relation.RawValue(), isURL) == Some(l)
  {
  }

  /** The matches after a well-formed link value are that link's match and then those of the rest. */
  lemma LegacyMatchesAfterLinkValue(l: Pagination, rest: string)
    requires LegacyWellFormed(l)
    ensures LegacyMatches(LinkValue(l) + rest) == [LinkMatch(l.url, l.relation.RawValue(), |LinkValue(l)|)] + LegacyMatches(rest)
  {
    LegacyMatchesLinkValue(l, rest);
    assert (LinkValue(l) + rest)[|LinkValue(l)|..] == rest;
  }

  /** A match that makes a link contributes that link ahead of the others. */
  lemma PaginationsCons(m: LinkMatch, ms: seq<LinkMatch>, p: Pagination, isURL: string -> bool)
    requires PaginationFrom(m.url, m.rel, isURL) == Some(p)
    ensures Paginations([m] + ms, isURL) == [p] + Paginations(ms, isURL)
  {
    assert ([m] + ms)[1..] == ms;
  }

  /** A match that makes no link contributes nothing; the links of the others are kept. */
  lemma PaginationsSkip(m: LinkMatch, ms: seq<LinkMatch>, isURL: string -> bool)
    requires PaginationFrom(m.url, m.rel, isURL).None?
    ensures Paginations([m] + ms, isURL) == Paginations(ms, isURL)
  {
    assert ([m] + ms)[1..] == ms;
  }

  /** A header of one link followed by ", " and the header of the rest. */
  lemma LinkHeaderCons(links: seq<Pagination>)
    requires links != []
    ensures LinkHeader(links) == LinkValue(links[0]) + (if |links| == 1 then "" else ", " + LinkHeader(links[1..]))
  {
    if |links| == 1 {
      assert LinkValue(links[0]) + "" == LinkValue(links[0]);
    }
  }

  /** `parsePagination` reads back every header a server writes from well-formed links. */
  lemma {:induction false} LegacyParseLinkHeader(links: seq<Pagination>, isURL: string -> bool)
    requires forall l <- links :: LegacyWellFormed(l) && isURL(l.url)
    ensures ParsePagination(LinkHeader(links), isURL) == links
    decreases |links|
  {
    if links != [] {
      var l := links[0];
      var rest := links[1..];
      assert links == [l] + rest;
      var tail := if |links| == 1 then "" else ", " + LinkHeader(rest);
      var m := LinkMatch(l.url, l.relation.RawValue(), |LinkValue(l)|);
      LinkHeaderCons(links);
      LegacyMatchesAfterLinkValue(l, tail);
      PaginationFromLink(l, isURL);
      PaginationsCons(m, LegacyMatches(tail), l, isURL);
      assert Paginations(LegacyMatches(tail), isURL) == rest by {
        if |links| > 1 {
          LegacyMatchesAfterComma(LinkHeader(rest));
          LegacyParseLinkHeader(rest, isURL);
        }
      }
      calc {
        ParsePagination(LinkHeader(links), isURL);
        Paginations(LegacyMatches(LinkValue(l) + tail), isURL);
        Paginations([m] + LegacyMatches(tail), isURL);
        [l] + Paginations(LegacyMatches(tail), isURL);
        [l] + rest;
        links;
      }
    }
  }

  /** The `, ` between two link values holds no match. */
  lemma LegacyMatchesAfterComma(rest: string)
    ensures LegacyMatches(", " + rest) == LegacyMatches(rest)
  {
    LegacyMatchesSkip(", ", rest);
  }

  /** The text `<u>; rel="r"` is one match, whatever follows it, when `u` and `r` have the shapes the pattern reads back. */
  lemma LegacyLinkTextMatches(u: string, r: string, rest: string)
    requires LegacyUrlShape(u) && '>' !in u && LegacyRelShape(r)
    ensures var seg := "<" + u + Delimiter + r + "\"";
      LegacyMatches(seg + rest) == [LinkMatch(u, r, |seg|)] + LegacyMatches(rest)
  {
    var seg := "<" + u + Delimiter + r + "\"";
    LinkTextParts(u, r, rest);
    LegacyMatchesParts(seg + rest, u, r, |seg|);
    assert (seg + rest)[|seg|..] == rest;
  }

  /**
   * A segment whose relation is not one of the four, or whose url `isURL`
   * rejects, is matched and then dropped by the `compactMap`; the links on
   * both sides of it are kept.
   */
  lemma LegacyDropsUnrecognisedSegment(a: Pagination, b: Pagination, u: string, r: string, isURL: string -> bool)
    requires LegacyWellFormed(a) && isURL(a.url) && LegacyWellFormed(b) && isURL(b.url)
    requires LegacyUrlShape(u) && '>' !in u && LegacyRelShape(r)
    requires PaginationFrom(u, r, isURL).None?
    ensures ParsePagination(LinkValue(a) + ", " + ("<" + u + Delimiter + r + "\"") + ", " + LinkValue(b), isURL) == [a, b]
  {
    var seg := "<" + u + Delimiter + r + "\"";
    var ma := LinkMatch(a.url, a.relation.RawValue(), |LinkValue(a)|);
    var mu := LinkMatch(u, r, |seg|);
    var mb := LegacyMatches(LinkValue(b));
    LegacySegmentBetweenMatches(a, b, u, r);
    LegacySingleLinkParses(b, isURL);
    PaginationFromLink(a, isURL);
    PaginationsSkip(mu, mb, isURL);
    PaginationsCons(ma, [mu] + mb, a, isURL);
  }

  /** Proof step for `LegacyDropsUnrecognisedSegment`: the matches of its header. */
  lemma LegacySegmentBetweenMatches(a: Pagination, b: Pagination, u: string, r: string)
    requires LegacyWellFormed(a)
    requires LegacyUrlShape(u) && '>' !in u && LegacyRelShape(r)
    ensures var seg := "<" + u + Delimiter + r + "\"";
      LegacyMatches(LinkValue(a) + ", " + seg + ", " + LinkValue(b))
      == [LinkMatch(a.url, a.relation.RawValue(), |LinkValue(a)|)] + ([LinkMatch(u, r, |seg|)] + LegacyMatches(LinkValue(b)))
  {
    var seg := "<" + u + Delimiter + r + "\"";
    var tail := ", " + LinkValue(b);
    var rest := ", " + (seg + tail);
    HeaderSplit(LinkValue(a), seg, LinkValue(b));
    LegacyMatchesAfterLinkValue(a, rest);
    LegacyMatchesAfterComma(seg + tail);
    LegacyLinkTextMatches(u, r, tail);
    LegacyMatchesAfterComma(LinkValue(b));
  }

  /** Proof step: how the header `x, seg, y` splits after `x`. */
  lemma HeaderSplit(x: string, seg: string, y: string)
    ensures x + ", " + seg + ", " + y == x + (", " + (seg + (", " + y)))
  {
  }

  /** The relation `foo` is not one of the four: such a segment is dropped and its neighbours kept. */
  lemma LegacyDropsUnknownRelation(a: Pagination, b: Pagination, u: string, isURL: string -> bool)
    requires LegacyWellFormed(a) && isURL(a.url) && LegacyWellFormed(b) && isURL(b.url)
    requires LegacyUrlShape(u) && '>' !in u
    ensures ParsePagination(LinkValue(a) + ", " + ("<" + u + Delimiter + "foo" + "\"") + ", " + LinkValue(b), isURL) == [a, b]
  {
    assert LegacyRelShape("foo") by {
      assert IsWordChar("foo"[0]);
    }
    LegacyDropsUnrecognisedSegment(a, b, u, "foo", isURL);
  }

  /** Proof step: the header of one well-formed link parses back to it. */
  lemma LegacySingleLinkParses(b: Pagination, isURL: string -> bool)
    requires LegacyWellFormed(b) && isURL(b.url)
    ensures Paginations(LegacyMatches(LinkValue(b)), isURL) == [b]
  {
    LegacyParseLinkHeader([b], isURL);
    assert LinkHeader([b]) == LinkValue(b);
  }

  /** The older parser skips a segment `<x>` and finds the link after it. */
  lemma LegacySkipsAngleSegment(b: Pagination)
    ensures LegacyMatches("<x>, " + LinkValue(b)) == LegacyMatches(LinkValue(b))
  {
    var s := "<x>, " + LinkValue(b);
    LegacyAngleSegmentNoMatch(b);
    assert s[1..] == "x>, " + LinkValue(b);
    LegacyMatchesSkip("x>, ", LinkValue(b));
  }

  /** So `<a-link>, <x>, <b-link>` yields both links, unlike the newer parser. */
  lemma LegacyKeepsLinkAfterAngleSegment(a: Pagination, b: Pagination, isURL: string -> bool)
    requires LegacyWellFormed(a) && isURL(a.url) && LegacyWellFormed(b) && isURL(b.url)
    ensures ParsePagination(LinkValue(a) + ", " + "<x>, " + LinkValue(b), isURL) == [a, b]
  {
    var tailB := "<x>, " + LinkValue(b);
    var rest := ", " + tailB;
    assert LinkValue(a) + ", " + "<x>, " + LinkValue(b) == LinkValue(a) + rest;
    var ma := LinkMatch(a.url, a.relation.RawValue(), |LinkValue(a)|);
    LegacyMatchesAfterLinkValue(a, rest);
    LegacyMatchesAfterComma(tailB);
    LegacySkipsAngleSegment(b);
    LegacySingleLinkParses(b, isURL);
    PaginationFromLink(a, isURL);
    PaginationsCons(ma, LegacyMatches(LinkValue(b)), a, isURL);
  }

  /** `>;` sits in `u` at index `j`. */
  predicate AngleSemicolonAt(u: string, j: nat) {
    j + 1 < |u| && u[j] == '>' && u[j + 1] == ';'
  }

  /** `u` holds no `>;`, where the lazy url capture could stop. */
  predicate NoAngleSemicolon(u: string) {
    forall j: nat :: j < |u| ==> !AngleSemicolonAt(u, j)
  }

  lemma {:induction false} LegacyUrlEndScanPast(s: string, k: nat, end: nat)
    requires k <= end && DelimiterAt(s, end) && LegacyRelEnd(s, end + |Delimiter|).Some?
    requires forall i :: k <= i < end ==> !DelimiterAt(s, i) && !IsLineTerminator(s[i])
    ensures LegacyUrlEnd(s, k) == Some((end, LegacyRelEnd(s, end + |Delimiter|).value))
    decreases end - k
  {
    if k < end {
      assert !DelimiterAt(s, k) && !IsLineTerminator(s[k]);
      LegacyUrlEndScanPast(s, k + 1, end);
    }
  }

  /** The lazy url capture of `<u>; rel="r"` runs over every `>` in `u` that no `;` follows. */
  lemma LegacyUrlEndPastAngles(s: string, u: string, r: string)
    requires LinkValueAt(s, u, r)
    requires LegacyUrlShape(u) && NoAngleSemicolon(u) && LegacyRelShape(r)
    ensures LegacyUrlEnd(s, 10) == Some((1 + |u|, 1 + |u| + |Delimiter| + |r|))
  {
    var end, q := 1 + |u|, 1 + |u| + |Delimiter| + |r|;
    LegacyRelEndAt(s, end + |Delimiter|, q);
    assert s[end] == s[end..end + |Delimiter|][0];
    forall i | 10 <= i < end
      ensures !DelimiterAt(s, i) && !IsLineTerminator(s[i])
    {
      assert s[i] == s[1..end][i - 1];
      if i + 1 < end {
        assert s[i + 1] == s[1..end][i];
        assert !AngleSemicolonAt(u, i - 1);
      }
      if i + |Delimiter| <= |s| {
        assert s[i] == s[i..i + |Delimiter|][0] && s[i + 1] == s[i..i + |Delimiter|][1];
      }
    }
    LegacyUrlEndScanPast(s, 10, end);
  }

  /** The url capture of a segment `<c>` and the next link value, read as one text. */
  function MergedUrl(c: string, b: Pagination): string {
    c + ">, <" + b.url
  }

  /** Proof step: the merged url has the shape the pattern reads back, and no `>;`. */
  lemma MergedUrlShape(c: string, b: Pagination)
    requires LegacyUrlShape(c) && '>' !in c && LegacyWellFormed(b)
    ensures LegacyUrlShape(MergedUrl(c, b)) && NoAngleSemicolon(MergedUrl(c, b))
  {
    var u := MergedUrl(c, b);
    var n := |c|;
    assert forall j :: 0 <= j < n ==> u[j] == c[j];
    assert u[n] == '>' && u[n + 1] == ',' && u[n + 2] == ' ' && u[n + 3] == '<';
    assert forall j :: n + 4 <= j < |u| ==> u[j] == b.url[j - n - 4];
    forall j: nat | j < |u|
      ensures !AngleSemicolonAt(u, j)
    {
    }
  }

  /** Proof step: a segment `<c>` and a link value after it read as one link value. */
  lemma MergedText(c: string, b: Pagination)
    ensures |MergedUrl(c, b)| + |Delimiter| + |b.relation.RawValue()| + 2 == |c| + 4 + |LinkValue(b)|
    ensures LinkValueAt("<" + c + ">, " + LinkValue(b), MergedUrl(c, b), b.relation.RawValue())
  {
    var u, r := MergedUrl(c, b), b.relation.RawValue();
    var t := "<" + u + Delimiter + r + "\"" + [];
    LinkTextParts(u, r, []);
    MergedTextEqual(c, b);
  }

  /** Proof step for `MergedText`: the two spellings of the same text. */
  lemma MergedTextEqual(c: string, b: Pagination)
    ensures "<" + c + ">, " + LinkValue(b)
         == "<" + MergedUrl(c, b) + Delimiter + b.relation.RawValue() + "\"" + []
  {
  }


  /** `<u>; rel="r"` is matched whole when `u` has the url shape and no `>;`, even if it holds `>`. */
  lemma LegacyMatchesPastAngles(s: string, u: string, r: string, n: nat)
    requires LinkValueAt(s, u, r) && n == |u| + |Delimiter| + |r| + 2
    requires LegacyUrlShape(u) && NoAngleSemicolon(u) && LegacyRelShape(r)
    ensures LegacyMatchAt(s) == Some(LinkMatch(u, r, n))
  {
    LegacyHeadParts(s, u, r);
    LegacyUrlEndPastAngles(s, u, r);
    MatchAtFromParts(s, u, r, n);
  }

  /**
   * A segment `<c>` whose text passes for a url (`https://` and a word
   * character) is not skipped: the lazy url capture runs on over its `>, <` to
   * the `>; rel="` of the next link value, so the segment and that link are
   * read as a single match.
   */
  lemma LegacyHttpsSegmentSwallowsNextLink(c: string, b: Pagination)
    requires LegacyUrlShape(c) && '>' !in c && LegacyWellFormed(b)
    ensures LegacyMatchAt("<" + c + ">, " + LinkValue(b))
         == Some(LinkMatch(MergedUrl(c, b), b.relation.RawValue(), |c| + 4 + |LinkValue(b)|))
  {
    MergedUrlShape(c, b);
    LegacyMergedMatch(c, b);
  }

  /** Proof step for `LegacyHttpsSegmentSwallowsNextLink`, from the shape of the merged url alone. */
  lemma LegacyMergedMatch(c: string, b: Pagination)
    requires LegacyUrlShape(MergedUrl(c, b)) && NoAngleSemicolon(MergedUrl(c, b))
    ensures LegacyMatchAt("<" + c + ">, " + LinkValue(b))
         == Some(LinkMatch(MergedUrl(c, b), b.relation.RawValue(), |c| + 4 + |LinkValue(b)|))
  {
    var u, r := MergedUrl(c, b), b.relation.RawValue();
    assert LegacyUrlShape(u) && NoAngleSemicolon(u) && LegacyRelShape(r) by {
      RawValueShape(b.relation);
    }
    MergedText(c, b);
    LegacyMatchesPastAngles("<" + c + ">, " + LinkValue(b), u, r, |c| + 4 + |LinkValue(b)|);
  }


  /**
   * So `<a-link>, <c>, <b-link>` with such a `c` keeps only the first link when
   * `URL(string:)` rejects the merged url, and otherwise keeps `b`'s relation
   * with the merged url; it never yields `b` itself.
   */
  lemma LegacyHttpsSegmentLosesNextLink(a: Pagination, b: Pagination, c: string, isURL: string -> bool)
    requires LegacyWellFormed(a) && isURL(a.url) && LegacyWellFormed(b)
    requires LegacyUrlShape(c) && '>' !in c
    ensures !isURL(MergedUrl(c, b)) ==>
      ParsePagination(LinkValue(a) + ", " + "<" + c + ">, " + LinkValue(b), isURL) == [a]
    ensures isURL(MergedUrl(c, b)) ==>
      ParsePagination(LinkValue(a) + ", " + "<" + c + ">, " + LinkValue(b), isURL) == [a, Pagination(MergedUrl(c, b), b.relation)]
  {
    var ma := LinkMatch(a.url, a.relation.RawValue(), |LinkValue(a)|);
    var m := LinkMatch(MergedUrl(c, b), b.relation.RawValue(), |c| + 4 + |LinkValue(b)|);
    MergedUrlShape(c, b);
    LegacyHttpsSegmentBetweenMatches(a, b, c);
    PaginationFromLink(a, isURL);
    PaginationsCons(ma, [m], a, isURL);
    assert [m][1..] == [];
    if isURL(m.url) {
      PaginationFromLink(Pagination(m.url, b.relation), isURL);
    }
  }

  /** Proof step for `LegacyHttpsSegmentLosesNextLink`: the matches of its header. */
  lemma LegacyHttpsSegmentBetweenMatches(a: Pagination, b: Pagination, c: string)
    requires LegacyWellFormed(a)
    requires LegacyUrlShape(MergedUrl(c, b)) && NoAngleSemicolon(MergedUrl(c, b))
    ensures LegacyMatches(LinkValue(a) + ", " + "<" + c + ">, " + LinkValue(b))
         == [LinkMatch(a.url, a.relation.RawValue(), |LinkValue(a)|),
             LinkMatch(MergedUrl(c, b), b.relation.RawValue(), |c| + 4 + |LinkValue(b)|)]
  {
    var tailB := "<" + c + ">, " + LinkValue(b);
    var rest := ", " + tailB;
    SegmentHeaderSplit(LinkValue(a), c, LinkValue(b));
    LegacyMatchesAfterLinkValue(a, rest);
    LegacyMatchesAfterComma(tailB);
    LegacyMergedMatch(c, b);
    LegacyWholeMatch(tailB);
  }

  /** Proof step: how the header `x, <c>, y` splits after `x`. */
  lemma SegmentHeaderSplit(x: string, c: string, y: string)
    ensures x + ", " + "<" + c + ">, " + y == x + (", " + ("<" + c + ">, " + y))
  {
  }

  /** Proof step: a text that is one match from end to end has that match alone. */
  lemma LegacyWholeMatch(s: string)
    requires LegacyMatchAt(s).Some? && LegacyMatchAt(s).value.end == |s|
    ensures LegacyMatches(s) == [LegacyMatchAt(s).value]
  {
    assert s[|s|..] == [];
  }

  /** Every match of a header has captures of the pattern's shape. */
  lemma {:induction false} LegacyMatchesSound(s: string)
    ensures forall m :: m in LegacyMatches(s) ==> LegacyUrlShape(m.url) && LegacyRelShape(m.rel)
    decreases |s|
  {
    if s != [] {
      match LegacyMatchAt(s)
      case Some(m) =>
        LegacyMatchSound(s);
        LegacyMatchesSound(s[m.end..]);
      case None =>
        LegacyMatchesSound(s[1..]);
    }
  }

  /** Each link read from the matches comes from one of them, with a URL `isURL` accepts. */
  lemma {:induction false} PaginationsFromMatches(ms: seq<LinkMatch>, isURL: string -> bool)
    ensures forall p :: p in Paginations(ms, isURL) ==>
      isURL(p.url) && exists m :: m in ms && m.url == p.url && m.rel == p.relation.RawValue()
    decreases |ms|
  {
    if ms != [] {
      PaginationsFromMatches(ms[1..], isURL);
      assert forall m :: m in ms[1..] ==> m in ms;
    }
  }

  /**
   * Only `https://` links (and the literal `http|://` the one-character class
   * `[|s]` also admits) are ever recognised: a plain `http://` link is not.
   */
  lemma LegacyLinksAreHttps(s: string, isURL: string -> bool)
    ensures forall p :: p in ParsePagination(s, isURL) ==>
      isURL(p.url) && |p.url| >= 9 && (p.url[..8] == "https://" || p.url[..8] == "http|://") && IsWordChar(p.url[8])
  {
    LegacyMatchesSound(s);
    PaginationsFromMatches(LegacyMatches(s), isURL);
    forall p | p in ParsePagination(s, isURL)
      ensures p.url[..8] == "https://" || p.url[..8] == "http|://"
    {
      SchemePrefix(p.url);
    }
  }

  /** A plain `http://` link is dropped. */
  lemma LegacyIgnoresPlainHttp(isURL: string -> bool)
    ensures ParsePagination("<" + "http://a/2>; rel=\"next\"", isURL) == []
  {
    var h := "http://a/2>; rel=\"next\"";
    var s := "<" + h;
    assert s[5] == ':';
    assert LegacyMatchAt(s) == None;
    assert s[1..] == h;
    LegacyMatchesSkip(h, "");
    assert h + "" == h;
  }

  // Proof steps for the literal example headers of `LegacyParsesNextAndPrev` and
  // `ImagesPicsum.ParsesNextAndPrev`: facts about fixed strings, kept apart so the
  // solver evaluates each literal once.

  /** The link value of the next link `https://a/2`. */
  lemma NextLinkValue()
    ensures LinkValue(Pagination("https://a/2", Next)) == "<https://a/2>; rel=\"next\""
  {
  }

  /** The link value of the previous link `https://a/1`. */
  lemma PrevLinkValue()
    ensures LinkValue(Pagination("https://a/1", Prev)) == "<https://a/1>; rel=\"prev\""
  {
  }

  /** The next link `https://a/2` has the url shape the pattern reads back. */
  lemma NextLinkWellFormed()
    ensures LegacyWellFormed(Pagination("https://a/2", Next))
  {
    var u := "https://a/2";
    assert SchemeAt(u, 0) && IsWordChar(u[8]);
  }

  /** The previous link `https://a/1` has the url shape the pattern reads back. */
  lemma PrevLinkWellFormed()
    ensures LegacyWellFormed(Pagination("https://a/1", Prev))
  {
    var u := "https://a/1";
    assert SchemeAt(u, 0) && IsWordChar(u[8]);
  }

  /** The header of the next and previous links `https://a/2` and `https://a/1`. */
  lemma NextPrevHeader()
    ensures LinkHeader([Pagination("https://a/2", Next), Pagination("https://a/1", Prev)])
         == "<https://a/2>; rel=\"next\"" + ", " + "<https://a/1>; rel=\"prev\""
  {
    var links := [Pagination("https://a/2", Next), Pagination("https://a/1", Prev)];
    var a, b := "<https://a/2>; rel=\"next\"", "<https://a/1>; rel=\"prev\"";
    NextLinkValue();
    PrevLinkValue();
    assert links[1..] == [links[1]];
    assert LinkHeader(links) == a + (", " + b);
    assert (a + ", ") + b == a + (", " + b);
  }

  /** The two links of `<https://a/2>; rel="next", <https://a/1>; rel="prev"`, in order. */
  lemma LegacyParsesNextAndPrev(isURL: string -> bool)
    requires isURL("https://a/2") && isURL("https://a/1")
    ensures ParsePagination("<https://a/2>; rel=\"next\"" + ", " + "<https://a/1>; rel=\"prev\"", isURL)
         == [Pagination("https://a/2", Next), Pagination("https://a/1", Prev)]
  {
    var links := [Pagination("https://a/2", Next), Pagination("https://a/1", Prev)];
    NextPrevHeader();
    NextLinkWellFormed();
    PrevLinkWellFormed();
    LegacyParseLinkHeader(links, isURL);
  }
}
