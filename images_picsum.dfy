/**
 * The Picsum client of `Pager/ListOfImages/Picsum.swift`. Its `Pagination`,
 * `Metadata`, `Response` and `fetchList` link selection are the same as in
 * `Pager/Picsum.swift` and come from module `Picsum`; this file adds image
 * URLs and a `parsePagination` built on a Swift `Regex` literal.
 */
module ImagesPicsum {
  import opened Outcomes
  import opened Urls
  import Decimal
  import opened Picsum

  /** `BlurRadius`, whose raw values are the blur query values. */
  datatype BlurRadius = Small | Medium | Large {
    function RawValue(): int {
      match this
      case Small => 1
      case Medium => 5
      case Large => 10
    }
  }

  /** `ImageSize`. */
  datatype ImageSize = Size(width: int, height: int) | Original

  /** `imageBaseURL`: the download URL without its last two path segments (the size). */
  function ImageBaseURL(m: Metadata): (r: Url)
    ensures r.origin == m.downloadURL.origin && r.query == m.downloadURL.query
    ensures |m.downloadURL.path| >= 2 ==> r.path == m.downloadURL.path[..|m.downloadURL.path| - 2]
    ensures |m.downloadURL.path| < 2 ==> r.path == []
  {
    DeletingLastPathComponent(DeletingLastPathComponent(m.downloadURL))
  }

  /** The query item a blur radius adds. */
  function BlurItems(blur: Option<BlurRadius>): seq<QueryItem> {
    if blur.Some? then [QueryItem("blur", Some(Decimal.IntToString(blur.value.RawValue())))] else []
  }

  /** The valueless query item grayscale adds. */
  function GrayscaleItems(grayscale: bool): seq<QueryItem> {
    if grayscale then [QueryItem("grayscale", None)] else []
  }

  /**
   * `downloadURL(size:blur:grayscale:)`: the download URL itself for
   * `.original`, else the base URL followed by width and height; then the blur
   * item, then the grayscale item, appended to the query.
   */
  function DownloadURL(m: Metadata, size: ImageSize, blur: Option<BlurRadius>, grayscale: bool): (r: Url)
    ensures r.origin == m.downloadURL.origin
    ensures size.Original? ==> r.path == m.downloadURL.path
    ensures size.Size? ==> r.path == ImageBaseURL(m).path + [Decimal.IntToString(size.width), Decimal.IntToString(size.height)]
    ensures r.query == m.downloadURL.query + BlurItems(blur) + GrayscaleItems(grayscale)
    ensures size.Original? && blur.None? && !grayscale ==> r == m.downloadURL
  {
    var url := match size
      case Original => m.downloadURL
      case Size(width, height) =>
        AppendingPath(AppendingPath(ImageBaseURL(m), Decimal.IntToString(width)), Decimal.IntToString(height));
    var url := if blur.Some? then AppendingQueryItems(url, BlurItems(blur)) else url;
    if grayscale then AppendingQueryItems(url, GrayscaleItems(grayscale)) else url
  }

  /** The blur a query asks for: the number in its first `blur` item, if any. */
  function QueryBlur(query: seq<QueryItem>): Option<int> {
    if query == [] then None
    else if query[0].name == "blur" then
      (if query[0].value.Some? then Decimal.ParseInt(query[0].value.value) else None)
    else QueryBlur(query[1..])
  }

  /** Whether a query holds a `grayscale` item. */
  predicate QueryGrayscale(query: seq<QueryItem>) {
    exists i :: 0 <= i < |query| && query[i].name == "grayscale"
  }

  lemma {:induction false} QueryBlurAppend(a: seq<QueryItem>, b: seq<QueryItem>)
    requires forall i :: 0 <= i < |a| ==> a[i].name != "blur"
    ensures QueryBlur(a + b) == QueryBlur(b)
    decreases |a|
  {
    if a == [] {
      assert a + b == b;
    } else {
      assert (a + b)[0] == a[0] && (a + b)[1..] == a[1..] + b;
      QueryBlurAppend(a[1..], b);
    }
  }

  /** A `blur` item carrying `v`, after a query without one, reads back as `v`. */
  lemma BlurItemReadsBack(q: seq<QueryItem>, v: int, tail: seq<QueryItem>)
    requires forall i :: 0 <= i < |q| ==> q[i].name != "blur"
    ensures QueryBlur(q + ([QueryItem("blur", Some(Decimal.IntToString(v)))] + tail)) == Some(v)
  {
    QueryBlurAppend(q, [QueryItem("blur", Some(Decimal.IntToString(v)))] + tail);
    Decimal.IntToStringRoundTrip(v);
  }

  /** The blur item is the first `blur` item of a query that had none. */
  lemma BlurReadsBack(q: seq<QueryItem>, blur: Option<BlurRadius>, grayscale: bool)
    requires forall i :: 0 <= i < |q| ==> q[i].name != "blur"
    ensures QueryBlur(q + BlurItems(blur) + GrayscaleItems(grayscale))
         == (if blur.Some? then Some(blur.value.RawValue()) else None)
  {
    var tail := BlurItems(blur) + GrayscaleItems(grayscale);
    assert q + BlurItems(blur) + GrayscaleItems(grayscale) == q + tail;
    if blur.Some? {
      BlurItemReadsBack(q, blur.value.RawValue(), GrayscaleItems(grayscale));
    } else {
      assert tail == GrayscaleItems(grayscale);
      QueryBlurAppend(q, tail);
    }
  }

  /** A query that had no `grayscale` item has one afterwards exactly when grayscale was asked for. */
  lemma GrayscaleReadsBack(q: seq<QueryItem>, blur: Option<BlurRadius>, grayscale: bool)
    requires forall i :: 0 <= i < |q| ==> q[i].name != "grayscale"
    ensures QueryGrayscale(q + BlurItems(blur) + GrayscaleItems(grayscale)) == grayscale
  {
    var r := q + BlurItems(blur) + GrayscaleItems(grayscale);
    if grayscale {
      assert r[|r| - 1].name == "grayscale";
    } else {
      assert r == q + BlurItems(blur);
    }
  }

  /** Width and height appended to a path read back from its last two segments. */
  lemma SizeReadsBack(base: seq<string>, width: int, height: int)
    ensures var p := base + [Decimal.IntToString(width), Decimal.IntToString(height)];
      && |p| >= 2 && p[..|p| - 2] == base
      && Decimal.ParseInt(p[|p| - 2]) == Some(width)
      && Decimal.ParseInt(p[|p| - 1]) == Some(height)
  {
    Decimal.IntToStringRoundTrip(width);
    Decimal.IntToStringRoundTrip(height);
  }

  /**
   * A download URL reads back as what was asked for: the width and height as
   * the last two path segments after the base path, the blur radius from the
   * `blur` item and grayscale from the `grayscale` item, provided the download
   * URL's own query has neither item.
   */
  lemma DownloadURLReadsBack(m: Metadata, size: ImageSize, blur: Option<BlurRadius>, grayscale: bool)
    requires forall i :: 0 <= i < |m.downloadURL.query| ==>
      m.downloadURL.query[i].name != "blur" && m.downloadURL.query[i].name != "grayscale"
    ensures var r := DownloadURL(m, size, blur, grayscale);
      && QueryBlur(r.query) == (if blur.Some? then Some(blur.value.RawValue()) else None)
      && QueryGrayscale(r.query) == grayscale
      && (size.Size? ==>
            && |r.path| >= 2 && r.path[..|r.path| - 2] == ImageBaseURL(m).path
            && Decimal.ParseInt(r.path[|r.path| - 2]) == Some(size.width)
            && Decimal.ParseInt(r.path[|r.path| - 1]) == Some(size.height))
  {
    var q := m.downloadURL.query;
    BlurReadsBack(q, blur, grayscale);
    GrayscaleReadsBack(q, blur, grayscale);
    if size.Size? {
      SizeReadsBack(ImageBaseURL(m).path, size.width, size.height);
    }
  }

  /** `https://picsum.photos/id/48/5000/3333` has the base URL `https://picsum.photos/id/48`. */
  lemma ImageBaseURLExample(m: Metadata)
    requires m.downloadURL == Url("https://picsum.photos", ["id", "48", "5000", "3333"], [])
    ensures ImageBaseURL(m) == Url("https://picsum.photos", ["id", "48"], [])
  {
  }

  // ---------------------------------------------------------------------------
  // The pattern `<(?<url>[^;]+)>; rel="(?<rel>[^,]+)"`: both captures are
  // greedy, so the url runs to the `>` before the first `;` and the relation
  // to the last `"` before the next `,`.

  /** The first index from `i` on that holds `c`. */
  function IndexOf(s: string, c: char, i: nat): (k: Option<nat>)
    ensures k.Some? ==> i <= k.value < |s| && s[k.value] == c
    ensures k.Some? ==> forall j :: i <= j < k.value ==> s[j] != c
    ensures k.None? ==> forall j :: i <= j < |s| ==> s[j] != c
    decreases |s| - i
  {
    if i >= |s| then None else if s[i] == c then Some(i) else IndexOf(s, c, i + 1)
  }

  /** The last index in `[lo, hi)` that holds `c`. */
  function LastIndexOf(s: string, c: char, lo: nat, hi: nat): (k: Option<nat>)
    requires lo <= hi <= |s|
    ensures k.Some? ==> lo <= k.value < hi && s[k.value] == c
    ensures k.Some? ==> forall j :: k.value < j < hi ==> s[j] != c
    ensures k.None? ==> forall j :: lo <= j < hi ==> s[j] != c
    decreases hi - lo
  {
    if hi == lo then None else if s[hi - 1] == c then Some(hi - 1) else LastIndexOf(s, c, lo, hi - 1)
  }

  /** The match of the pattern starting at the first character of `s`, if any. */
  function MatchAt(s: string): (m: Option<LinkMatch>)
    ensures m.Some? ==> 0 < m.value.end <= |s|
  {
    if |s| == 0 || s[0] != '<' then None
    else
      match IndexOf(s, ';', 1)
      case None => None
      case Some(semi) =>
        if semi < 3 || !DelimiterAt(s, semi - 1) then None else RelMatchAt(s, semi - 1)
  }

  /** Where the greedy `[^,]+` from `r0` has to stop: the first `,` from `r0` on, or the end. */
  function CommaStop(s: string, r0: nat): (stop: nat)
    requires r0 <= |s|
    ensures r0 <= stop <= |s|
    ensures forall j :: r0 <= j < stop ==> s[j] != ','
    ensures stop < |s| ==> s[stop] == ','
  {
    match IndexOf(s, ',', r0) case Some(comma) => comma case None => |s|
  }

  /**
   * The rest of the match once the url capture has ended at `end`, where
   * `>; rel="` starts: the relation runs to the last quote before the next comma.
   */
  function RelMatchAt(s: string, end: nat): (m: Option<LinkMatch>)
    requires 2 <= end && DelimiterAt(s, end)
    ensures m.Some? ==> 0 < m.value.end <= |s|
  {
    var r0 := end + |Delimiter|;
    var stop := CommaStop(s, r0);
    if stop <= r0 then None
    else
      match LastIndexOf(s, '"', r0 + 1, stop)
      case None => None
      case Some(q) => Some(LinkMatch(s[1..end], s[r0..q], q + 1))
  }

  /** `matches(of:)`: the successive non-overlapping leftmost matches. */
  function Matches(s: string): (r: seq<LinkMatch>)
    ensures |r| <= |s|
    decreases |s|
  {
    if s == [] then []
    else
      match MatchAt(s)
      case Some(m) => [m] + Matches(s[m.end..])
      case None => Matches(s[1..])
  }

  /** `parsePagination(from:)`: the recognised links of the header, in order. It never throws. */
  function ParsePagination(s: string, isURL: string -> bool): (r: seq<Pagination>)
    ensures |r| <= |s|
  {
    Paginations(Matches(s), isURL)
  }

  /** A match is the text `<url>; rel="rel"`, the url free of `;` and the relation free of `,`. */
  lemma MatchSound(s: string)
    requires MatchAt(s).Some?
    ensures var m := MatchAt(s).value;
      && s[..m.end] == "<" + m.url + Delimiter + m.rel + "\""
      && |m.url| > 0 && ';' !in m.url
      && |m.rel| > 0 && ',' !in m.rel
  {
    var semi := IndexOf(s, ';', 1).value;
    assert MatchAt(s) == RelMatchAt(s, semi - 1);
    RelMatchSound(s, semi - 1);
  }

  /** The rest of a match after a url without `;` is `>; rel="rel"` with a relation free of `,`. */
  lemma RelMatchSound(s: string, end: nat)
    requires 2 <= end && DelimiterAt(s, end) && RelMatchAt(s, end).Some?
    requires s[0] == '<' && forall j :: 1 <= j < end ==> s[j] != ';'
    ensures var m := RelMatchAt(s, end).value;
      && s[..m.end] == "<" + m.url + Delimiter + m.rel + "\""
      && |m.url| > 0 && ';' !in m.url
      && |m.rel| > 0 && ',' !in m.rel
  {
    var m := RelMatchAt(s, end).value;
    var r0 := end + |Delimiter|;
    var stop := CommaStop(s, r0);
    var q := LastIndexOf(s, '"', r0 + 1, stop).value;
    assert m == LinkMatch(s[1..end], s[r0..q], q + 1);
    Split5(s, 1, end, r0, q, q + 1);
    assert s[..1] == "<";
    assert s[q..q + 1] == "\"";
    assert forall i :: 0 <= i < |m.url| ==> m.url[i] == s[1 + i];
    assert forall i :: 0 <= i < |m.rel| ==> m.rel[i] == s[r0 + i];
  }

  /** In `<u>; rel="r"…` with `u` free of `;`, the first `;` is the one of `>; rel="`. */
  lemma FirstSemicolon(s: string, u: string, r: string)
    requires LinkValueAt(s, u, r)
    requires ';' !in u
    ensures IndexOf(s, ';', 1) == Some(|u| + 2)
  {
    var end := 1 + |u|;
    assert s[end] == s[end..end + |Delimiter|][0] && s[end + 1] == s[end..end + |Delimiter|][1];
    assert forall j :: 1 <= j < end ==> s[j] == s[1..end][j - 1];
  }

  /** The rest of the match of `<u>; rel="r"…`, with `r` free of `,`, after the url capture `u`. */
  lemma RelMatchComplete(s: string, u: string, r: string)
    requires LinkValueAt(s, u, r)
    requires |u| > 0 && |r| > 0 && ',' !in r
    ensures DelimiterAt(s, 1 + |u|) && RelMatchAt(s, 1 + |u|).Some?
    ensures RelMatchAt(s, 1 + |u|).value.url == u && r <= RelMatchAt(s, 1 + |u|).value.rel
    ensures var n := |u| + |Delimiter| + |r| + 2;
      n == |s| || s[n] == ',' ==> RelMatchAt(s, 1 + |u|).value == LinkMatch(u, r, n)
  {
    var end, qq := 1 + |u|, 1 + |u| + |Delimiter| + |r|;
    var r0 := end + |Delimiter|;
    assert forall j :: r0 <= j < qq ==> s[j] == s[r0..qq][j - r0];
    var stop := CommaStop(s, r0);
    assert stop > qq;
    var q := LastIndexOf(s, '"', r0 + 1, stop).value;
    assert q >= qq;
    assert RelMatchAt(s, end) == Some(LinkMatch(s[1..end], s[r0..q], q + 1));
    assert s[r0..q][..|r|] == s[r0..qq];
    if qq + 1 == |s| || s[qq + 1] == ',' {
      assert stop == qq + 1;
    }
  }

  /**
   * Wherever `s` starts with `<u>; rel="r"` for a url `u` without `;` and a
   * relation `r` without `,`, there is a match: its url is exactly `u`, and its
   * relation, being greedy, starts with `r` and may run on to a later quote
   * before the next comma.
   */
  lemma MatchComplete(s: string, u: string, r: string)
    requires LinkValueAt(s, u, r)
    requires |u| > 0 && ';' !in u && |r| > 0 && ',' !in r
    ensures MatchAt(s).Some?
    ensures MatchAt(s).value.url == u && r <= MatchAt(s).value.rel
    ensures var n := |u| + |Delimiter| + |r| + 2;
      n == |s| || s[n] == ',' ==> MatchAt(s).value == LinkMatch(u, r, n)
  {
    FirstSemicolon(s, u, r);
    RelMatchComplete(s, u, r);
    assert MatchAt(s) == RelMatchAt(s, 1 + |u|);
  }

  /** A link value is matched whole when a comma or the end of the header follows it. */
  lemma MatchesLinkValue(l: Pagination, rest: string)
    requires |l.url| > 0 && ';' !in l.url
    requires rest == [] || rest[0] == ','
    ensures MatchAt(LinkValue(l) + rest) == Some(LinkMatch(l.url, l.relation.RawValue(), |LinkValue(l)|))
  {
    var raw := l.relation.RawValue();
    var s := LinkValue(l) + rest;
    RawValueShape(l.relation);
    LinkValueParts(l, rest);
    var n := |LinkValue(l)|;
    assert n == |s| || s[n] == ',' by {
      assert rest != [] ==> s[n] == rest[0];
    }
    MatchComplete(s, l.url, raw);
    assert MatchAt(s).value == LinkMatch(l.url, raw, n);
  }

  lemma MatchesAfterLinkValue(l: Pagination, rest: string)
    requires |l.url| > 0 && ';' !in l.url
    requires rest == [] || rest[0] == ','
    ensures Matches(LinkValue(l) + rest) == [LinkMatch(l.url, l.relation.RawValue(), |LinkValue(l)|)] + Matches(rest)
  {
    MatchesLinkValue(l, rest);
    assert (LinkValue(l) + rest)[|LinkValue(l)|..] == rest;
  }

  /** Text without a `<` holds no match and is skipped. */
  lemma {:induction false} MatchesSkip(junk: string, rest: string)
    requires '<' !in junk
    ensures Matches(junk + rest) == Matches(rest)
    decreases |junk|
  {
    if junk == [] {
      assert junk + rest == rest;
    } else {
      var s := junk + rest;
      assert s[0] == junk[0];
      assert s[1..] == junk[1..] + rest by {
        assert junk == [junk[0]] + junk[1..];
      }
      MatchesSkip(junk[1..], rest);
    }
  }

  /** A header without any `<`, the empty header among them, yields no link. */
  lemma NoAngleBracketNoLinks(s: string, isURL: string -> bool)
    requires '<' !in s
    ensures ParsePagination(s, isURL) == []
  {
    MatchesSkip(s, "");
    assert s + "" == s;
  }

  /** The `, ` between two link values holds no match. */
  lemma MatchesAfterComma(rest: string)
    ensures Matches(", " + rest) == Matches(rest)
  {
    MatchesSkip(", ", rest);
  }

  /** `parsePagination` reads back every header a server writes from links whose URLs have no `;`. */
  lemma {:induction false} ParseLinkHeader(links: seq<Pagination>, isURL: string -> bool)
    requires forall l <- links :: |l.url| > 0 && ';' !in l.url && isURL(l.url)
    ensures ParsePagination(LinkHeader(links), isURL) == links
    decreases |links|
  {
    if links != [] {
      var l := links[0];
      var rest := links[1..];
      assert links == [l] + rest;
      var tail := if |links| == 1 then "" else ", " + LinkHeader(rest);
      var m := LinkMatch(l.url, l.relation.RawValue(), |LinkValue(l)|);
      LinkHeaderCons(links);
      MatchesAfterLinkValue(l, tail);
      PaginationFromLink(l, isURL);
      PaginationsCons(m, Matches(tail), l, isURL);
      assert Paginations(Matches(tail), isURL) == rest by {
        if |links| > 1 {
          MatchesAfterComma(LinkHeader(rest));
          ParseLinkHeader(rest, isURL);
        }
      }
      calc {
        ParsePagination(LinkHeader(links), isURL);
        Paginations(Matches(LinkValue(l) + tail), isURL);
        Paginations([m] + Matches(tail), isURL);
        [l] + Paginations(Matches(tail), isURL);
        [l] + rest;
        links;
      }
    }
  }

  /** Proof step for `ParsesNextAndPrev`: neither url of the example header holds a `;`. */
  lemma NextPrevUrls()
    ensures ';' !in "https://a/2" && ';' !in "https://a/1"
  {
  }

  /** The two links of `<https://a/2>; rel="next", <https://a/1>; rel="prev"`, in order. */
  lemma ParsesNextAndPrev(isURL: string -> bool)
    requires isURL("https://a/2") && isURL("https://a/1")
    ensures ParsePagination("<https://a/2>; rel=\"next\"" + ", " + "<https://a/1>; rel=\"prev\"", isURL)
         == [Pagination("https://a/2", Next), Pagination("https://a/1", Prev)]
  {
    NextPrevHeader();
    NextPrevUrls();
    ParseLinkHeader([Pagination("https://a/2", Next), Pagination("https://a/1", Prev)], isURL);
  }

  /** Proof step for `SkipsMalformedSegment`: the matches of its header. */
  lemma SegmentMatches(a: Pagination, b: Pagination, junk: string)
    requires |a.url| > 0 && ';' !in a.url && '<' !in junk
    ensures Matches(LinkValue(a) + (", " + junk + ", " + LinkValue(b)))
         == [LinkMatch(a.url, a.relation.RawValue(), |LinkValue(a)|)] + Matches(LinkValue(b))
  {
    var gap := ", " + junk + ", ";
    MatchesAfterLinkValue(a, gap + LinkValue(b));
    GapHasNoAngle(junk);
    MatchesSkip(gap, LinkValue(b));
  }

  /** Proof step for `SegmentMatches`: the commas around a segment add no `<`. */
  lemma GapHasNoAngle(junk: string)
    requires '<' !in junk
    ensures '<' !in ", " + junk + ", "
  {
  }

  /** Proof step for `SkipsMalformedSegment`: the header of one link parses back to it. */
  lemma SingleLinkParses(b: Pagination, isURL: string -> bool)
    requires |b.url| > 0 && ';' !in b.url && isURL(b.url)
    ensures Paginations(Matches(LinkValue(b)), isURL) == [b]
  {
    ParseLinkHeader([b], isURL);
    assert LinkHeader([b]) == LinkValue(b);
  }

  /** A segment without a link between two link values is skipped; both links are read. */
  lemma SkipsMalformedSegment(a: Pagination, b: Pagination, junk: string, isURL: string -> bool)
    requires |a.url| > 0 && ';' !in a.url && isURL(a.url)
    requires |b.url| > 0 && ';' !in b.url && isURL(b.url)
    requires '<' !in junk
    ensures ParsePagination(LinkValue(a) + ", " + junk + ", " + LinkValue(b), isURL) == [a, b]
  {
    var rest := ", " + junk + ", " + LinkValue(b);
    var m := LinkMatch(a.url, a.relation.RawValue(), |LinkValue(a)|);
    assert LinkValue(a) + ", " + junk + ", " + LinkValue(b) == LinkValue(a) + rest;
    SegmentMatches(a, b, junk);
    PaginationFromLink(a, isURL);
    PaginationsCons(m, Matches(LinkValue(b)), a, isURL);
    SingleLinkParses(b, isURL);
  }

  /**
   * The text `<u>; rel="r"` before a comma or the end is one match with exactly
   * `u` and `r`, when `u` has no `;` and `r` no `,`.
   */
  lemma LinkTextMatches(u: string, r: string, rest: string)
    requires |u| > 0 && ';' !in u && |r| > 0 && ',' !in r
    requires rest == [] || rest[0] == ','
    ensures var seg := "<" + u + Delimiter + r + "\"";
      Matches(seg + rest) == [LinkMatch(u, r, |seg|)] + Matches(rest)
  {
    var seg := "<" + u + Delimiter + r + "\"";
    var s := seg + rest;
    LinkTextParts(u, r, rest);
    var n := |seg|;
    assert n == |s| || s[n] == ',' by {
      assert rest != [] ==> s[n] == rest[0];
    }
    MatchComplete(s, u, r);
    assert s[n..] == rest;
  }

  /**
   * A segment whose relation is not one of the four, or whose url `isURL`
   * rejects, is matched and then dropped by the `compactMap`; the links on
   * both sides of it are kept.
   */
  lemma DropsUnrecognisedSegment(a: Pagination, b: Pagination, u: string, r: string, isURL: string -> bool)
    requires |a.url| > 0 && ';' !in a.url && isURL(a.url)
    requires |b.url| > 0 && ';' !in b.url && isURL(b.url)
    requires |u| > 0 && ';' !in u && |r| > 0 && ',' !in r
    requires PaginationFrom(u, r, isURL).None?
    ensures ParsePagination(LinkValue(a) + ", " + ("<" + u + Delimiter + r + "\"") + ", " + LinkValue(b), isURL) == [a, b]
  {
    var seg := "<" + u + Delimiter + r + "\"";
    var ma := LinkMatch(a.url, a.relation.RawValue(), |LinkValue(a)|);
    var mu := LinkMatch(u, r, |seg|);
    var mb := Matches(LinkValue(b));
    SegmentBetweenMatches(a, b, u, r);
    SingleLinkParses(b, isURL);
    PaginationFromLink(a, isURL);
    PaginationsSkip(mu, mb, isURL);
    PaginationsCons(ma, [mu] + mb, a, isURL);
  }

  /** Proof step for `DropsUnrecognisedSegment`: the matches of its header. */
  lemma SegmentBetweenMatches(a: Pagination, b: Pagination, u: string, r: string)
    requires |a.url| > 0 && ';' !in a.url
    requires |u| > 0 && ';' !in u && |r| > 0 && ',' !in r
    ensures var seg := "<" + u + Delimiter + r + "\"";
      Matches(LinkValue(a) + ", " + seg + ", " + LinkValue(b))
      == [LinkMatch(a.url, a.relation.RawValue(), |LinkValue(a)|)] + ([LinkMatch(u, r, |seg|)] + Matches(LinkValue(b)))
  {
    var seg := "<" + u + Delimiter + r + "\"";
    var tail := ", " + LinkValue(b);
    var rest := ", " + (seg + tail);
    assert LinkValue(a) + ", " + seg + ", " + LinkValue(b) == LinkValue(a) + rest;
    assert rest[0] == ',' && tail[0] == ',';
    MatchesAfterLinkValue(a, rest);
    MatchesAfterComma(seg + tail);
    LinkTextMatches(u, r, tail);
    MatchesAfterComma(LinkValue(b));
  }

  /** The relation `foo` is not one of the four: such a segment is dropped and its neighbours kept. */
  lemma DropsUnknownRelation(a: Pagination, b: Pagination, u: string, isURL: string -> bool)
    requires |a.url| > 0 && ';' !in a.url && isURL(a.url)
    requires |b.url| > 0 && ';' !in b.url && isURL(b.url)
    requires |u| > 0 && ';' !in u
    ensures ParsePagination(LinkValue(a) + ", " + ("<" + u + Delimiter + "foo" + "\"") + ", " + LinkValue(b), isURL) == [a, b]
  {
    assert ',' !in "foo" && "foo" !in {"first", "last", "next", "prev"};
    DropsUnrecognisedSegment(a, b, u, "foo", isURL);
  }

  /**
   * A segment that opens with `<` is not skipped: the greedy `[^;]+` runs from
   * its `<` to the `;` of the next link value, so that link's url and the
   * segment are read as one url.
   */
  lemma AngleSegmentSwallowsNextLink(b: Pagination)
    requires ';' !in b.url
    ensures MatchAt("<x>, " + LinkValue(b))
         == Some(LinkMatch("x>, <" + b.url, b.relation.RawValue(), |LinkValue(b)| + 5))
  {
    var l := Pagination("x>, <" + b.url, b.relation);
    assert LinkValue(l) == "<x>, " + LinkValue(b);
    assert LinkValue(l) + [] == LinkValue(l);
    MatchesLinkValue(l, []);
  }

  /** The segment and the link after it make a single match. */
  lemma AngleSegmentMatches(b: Pagination)
    requires ';' !in b.url
    ensures Matches("<x>, " + LinkValue(b))
         == [LinkMatch("x>, <" + b.url, b.relation.RawValue(), |LinkValue(b)| + 5)]
  {
    var s := "<x>, " + LinkValue(b);
    var m := LinkMatch("x>, <" + b.url, b.relation.RawValue(), |LinkValue(b)| + 5);
    AngleSegmentSwallowsNextLink(b);
    assert s[m.end..] == [];
    assert Matches(s) == [m] + Matches([]);
  }

  /**
   * So `<a-link>, <x>, <b-link>` keeps only the first link when `URL(string:)`
   * rejects the merged text, and never yields `b` with its own url.
   */
  lemma AngleSegmentLosesNextLink(a: Pagination, b: Pagination, isURL: string -> bool)
    requires |a.url| > 0 && ';' !in a.url && isURL(a.url)
    requires ';' !in b.url && !isURL("x>, <" + b.url)
    ensures ParsePagination(LinkValue(a) + ", " + "<x>, " + LinkValue(b), isURL) == [a]
  {
    var tailB := "<x>, " + LinkValue(b);
    var rest := ", " + tailB;
    assert LinkValue(a) + ", " + "<x>, " + LinkValue(b) == LinkValue(a) + rest;
    var ma := LinkMatch(a.url, a.relation.RawValue(), |LinkValue(a)|);
    var m := LinkMatch("x>, <" + b.url, b.relation.RawValue(), |LinkValue(b)| + 5);
    MatchesAfterLinkValue(a, rest);
    MatchesAfterComma(tailB);
    AngleSegmentMatches(b);
    PaginationFromLink(a, isURL);
    assert Paginations([m], isURL) == [] by {
      assert PaginationFrom(m.url, m.rel, isURL).None?;
      assert [m][1..] == [];
    }
    PaginationsCons(ma, [m], a, isURL);
    calc {
      ParsePagination(LinkValue(a) + rest, isURL);
      Paginations([ma] + [m], isURL);
      [a] + Paginations([m], isURL);
      [a];
    }
  }

  /**
   * A segment `<u>;t` whose own `;` is not followed by ` rel="` starts no
   * match: the `[^;]+` of the url capture must stop at that `;`. With no other
   * `<` in it, the segment is skipped.
   */
  lemma SkipsSegmentWithOwnSemicolon(u: string, t: string, rest: string)
    requires ';' !in u && '<' !in u && '<' !in t
    requires |t| >= 6 && t[..6] != " rel=\""
    ensures Matches("<" + u + ">;" + t + rest) == Matches(rest)
  {
    var s := "<" + u + ">;" + t + rest;
    var semi := |u| + 2;
    assert s[semi - 1] == '>' && s[semi] == ';';
    assert forall j :: 1 <= j < semi - 1 ==> s[j] == u[j - 1];
    assert IndexOf(s, ';', 1) == Some(semi);
    assert s[semi + 1..semi + 7] == t[..6];
    assert s[semi - 1..semi - 1 + |Delimiter|][2..] == s[semi + 1..semi + 7];
    assert !DelimiterAt(s, semi - 1);
    assert MatchAt(s).None?;
    assert s[1..] == (u + ">;" + t) + rest;
    MatchesSkip(u + ">;" + t, rest);
  }

  /** So `<a-link>, <u>;t<b-link>` yields both links. */
  lemma KeepsLinkAfterSemicolonSegment(a: Pagination, b: Pagination, u: string, t: string, isURL: string -> bool)
    requires |a.url| > 0 && ';' !in a.url && isURL(a.url)
    requires |b.url| > 0 && ';' !in b.url && isURL(b.url)
    requires ';' !in u && '<' !in u && '<' !in t
    requires |t| >= 6 && t[..6] != " rel=\""
    ensures ParsePagination(LinkValue(a) + ", " + ("<" + u + ">;" + t) + LinkValue(b), isURL) == [a, b]
  {
    var seg := "<" + u + ">;" + t;
    var rest := ", " + (seg + LinkValue(b));
    SegmentSplit(LinkValue(a), seg, LinkValue(b));
    var ma := LinkMatch(a.url, a.relation.RawValue(), |LinkValue(a)|);
    MatchesAfterLinkValue(a, rest);
    MatchesAfterComma(seg + LinkValue(b));
    SkipsSegmentWithOwnSemicolon(u, t, LinkValue(b));
    SingleLinkParses(b, isURL);
    PaginationFromLink(a, isURL);
    PaginationsCons(ma, Matches(LinkValue(b)), a, isURL);
  }

  /** Proof step for `KeepsLinkAfterSemicolonSegment`: how the header `x, seg y` splits after `x`. */
  lemma SegmentSplit(x: string, seg: string, y: string)
    ensures x + ", " + seg + y == x + (", " + (seg + y))
  {
  }
}
