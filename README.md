# Pager — a verified model of the infinite-scroll list core

Pager is a SwiftUI playground. It shows a list that grows as the user scrolls. When one of the last few rows appears, the list model fetches another page and appends it. This project models that core in Dafny and proves properties about it:

- **`ListState`** — the four states a list can be in: initial, loading, loaded and error. Loading, loaded and error carry the items fetched so far, and error also carries the failure. The model covers `isLoading`, `items`, `lastIndices(n)` (the last `n` row indices, built on `Collection.last(n:)`) and the debug description.
- **The list-of-strings model** (`ListOfStrings/ListView.swift`) — `load()`, `refresh()`, `reportAppearance(ofItemAtIndex:)` and `description(forItemAtIndex:)`. It is a Dafny class whose `state` field the methods reassign.
  - Every `await` is a point where other calls may run. So `load()` is split into `BeginLoad` (the guard and the switch to `.loading`) and `FinishLoad` (settling the fetch). `FinishLoad` reads the items present when the fetch completes, as the source does.
  - The fetched page, or the error thrown, is a parameter.
- **The Picsum client** (`Picsum.swift` and `ListOfImages/Picsum.swift`):
  - link relations and `Pagination`;
  - choosing the URL of the next or previous page from the links;
  - the first-page request URL with its `page`/`limit` query;
  - `imageBaseURL` and `downloadURL(size:blur:grayscale:)`;
  - both versions of `parsePagination(from:)`, which read an HTTP `Link` header.

  Both regular expressions are written out as scanners with the same matching rules:
  - **Older file:** `<(?<url>http[|s]://[\d\w].*?)>; rel="(?<rel>[\w].*?)"`. Both captures are lazy, `.` does not cross a line terminator, and the url scan backtracks to a later `>; rel="` when the rel part cannot match.
  - **Newer file:** `<(?<url>[^;]+)>; rel="(?<rel>[^,]+)"`. Both captures are greedy.

  The two files declare identical `Pagination` and `Response` types and `Metadata` types with the same stored fields, and the model defines them once in module `Picsum`. Only the newer file gives `Metadata` the members `imageBaseURL` and `downloadURL(size:blur:grayscale:)` and declares `BlurRadius` and `ImageSize`; module `ImagesPicsum` models those.
- **The image list model** (`ImagesModel`):
  - `load()` always requests the first page (page 10, limit 5). It appends the images and replaces the stored links.
  - `reportAppearance(_:)` acts only for the last image. It requests the stored `next` link, and records `badURL` when there is none.
  - The source has two copies of this class, one beside each Picsum file. They are modelled as `ImagesList.ImagesModel` and `LegacyImagesList.ImagesModel`.

Behaviour the model makes explicit:
- `refresh()` first resets the state to `.initial`. That clears the loading guard, so a refresh that starts while a load is in flight always starts a second fetch. `StringList.Model.BeginRefresh` states that it always starts.
- The one-fetch-at-a-time guard is checked by the string list's `load()` and by both image models' `load()` and `reportAppearance(_:)`. Only the string list's `refresh()` gets past it, by resetting the state first.
- When the earlier load then settles, its page lands in the refreshed, empty list and the state leaves `.loading` although the refresh's own fetch is still in flight (`StringList.LoadOverlappingRefresh`).
- Whether a malformed segment between two links is skipped depends on its shape, differently for each parser.
  - The newer parser's greedy `[^;]+` runs from a segment's `<` to the first `;` after it. If the segment has no `;` of its own, that is the `;` of the next link, so in `…, <x>, <https://a/1>; rel="prev"` the url capture is `x>, <https://a/1` (`ImagesPicsum.AngleSegmentSwallowsNextLink`, `ImagesPicsum.AngleSegmentLosesNextLink`). If the segment has its own `;` not followed by ` rel="`, as in `<https://c/3>; title="x", `, no match starts there and the segment is skipped (`ImagesPicsum.SkipsSegmentWithOwnSemicolon`, `ImagesPicsum.KeepsLinkAfterSemicolonSegment`). A segment without `<` is always skipped (`ImagesPicsum.SkipsMalformedSegment`).
  - The older parser starts a match only at `<` followed by `https://` or `http|://` and a word character. A segment such as `<x>` does not, and is skipped (`Picsum.LegacyAngleSegmentNoMatch`, `Picsum.LegacySkipsAngleSegment`, `Picsum.LegacyKeepsLinkAfterAngleSegment`; these three cover the literal `<x>` only). A segment such as `<https://c/3>` does start one, and the lazy url capture runs past its `>, <` to the next link's `>; rel="`. So `<https://a/2>; rel="next", <https://c/3>, <https://a/1>; rel="prev"` gives one further match, with url `https://c/3>, <https://a/1` (`Picsum.LegacyHttpsSegmentSwallowsNextLink`, `Picsum.LegacyHttpsSegmentLosesNextLink`).
  - In both parsers the link after a swallowing segment is dropped when `URL(string:)` rejects the merged url, and is kept with the merged url otherwise.
- The image models' `load()` always requests the fixed first page and appends it, whatever is already listed (`ImagesList.ImagesModel.Load`, `LegacyImagesList.ImagesModel.Load`). The error view's retry tap calls `load()` (Pager/ListOfImages/ImagesView.swift:89-95), so a retry after a failed next-page fetch lists the first page's images a second time and sets the stored links back to the first page's. The ids are then no longer distinct, which is the hypothesis of `Picsum.LastItemOnly`.
- Neither `parsePagination` ever throws. Text that does not match is skipped. A match whose relation is not one of `first`, `last`, `next` or `prev` is dropped, and so is one whose url `URL(string:)` rejects. The links around it are kept (`Picsum.PaginationsSkip`, `Picsum.LegacyDropsUnrecognisedSegment`, `ImagesPicsum.DropsUnrecognisedSegment`).
- The older parser accepts `http|://` as well as `https://`, because `[|s]` is a character class. It ignores plain `http://` links (`Picsum.LegacyIgnoresPlainHttp`).

Parameters stand in for what the model cannot see:
- `isURL` stands for Foundation's `URL(string:)`.
- `describe` stands for the text of an interpolated error (`\(error)`) and for the row text of `description(forItemAtIndex:)`.
- `Result` values stand for network outcomes.

Module layout, one module per file:
- `Outcomes`: Option, Result, Failure.
- `Decimal`: Swift's `Int` interpolation, with `ParseInt` as a reference that reads the text back. `ParseInt` is not Swift's `Int(_:)`, which the source never calls: it rejects a leading `+`, and its integers do not overflow.
- `LastElements`.
- `ListStates`.
- `Urls`: the Foundation URL operations used.
- `Picsum`: shared types, page selection, the older parser.
- `ImagesPicsum`: image URLs and the newer parser.
- `StringList`.
- `ImagesList`, `LegacyImagesList`.

## Model

| member | source | states |
|---|---|---|
| LastElements.Last | Pager/Collection+LastElements.swift:4-8 | the result has min(n, count) elements and is the suffix of the collection; `n` at least the count gives the whole collection, `n == 0` gives nothing |
| ListStates.ListState.IsLoading | Pager/ListState.swift:10-16 | a fetch is in flight exactly when the state is the loading state of its own items |
| ListStates.ListState.Items | Pager/ListState.swift:18-25 | `.initial` has no items; every other state carries its items |
| ListStates.ListState.LastIndices | Pager/ListState.swift:27-29 | the result has min(n, count) indices, they are consecutive and end at count-1, and an index is in it exactly when max(0, count-n) <= index < count |
| ListStates.DescriptionReportsCount | Pager/ListState.swift:33-48 | two states of the same case (with the same error text) have equal debug descriptions exactly when they hold the same number of items |
| ListStates.TaggedInjective | Pager/ListState.swift:38-42 | a "<head> (<n> elements)" text determines n |
| ListStates.Settled | Pager/ListOfStrings/ListView.swift:36-41 | a settled fetch is not loading and keeps the earlier items as a prefix; success gives `.loaded(items + page)`, failure `.error(items, error)` |
| Decimal.IntToStringRoundTrip | Pager/ListOfImages/Picsum.swift:46-47 | the decimal text of any integer parses back to that integer |
| Decimal.NatToStringInjective | Pager/ListState.swift:38-42 | distinct counts print differently |
| Decimal.IntToString | Pager/ListOfImages/Picsum.swift:46-47 | the text of an integer starts with `-` exactly when it is negative, followed by one or more digits without a leading zero (also `"\(page)"` and `"\(limit)"` at Pager/Picsum.swift:25) |
| Decimal.NatToString | Pager/ListState.swift:38-42 | the decimal text of a count is nonempty, all digits, with no leading zero |
| Decimal.NatToStringValue | Pager/ListOfImages/Picsum.swift:46-47 | the digits of a natural number denote that number |
| StringList.Model.constructor | Pager/ListOfStrings/ListView.swift:12-22 | a new model is initial and keeps the window size given, five by default, and the description |
| StringList.DefaultModel | Pager/ListOfStrings/ListView.swift:12-22 | a model built without a window size has the window of five rows |
| StringList.Model.BeginLoad | Pager/ListOfStrings/ListView.swift:29-32 | a fetch starts exactly when none is in flight, and then the state becomes loading with the same items; otherwise nothing changes |
| StringList.Model.FinishLoad | Pager/ListOfStrings/ListView.swift:34-41 | the items present when the fetch completes are extended by the page, or kept beside the error |
| StringList.Model.Load | Pager/ListOfStrings/ListView.swift:29-42 | a load with nothing interleaved is a no-op while loading and otherwise settles the fetch on the current items |
| StringList.Model.BeginRefresh | Pager/ListOfStrings/ListView.swift:24-26 | a refresh always starts a fetch, even while one is in flight, and empties the list |
| StringList.Model.Refresh | Pager/ListOfStrings/ListView.swift:24-27 | after a refresh the items are exactly the fetched page, or none beside the error |
| StringList.Model.ReportAppearance | Pager/ListOfStrings/ListView.swift:44-48 | a fetch starts exactly when the index is among the last `lastElementsCount` indices and none is in flight; outside that window nothing changes |
| StringList.Model.DescriptionForItem | Pager/ListOfStrings/ListView.swift:50-53 | the fixed "not available" text while the list is empty, else the description of the item at the index |
| StringList.LoadOverlappingRefresh | Pager/ListOfStrings/ListView.swift:24-41 | a load started before a refresh and settling after it leaves exactly its own page, loaded, while the refresh's fetch is still pending; both fetches start |
| StringList.LoadSettles | Pager/ListOfStrings/ListView.swift:29-42 | a load that runs leaves nothing in flight, keeps the old items as a prefix, and on failure keeps exactly the old items |
| StringList.LoadsOnlyExtend | Pager/ListOfStrings/ListView.swift:36-41 | no sequence of loads, successful or failed, removes or reorders an item |
| StringList.SuccessfulLoadsAppend | Pager/ListOfStrings/ListView.swift:36-38 | successful loads append their pages in order and leave the list loaded |
| StringList.TwoPagesOfFive | Pager/ListOfStrings/ListView.swift:36-38 | two pages of five from the initial state give ten items, the first five unchanged |
| StringList.TriggerWindowExample | Pager/ListState.swift:27-29 | with ten items and a window of two, rows 8 and 9 trigger a load and row 7 does not |
| Picsum.RelationFromRaw | Pager/Picsum.swift:49-51 | a relation exists exactly for `first`, `last`, `next`, `prev`, and it is the one whose raw value is the text |
| Picsum.RawValueRoundTrip | Pager/Picsum.swift:49-51 | the raw value of every relation reads back as that relation, so no two share one |
| Picsum.Pagination.IsNext | Pager/Picsum.swift:69-71 | a link is "next" exactly when its relation's raw value is `next` |
| Picsum.PaginationFrom | Pager/Picsum.swift:61-67 | a link is built exactly when the relation text is known and the url text is a URL, and it keeps both |
| Picsum.LastItemOnly | Pager/ListOfImages/ImagesView.swift:23 | with distinct ids, the `items.last?.id` guard passes for the last item and for no other |
| Picsum.SelectPage | Pager/Picsum.swift:29-32 | none exactly when no link has the relation; otherwise the first link that has it |
| Picsum.PageURL | Pager/Picsum.swift:29-32 | `badURL` exactly when no link has the relation; otherwise the url of the first link that has it |
| Picsum.FirstPageURL | Pager/Picsum.swift:23-27 | the list endpoint with exactly the query items `page` and `limit`, whose values read back as the given numbers |
| Picsum.Paginations | Pager/Picsum.swift:84-91 | dropping matches that make no link never yields more links than matches; what each match contributes is stated by `Picsum.PaginationsCons` (a link) and `Picsum.PaginationsSkip` (nothing) |
| Picsum.PaginationsAppend | Pager/Picsum.swift:84-91 | the links of two runs of matches are the links of each, in order |
| Picsum.QuoteFrom | Pager/Picsum.swift:76 | the lazy rel scan stops at a quote, crossing no other quote and no line terminator |
| Picsum.QuoteFromNone | Pager/Picsum.swift:76 | the rel scan fails only when a line terminator comes before every later quote |
| Picsum.LegacyRelEnd | Pager/Picsum.swift:76 | a rel match starts with a word character and ends before a quote, crossing no other quote and no line terminator |
| Picsum.LegacyRelCaptureShape | Pager/Picsum.swift:76 | the rel capture starts with a word character and holds no line terminator |
| Picsum.LegacyUrlEnd | Pager/Picsum.swift:76 | the url scan stops at a `>; rel="` after which the rel part matches, crossing no line terminator |
| Picsum.LegacyMatchAt | Pager/Picsum.swift:75-83 | a match consumes at least one character and no more than there is |
| Picsum.LegacyUrlCaptureShape | Pager/Picsum.swift:76 | the url capture starts with `http`, then `s` or `\|`, then `://` and a word character, and holds no line terminator |
| Picsum.LegacyMatchText | Pager/Picsum.swift:76 | the matched text is exactly `<url>; rel="rel"` with the two captures |
| Picsum.SchemePrefix | Pager/Picsum.swift:76 | the class `[\|s]` admits exactly the schemes `https://` and `http\|://` |
| Picsum.LegacyMatchSound | Pager/Picsum.swift:75-78 | a match's url starts with `http` then `s` or `\|`, then `://` and a word character, and has no line terminator; its rel starts with a word character |
| Picsum.LegacyMatches | Pager/Picsum.swift:79-83 | every match consumes at least one character, so a header yields at most as many matches as it has characters; their order and contents are stated by `Picsum.LegacyMatchesAfterLinkValue`, `Picsum.LegacyMatchesSkip` and `Picsum.LegacyMatchesSound` |
| Picsum.ParsePagination | Pager/Picsum.swift:74-92 | never more links than characters; which links are returned is stated by `Picsum.LegacyParseLinkHeader` (round trip), `Picsum.LegacyLinksAreHttps` (every link's scheme) and `Picsum.LegacyDropsUnrecognisedSegment` (an unrecognised entry is dropped, its neighbours kept) |
| Picsum.LegacyMatchesSound | Pager/Picsum.swift:75-83 | every match found anywhere in the header has those shapes |
| Picsum.PaginationsFromMatches | Pager/Picsum.swift:84-91 | every link kept comes from a match whose url and relation it carries |
| Picsum.LegacyLinksAreHttps | Pager/Picsum.swift:74-92 | every link parsed starts with `https://` or `http\|://` and has a word character after it |
| Picsum.LegacyIgnoresPlainHttp | Pager/Picsum.swift:76 | a plain `http://` link yields nothing |
| Picsum.QuoteFromScan | Pager/Picsum.swift:76 | a quote reached without crossing a quote or a line terminator is where the rel scan stops |
| Picsum.LegacyUrlEndScan | Pager/Picsum.swift:76 | the first `>; rel="` followed by a valid rel, reached without crossing `>` or a line terminator, is where the url scan stops |
| Picsum.LegacyMatchesParts | Pager/Picsum.swift:75-78 | a text starting with `<u>; rel="r"` matches with exactly u and r, whatever follows, when u has the url shape and no `>` |
| Picsum.MatchAtFromParts | Pager/Picsum.swift:75-78 | a text starting with `<u>; rel="r"` whose head fits and whose url scan stops right after u is matched with exactly u and r |
| Picsum.RawValueShape | Pager/Picsum.swift:49-51 | every relation's raw value is a valid rel capture and holds no comma |
| Picsum.LegacyMatchesLinkValue | Pager/Picsum.swift:75-78 | a well-formed link's header value matches with its url and relation, whatever follows |
| Picsum.LegacyMatchesAfterLinkValue | Pager/Picsum.swift:79-83 | the matches after a well-formed link's header value are that link's match and then those of the rest |
| Picsum.LegacyAngleSegmentNoMatch | Pager/Picsum.swift:76 | a segment `<x>` before a link value starts no match |
| Picsum.LegacySkipsAngleSegment | Pager/Picsum.swift:74-83 | the matches of `<x>, ` followed by a link value are exactly those of the link value |
| Picsum.LegacyKeepsLinkAfterAngleSegment | Pager/Picsum.swift:74-92 | `<a-link>, <x>, <b-link>` parses to both links, in order |
| Picsum.LegacyUrlEndScanPast | Pager/Picsum.swift:76 | the first `>; rel="` followed by a valid rel, reached without crossing another `>; rel="` start or a line terminator, is where the lazy url scan stops |
| Picsum.LegacyUrlEndPastAngles | Pager/Picsum.swift:76 | in `<u>; rel="r"`, the lazy url capture runs over every `>` of u that no `;` follows and stops right after u |
| Picsum.LegacyMatchesPastAngles | Pager/Picsum.swift:75-78 | `<u>; rel="r"` matches with exactly u and r when u has the url shape and no `>;`, even if u holds `>` |
| Picsum.LegacyHttpsSegmentSwallowsNextLink | Pager/Picsum.swift:76 | a segment `<c>, ` whose c passes for a url, before a link value, is read together with it as one match whose url is `c>, <` followed by the link's url |
| Picsum.LegacyHttpsSegmentLosesNextLink | Pager/Picsum.swift:74-92 | `<a-link>, <c>, <b-link>` with such a c parses to the first link alone when `URL(string:)` rejects the merged url, and otherwise to the first link and b's relation with the merged url |
| Picsum.LegacyLinkTextMatches | Pager/Picsum.swift:74-83 | `<u>; rel="r"` is one match with captures exactly `u` and `r`, followed by the matches of what comes after, for every url and rel of the pattern's shapes |
| Picsum.LegacyDropsUnrecognisedSegment | Pager/Picsum.swift:74-92 | an entry between two links whose relation is not one of the four, or whose url `URL(string:)` rejects, is dropped, and the two links are kept in order |
| Picsum.LegacyDropsUnknownRelation | Pager/Picsum.swift:74-92 | an entry with relation `foo` between two links is dropped, and the two links are kept in order |
| Picsum.LegacyMatchesSkip | Pager/Picsum.swift:79-83 | text without `<` before a header adds no matches |
| Picsum.PaginationsCons | Pager/Picsum.swift:84-91 | a match that makes a link puts that link first, before the links of the later matches |
| Picsum.PaginationsSkip | Pager/Picsum.swift:84-91 | a match whose relation is unknown or whose url `URL(string:)` rejects contributes nothing, and the links of the later matches are kept |
| Picsum.PaginationFromLink | Pager/Picsum.swift:61-67 | building a link from its own url and raw relation gives it back |
| Picsum.LegacyParseLinkHeader | Pager/Picsum.swift:74-92 | parsing a `Link` header written from well-formed links gives back exactly those links in order |
| Picsum.LegacyParsesNextAndPrev | Pager/Picsum.swift:74-92 | a next/prev header parses to the two links in order |
| ImagesPicsum.ImageBaseURL | Pager/ListOfImages/Picsum.swift:33-38 | the download URL with its last two path segments (width and height) removed |
| ImagesPicsum.ImageBaseURLExample | Pager/ListOfImages/Picsum.swift:34-37 | `…/id/48/5000/3333` becomes `…/id/48` |
| ImagesPicsum.DownloadURL | Pager/ListOfImages/Picsum.swift:40-56 | same origin; a size replaces width and height in the path, `.original` keeps the path; `blur` then `grayscale` are appended to the query; with nothing asked the URL is the download URL |
| ImagesPicsum.BlurReadsBack | Pager/ListOfImages/Picsum.swift:49-54 | after a query without `blur`, the blur item and then the grayscale item appended read back the radius asked for, and nothing when none was |
| ImagesPicsum.BlurItemReadsBack | Pager/ListOfImages/Picsum.swift:50 | a `blur` item whose value is the decimal text of a number reads back that number |
| ImagesPicsum.GrayscaleReadsBack | Pager/ListOfImages/Picsum.swift:49-54 | after a query without `grayscale`, the flag reads back exactly as asked |
| ImagesPicsum.SizeReadsBack | Pager/ListOfImages/Picsum.swift:44-47 | the width and height appended as path segments read back as those numbers, after the unchanged base path |
| ImagesPicsum.QueryBlurAppend | Pager/ListOfImages/Picsum.swift:50-52 | query items named otherwise do not hide a later `blur` |
| ImagesPicsum.DownloadURLReadsBack | Pager/ListOfImages/Picsum.swift:40-56 | the blur radius and the grayscale flag asked for read back from the resulting query, and a size's width and height read back from the last two path segments after the base path |
| ImagesPicsum.IndexOf | Pager/ListOfImages/Picsum.swift:112 | the first occurrence of a character at or after a position, or none |
| ImagesPicsum.LastIndexOf | Pager/ListOfImages/Picsum.swift:112 | the last occurrence of a character in a range, or none |
| ImagesPicsum.MatchAt | Pager/ListOfImages/Picsum.swift:112 | a match consumes at least one character and no more than there is |
| ImagesPicsum.CommaStop | Pager/ListOfImages/Picsum.swift:112 | the greedy rel capture `[^,]+` is bounded by the first comma at or after its start, or the end |
| ImagesPicsum.RelMatchAt | Pager/ListOfImages/Picsum.swift:112 | the rest of a match after a url capture consumes no more than there is |
| ImagesPicsum.RelMatchSound | Pager/ListOfImages/Picsum.swift:112 | after a url capture free of `;`, the match text is `<url>; rel="rel"` with a nonempty rel free of `,` |
| ImagesPicsum.MatchSound | Pager/ListOfImages/Picsum.swift:112 | a match's url is nonempty without `;`, its rel nonempty without `,`, and the header text is `<url>; rel="rel"` |
| ImagesPicsum.FirstSemicolon | Pager/ListOfImages/Picsum.swift:112 | in a text starting with `<u>; rel="`, u free of `;`, the url capture `[^;]+` ends right after u |
| ImagesPicsum.RelMatchComplete | Pager/ListOfImages/Picsum.swift:112 | after the url capture u, the rel capture extends r, and is exactly r when a comma or the end follows the closing quote |
| ImagesPicsum.MatchComplete | Pager/ListOfImages/Picsum.swift:112 | a text starting with `<u>; rel="r"`, u nonempty without `;` and r nonempty without `,`, matches with url u and a rel extending r, exactly r when a comma or the end follows |
| ImagesPicsum.MatchesLinkValue | Pager/ListOfImages/Picsum.swift:112 | a link's header value followed by a comma or the end matches with its url and relation |
| ImagesPicsum.Matches | Pager/ListOfImages/Picsum.swift:111-112 | every match consumes at least one character, so a header yields at most as many matches as it has characters; their order and contents are stated by `ImagesPicsum.MatchesAfterLinkValue`, `ImagesPicsum.MatchesSkip` and `ImagesPicsum.MatchSound` |
| ImagesPicsum.ParsePagination | Pager/ListOfImages/Picsum.swift:110-119 | never more links than characters; which links are returned is stated by `ImagesPicsum.ParseLinkHeader` (round trip), `ImagesPicsum.MatchSound` (the shape of each match), `ImagesPicsum.NoAngleBracketNoLinks` and `ImagesPicsum.DropsUnrecognisedSegment` (an unrecognised entry is dropped, its neighbours kept) |
| ImagesPicsum.MatchesAfterLinkValue | Pager/ListOfImages/Picsum.swift:111-112 | the matches after a link's header value are that link's match and then those of the rest |
| ImagesPicsum.MatchesSkip | Pager/ListOfImages/Picsum.swift:111-112 | text without `<` before a header adds no matches |
| ImagesPicsum.NoAngleBracketNoLinks | Pager/ListOfImages/Picsum.swift:110-119 | a header without `<` yields no links |
| ImagesPicsum.ParseLinkHeader | Pager/ListOfImages/Picsum.swift:110-119 | parsing a `Link` header written from links whose urls are nonempty URLs free of `;` gives back exactly those links in order |
| ImagesPicsum.ParsesNextAndPrev | Pager/ListOfImages/Picsum.swift:110-119 | a next/prev header parses to the two links in order |
| ImagesPicsum.SkipsMalformedSegment | Pager/ListOfImages/Picsum.swift:110-119 | a segment without `<` between two links is skipped and both links are kept |
| ImagesPicsum.LinkTextMatches | Pager/ListOfImages/Picsum.swift:112 | `<u>; rel="r"` before a comma or the end is one match with captures exactly `u` and `r`, followed by the matches of what comes after |
| ImagesPicsum.DropsUnrecognisedSegment | Pager/ListOfImages/Picsum.swift:110-119 | an entry between two links whose relation is not one of the four, or whose url `URL(string:)` rejects, is dropped, and the two links are kept in order |
| ImagesPicsum.DropsUnknownRelation | Pager/ListOfImages/Picsum.swift:110-119 | an entry with relation `foo` between two links is dropped, and the two links are kept in order |
| ImagesPicsum.AngleSegmentSwallowsNextLink | Pager/ListOfImages/Picsum.swift:112 | the segment `<x>, ` before a link value is read together with it as one match whose url is `x>, <` followed by the link's url |
| ImagesPicsum.AngleSegmentMatches | Pager/ListOfImages/Picsum.swift:111-112 | that segment and the link after it make exactly one match |
| ImagesPicsum.AngleSegmentLosesNextLink | Pager/ListOfImages/Picsum.swift:110-119 | `<a-link>, <x>, <b-link>` parses to the first link alone when `URL(string:)` rejects the merged url |
| ImagesPicsum.SkipsSegmentWithOwnSemicolon | Pager/ListOfImages/Picsum.swift:111-112 | a segment `<u>;t` whose `;` is not followed by ` rel="`, with no other `<`, starts no match and adds none |
| ImagesPicsum.KeepsLinkAfterSemicolonSegment | Pager/ListOfImages/Picsum.swift:110-119 | `<a-link>, <u>;t<b-link>` with such a segment parses to both links, in order |
| ImagesList.ImagesModel.constructor | Pager/ListOfImages/ImagesView.swift:5-6 | a new model is initial with no stored links |
| ImagesList.ImagesModel.Load | Pager/ListOfImages/ImagesView.swift:8-20 | nothing happens while loading; otherwise the first page (10, limit 5) is requested, and success appends the images and replaces the links, failure keeps items and links beside the error |
| ImagesList.ImagesModel.ReportAppearance | Pager/ListOfImages/ImagesView.swift:22-35 | only the last image, when nothing is loading, acts: with a stored `next` link its url is requested and the outcome settled as in `load()`, without one the state becomes `badURL` and nothing is requested |
| LegacyImagesList.ImagesModel.constructor | Pager/ImagesView.swift:17-18 | a new model is initial with no stored links |
| LegacyImagesList.ImagesModel.Load | Pager/ImagesView.swift:20-32 | nothing happens while loading; otherwise the first page (10, limit 5) is requested, and success appends the images and replaces the links, failure keeps items and links beside the error |
| LegacyImagesList.ImagesModel.ReportAppearance | Pager/ImagesView.swift:34-47 | only the last image, when nothing is loading, acts: with a stored `next` link its url is requested and the outcome settled as in `load()`, without one the state becomes `badURL` and nothing is requested |

## Left out

- The network, JSON decoding and HTTP response headers are not modelled. Each fetch's result is a `Result` parameter, and the `Link` header is the string given to the parsers.
- `Task.sleep`, the request duration, clocks and randomness (`RandomData`) are not modelled. They do not change any state the model keeps.
- Actor isolation and task scheduling are not modelled. For the string list, interleavings are modelled at the awaits of `load()` (Pager/ListOfStrings/ListView.swift:35-36, between which no state changes), through `BeginLoad` and `FinishLoad`. The image models' `load()` and `reportAppearance(_:)` run to completion.
- SwiftUI views, colours, `Reporter` and the `ImageFetcher` stub have no state or logic the core depends on.
- `URL(string:)` is the `isURL` parameter. Percent-encoding, normalisation and the slash handling of `appending(path:)` and `deletingLastPathComponent()` are not modelled: a URL is an origin, a list of path segments and a list of query items. So the model loses the trailing slash Foundation leaves after `deletingLastPathComponent()` (`…/id/48/`, not the `…/id/48` of the comment at Pager/ListOfImages/Picsum.swift:34).
- `Urls.DeletingLastPathComponent`: the model drops the last path segment and leaves an empty path alone. Foundation's `/..` results on a root path are not modelled.
- Picsum.LegacyMatchAt: `\w` and `\d` are taken as ASCII letters, digits and `_`. ICU also accepts other Unicode letters and digits.
- Both parsers work on Unicode scalars. Differences between Swift grapheme clusters, UTF-16 `NSRange` offsets and scalars are not modelled.
- `Failure` keeps only `badURL` and an opaque thrown error. The text an error interpolates to is the `describe` parameter.
- StringList.Model.constructor: `lastElementsCount` is a `nat`. Swift accepts a negative count here, and `reportAppearance(ofItemAtIndex:)` then traps inside `last(n:)` once the list has items (with no items, `last(n:)` returns before using the count). That later trap is not modelled.
- ListStates.ListState.DebugDescription has no row of its own. What it promises is stated by `ListStates.DescriptionReportsCount`.
