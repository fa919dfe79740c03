/**
 * Foundation's `URL`, reduced to what the pagination code does with it: an
 * origin (scheme and host), a list of path segments and a list of query items.
 */
module Urls {
  import opened Outcomes

  /** `URLQueryItem`: a name with an optional value. */
  datatype QueryItem = QueryItem(name: string, value: Option<string>)

  datatype Url = Url(origin: string, path: seq<string>, query: seq<QueryItem>)

  /** `deletingLastPathComponent()`; a URL without path segments is returned unchanged. */
  function DeletingLastPathComponent(u: Url): Url {
    if |u.path| == 0 then u else u.(path := u.path[..|u.path| - 1])
  }

  /** `appending(path:)` with a single segment. */
  function AppendingPath(u: Url, segment: string): Url {
    u.(path := u.path + [segment])
  }

  /** `appending(queryItems:)`, and `append(queryItems:)` on a `var`. */
  function AppendingQueryItems(u: Url, items: seq<QueryItem>): Url {
    u.(query := u.query + items)
  }
}
