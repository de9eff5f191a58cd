/**
 * PHP's URL and query-string built-ins as the image processor and the URL helpers
 * use them: `parse_url` (its path and query parts), `explode`, `parse_str` and
 * `http_build_query` on a flat array of string keys and values.
 */
module PhpUrl {
  import opened Optional
  import opened PhpArray
  import opened PhpString

  /** The parts of `parse_url` the plugin reads; `None` where PHP leaves the key unset. */
  datatype UrlParts = UrlParts(path: Option<string>, query: Option<string>)

  predicate IsSchemeChar(c: char) {
    'a' <= c <= 'z' || 'A' <= c <= 'Z' || '0' <= c <= '9' || c == '+' || c == '-' || c == '.'
  }

  /**
   * Where the path starts in a URL cut before its query and fragment: after the
   * authority of `scheme://host` or `//host`, which runs to the next '/'; at 0 otherwise.
   */
  function PathStart(r: string): (p: nat)
    ensures p <= |r|
  {
    var colon := IndexOf(r, ':');
    var authority :=
      if |r| >= 2 && r[..2] == "//" then 2
      else if 0 < colon && colon + 3 <= |r| && r[colon..colon + 3] == "://"
              && forall k :: 0 <= k < colon ==> IsSchemeChar(r[k]) then colon + 3
      else -1;
    if authority < 0 then 0
    else
      var slash := IndexOf(r[authority..], '/');
      if slash < 0 then |r| else authority + slash
  }

  /**
   * `parse_url($url)`: the fragment starts at the first '#', the query after the first
   * '?' before it (set even when empty, as in PHP 8), and the path is what precedes the
   * query once the scheme and authority are skipped (unset when empty).
   */
  function ParseUrl(url: string): UrlParts {
    var h := IndexOf(url, '#');
    var u := if h < 0 then url else url[..h];
    var q := IndexOf(u, '?');
    var rest := if q < 0 then u else u[..q];
    var path := rest[PathStart(rest)..];
    UrlParts(if path == "" then None else Some(path), if q < 0 then None else Some(u[q + 1..]))
  }

  /** A URL with neither '?' nor '#' has no query, and a root-relative one is all path. */
  lemma ParseRootPath(p: string)
    requires p != [] && p[0] == '/' && (|p| == 1 || p[1] != '/')
    requires '?' !in p && '#' !in p
    ensures ParseUrl(p) == UrlParts(Some(p), None)
  {
    IndexOfSpec(p, '#');
    IndexOfSpec(p, '?');
    assert !IsSchemeChar(p[0]);
  }

  /** In `scheme://host/path`, the path starts at the '/' that ends the host. */
  lemma PathStartAbsolute(scheme: string, host: string, p: string)
    requires scheme != [] && forall k :: 0 <= k < |scheme| ==> IsSchemeChar(scheme[k])
    requires '/' !in host && p != [] && p[0] == '/'
    ensures PathStart(scheme + "://" + host + p) == |scheme| + 3 + |host|
  {
    var url := scheme + "://" + host + p;
    var colon := |scheme|;
    assert ':' !in scheme by {
      forall k | 0 <= k < |scheme| ensures scheme[k] != ':' {
        assert IsSchemeChar(scheme[k]);
      }
    }
    assert url == scheme + [':'] + ("//" + host + p);
    IndexOfAfter(scheme, ':', "//" + host + p);
    assert url[colon..colon + 3] == "://";
    assert url[..colon] == scheme;
    assert url[0] != '/' by { assert IsSchemeChar(scheme[0]); }
    assert url[colon + 3..] == host + ['/'] + p[1..];
    IndexOfAfter(host, '/', p[1..]);
  }

  /**
   * An absolute URL `scheme://host/path` without a query or fragment: the path is
   * everything from the '/' that ends the host.
   */
  lemma ParseAbsolute(scheme: string, host: string, p: string)
    requires scheme != [] && forall k :: 0 <= k < |scheme| ==> IsSchemeChar(scheme[k])
    requires host != [] && '/' !in host && '?' !in host && '#' !in host
    requires p != [] && p[0] == '/' && '?' !in p && '#' !in p
    ensures ParseUrl(scheme + "://" + host + p) == UrlParts(Some(p), None)
  {
    hide PathStart;
    var url := scheme + "://" + host + p;
    assert '#' !in "://" && '?' !in "://";
    assert '#' !in url && '?' !in url;
    IndexOfSpec(url, '#');
    IndexOfSpec(url, '?');
    PathStartAbsolute(scheme, host, p);
    assert url[|scheme| + 3 + |host|..] == p;
  }

  /** Appending `?query` to a URL with neither '?' nor '#' sets exactly that query and keeps the path. */
  lemma ParseWithQuery(base: string, query: string)
    requires '?' !in base && '#' !in base && '#' !in query
    ensures ParseUrl(base + "?" + query) == UrlParts(ParseUrl(base).path, Some(query))
  {
    var url := base + "?" + query;
    IndexOfSpec(url, '#');
    IndexOfSpec(base, '#');
    IndexOfSpec(base, '?');
    IndexOfAfter(base, '?', query);
    assert url[..|base|] == base;
    assert url[|base| + 1..] == query;
  }

  /** `explode($c, $s)`: the pieces between the occurrences of `c`, in order. */
  function Split(s: string, c: char): (parts: seq<string>)
    ensures |parts| >= 1
    decreases |s|
  {
    var i := LastIndexOf(s, c);
    if i < 0 then [s] else Split(s[..i], c) + [s[i + 1..]]
  }

  /** No piece of `explode` holds the separator, nor any character the string does not hold. */
  lemma {:induction false} SplitAvoids(s: string, c: char, x: char)
    ensures forall k :: 0 <= k < |Split(s, c)| ==> c !in Split(s, c)[k]
    ensures x !in s ==> forall k :: 0 <= k < |Split(s, c)| ==> x !in Split(s, c)[k]
    decreases |s|
  {
    var i := LastIndexOf(s, c);
    LastIndexOfSpec(s, c);
    if i >= 0 {
      SplitAvoids(s[..i], c, x);
    }
  }

  /** `explode` undoes `implode` when no part holds the separator. */
  lemma {:induction false} SplitJoin(parts: seq<string>, c: char)
    requires |parts| >= 1 && forall k :: 0 <= k < |parts| ==> c !in parts[k]
    ensures Split(Join(parts, [c]), c) == parts
    decreases |parts|
  {
    var n := |parts| - 1;
    if n == 0 {
      LastIndexOfSpec(parts[0], c);
    } else {
      var front := Join(parts[..n], [c]);
      assert Join(parts, [c]) == front + [c] + parts[n];
      LastIndexOfBefore(front, c, parts[n]);
      assert (front + [c] + parts[n])[..|front|] == front;
      assert (front + [c] + parts[n])[|front| + 1..] == parts[n];
      SplitJoin(parts[..n], c);
      assert parts[..n] + [parts[n]] == parts;
    }
  }

  /** The `key=value` pieces of `http_build_query`, in the array's order. */
  function QueryPieces(params: Entries<string>): (r: seq<string>)
    ensures |r| == |params|
    decreases |params|
  {
    if params == [] then []
    else
      var n := |params| - 1;
      QueryPieces(params[..n]) + [params[n].0 + "=" + params[n].1]
  }

  lemma {:induction false} QueryPiecesAt(params: Entries<string>, k: nat)
    requires k < |params|
    ensures QueryPieces(params)[k] == params[k].0 + "=" + params[k].1
    decreases |params|
  {
    var n := |params| - 1;
    if k < n {
      QueryPiecesAt(params[..n], k);
    }
  }

  /** `http_build_query($params)` on string values, without percent-encoding. */
  function BuildQuery(params: Entries<string>): string {
    Join(QueryPieces(params), "&")
  }

  /** One piece of `parse_str`: the key before the first '=', the value after it ("" without one). */
  function SplitPair(piece: string): (string, string) {
    var i := IndexOf(piece, '=');
    if i < 0 then (piece, "") else (piece[..i], piece[i + 1..])
  }

  /** `parse_str` over the pieces in order: an empty key is dropped, a repeated key overwritten. */
  function ParsePairs(pieces: seq<string>): Entries<string>
    decreases |pieces|
  {
    if pieces == [] then []
    else
      var n := |pieces| - 1;
      var acc := ParsePairs(pieces[..n]);
      var kv := SplitPair(pieces[n]);
      if kv.0 == "" then acc else Put(acc, kv.0, kv.1)
  }

  /** `parse_str($query, $params)` on a flat query, without percent-decoding. */
  function ParseStr(query: string): Entries<string> {
    ParsePairs(Split(query, '&'))
  }

  /** A parameter array `http_build_query` writes and `parse_str` reads back as it is. */
  predicate PlainParams(params: Entries<string>) {
    && UniqueKeys(params)
    && forall e :: e in params ==> e.0 != "" && '&' !in e.0 && '=' !in e.0 && '&' !in e.1
  }

  /** No key or value of the array holds `x`. */
  predicate Avoids(params: Entries<string>, x: char) {
    forall e :: e in params ==> x !in e.0 && x !in e.1
  }

  /** The key of a piece holds no '=', and neither part holds a character the piece does not. */
  lemma SplitPairAvoids(piece: string, x: char)
    ensures '=' !in SplitPair(piece).0
    ensures x !in piece ==> x !in SplitPair(piece).0 && x !in SplitPair(piece).1
  {
    IndexOfSpec(piece, '=');
  }

  /** Assigning a pair that keeps the array plain and free of `x` keeps it so. */
  lemma PutPlain(d: Entries<string>, k: string, v: string, x: char)
    requires PlainParams(d) && k != "" && '&' !in k && '=' !in k && '&' !in v
    ensures PlainParams(Put(d, k, v))
    ensures Avoids(d, x) && x !in k && x !in v ==> Avoids(Put(d, k, v), x)
  {
    PutUnique(d, k, v);
    PutEntries(d, k, v);
  }

  /** `parse_str` over pieces free of '&' (and of `x`) gives a plain array (free of `x`). */
  lemma {:induction false} ParsePairsPlain(pieces: seq<string>, x: char)
    requires forall k :: 0 <= k < |pieces| ==> '&' !in pieces[k]
    ensures PlainParams(ParsePairs(pieces))
    ensures (forall k :: 0 <= k < |pieces| ==> x !in pieces[k]) ==> Avoids(ParsePairs(pieces), x)
    decreases |pieces|
  {
    if pieces != [] {
      var n := |pieces| - 1;
      assert forall k :: 0 <= k < n ==> pieces[..n][k] == pieces[k];
      ParsePairsPlain(pieces[..n], x);
      var kv := SplitPair(pieces[n]);
      SplitPairAvoids(pieces[n], '&');
      SplitPairAvoids(pieces[n], x);
      if kv.0 != "" {
        PutPlain(ParsePairs(pieces[..n]), kv.0, kv.1, x);
      }
    }
  }

  /** Whatever the query, `parse_str` gives a plain array, free of any character the query lacks. */
  lemma ParseStrPlain(query: string, x: char)
    ensures PlainParams(ParseStr(query))
    ensures x !in query ==> Avoids(ParseStr(query), x)
  {
    SplitAvoids(query, '&', x);
    ParsePairsPlain(Split(query, '&'), x);
  }

  /** A piece `k=v` whose key holds no '=' splits back into `k` and `v`. */
  lemma SplitPairOf(k: string, v: string)
    requires '=' !in k
    ensures SplitPair(k + "=" + v) == (k, v)
  {
    IndexOfAfter(k, '=', v);
    assert (k + "=" + v)[..|k|] == k && (k + "=" + v)[|k| + 1..] == v;
  }

  /** Dropping the last entry of a plain array leaves a plain array without its key. */
  lemma PlainFront(params: Entries<string>)
    requires PlainParams(params) && params != []
    ensures var n := |params| - 1;
      && PlainParams(params[..n])
      && params[n].0 != "" && '=' !in params[n].0
      && params[n].0 !in Keys(params[..n])
  {
    var n := |params| - 1;
    var front := params[..n];
    assert forall e :: e in front ==> e in params;
    assert params[n] in params;
    forall i | 0 <= i < n
      ensures Keys(front)[i] != params[n].0
    {
      assert front[i] == params[i];
    }
  }

  /** `parse_str` over the pieces `http_build_query` writes gives back the array. */
  lemma {:induction false} ParsePairsOfPieces(params: Entries<string>)
    requires PlainParams(params)
    ensures ParsePairs(QueryPieces(params)) == params
    decreases |params|
  {
    hide Put, SplitPair;
    if params != [] {
      var n := |params| - 1;
      var front := params[..n];
      var (k, v) := params[n];
      PlainFront(params);
      ParsePairsOfPieces(front);
      var pieces := QueryPieces(params);
      assert pieces[..n] == QueryPieces(front) && pieces[n] == k + "=" + v;
      SplitPairOf(k, v);
      assert ParsePairs(pieces) == Put(ParsePairs(pieces[..n]), k, v);
      PutAbsent(front, k, v);
      assert front + [(k, v)] == params;
    }
  }

  /** `parse_str` reads back what `http_build_query` writes from a plain array. */
  lemma ParseStrOfBuildQuery(params: Entries<string>)
    requires PlainParams(params)
    ensures ParseStr(BuildQuery(params)) == params
  {
    var pieces := QueryPieces(params);
    if params == [] {
      assert BuildQuery(params) == "";
      assert Split("", '&') == [""];
      assert SplitPair("") == ("", "");
      assert ParsePairs([""]) == ParsePairs([]);
    } else {
      forall k | 0 <= k < |pieces| ensures '&' !in pieces[k] {
        QueryPiecesAt(params, k);
        assert params[k] in params;
      }
      SplitJoin(pieces, '&');
      ParsePairsOfPieces(params);
    }
  }

  /** `http_build_query` of an array free of `x` holds no `x`, unless `x` is one of its separators. */
  lemma BuildQueryAvoids(params: Entries<string>, x: char)
    requires Avoids(params, x) && x != '&' && x != '='
    ensures x !in BuildQuery(params)
  {
    var pieces := QueryPieces(params);
    forall k | 0 <= k < |pieces| ensures x !in pieces[k] {
      QueryPiecesAt(params, k);
      assert params[k] in params;
    }
    JoinAvoids(pieces, "&", x);
  }
}
