/**
 * The cold-start seed of southpark.go: InitialUrl takes the address the
 * site's front page redirected to, parses it as a request URI, replaces its
 * path by the path of the first episode and prints it again.
 *
 * Go's net/url is written out as far as InitialUrl depends on it: the
 * parser behind url.ParseRequestURI (control characters, the empty URL,
 * "*", the scheme, the query, opaque URLs, the authority, the escapes of
 * the path) and URL.String. Paths, user information and hosts are kept in
 * their escaped form.
 */
module SouthPark {
  import opened Wrappers
  import opened Text
  import EpisodeLink

  /** The fields of url.URL that a request URI can set. */
  datatype Url = Url(
    scheme: string,
    opaquePart: string,
    user: Option<string>,
    host: string,
    omitHost: bool,
    path: string,
    forceQuery: bool,
    rawQuery: string)

  datatype UrlError =
    | ControlCharacter
    | EmptyUrl
    | MissingScheme
    | InvalidRequestUri
    | InvalidEscape

  /** A byte below the space, or DEL. */
  predicate IsCtl(c: char) {
    c < ' ' || c == '\U{7F}'
  }

  predicate NoCtl(s: string) {
    forall i :: 0 <= i < |s| ==> !IsCtl(s[i])
  }

  predicate IsLetter(c: char) {
    'a' <= c <= 'z' || 'A' <= c <= 'Z'
  }

  predicate IsSchemeChar(c: char) {
    IsLetter(c) || '0' <= c <= '9' || c == '+' || c == '-' || c == '.'
  }

  /** What the scheme scan of getScheme finds. */
  datatype SchemeScan = NoScheme | SchemeEnd(n: nat) | SchemeEmpty

  /** getScheme from position `i`: letters, then letters, digits, `+`, `-`
      and `.`, up to a colon. */
  function ScanScheme(s: string, i: nat): (r: SchemeScan)
    requires i <= |s|
    ensures r.SchemeEnd? ==> 0 < r.n && i <= r.n < |s| && s[r.n] == ':'
    ensures r.SchemeEnd? ==> forall k :: i <= k < r.n ==> IsSchemeChar(s[k])
    ensures r.SchemeEnd? && i == 0 ==> IsLetter(s[0])
    ensures r.SchemeEmpty? ==> i == 0 && |s| > 0 && s[0] == ':'
    decreases |s| - i
  {
    if i == |s| then NoScheme
    else if IsLetter(s[i]) then ScanScheme(s, i + 1)
    else if IsSchemeChar(s[i]) then (if i == 0 then NoScheme else ScanScheme(s, i + 1))
    else if s[i] == ':' then (if i == 0 then SchemeEmpty else SchemeEnd(i))
    else NoScheme
  }

  function LowerChar(c: char): char {
    if 'A' <= c <= 'Z' then (c as int + 32) as char else c
  }

  /** strings.ToLower on ASCII text. */
  function LowerAscii(s: string): (r: string)
    ensures |r| == |s|
    ensures forall k :: 0 <= k < |s| ==> r[k] == LowerChar(s[k])
  {
    seq(|s|, k requires 0 <= k < |s| => LowerChar(s[k]))
  }

  /** A scheme as the parser leaves it: a lower-case letter, then letters,
      digits, `+`, `-` and `.`, no upper-case letter. */
  predicate ValidScheme(s: string) {
    |s| > 0 && 'a' <= s[0] <= 'z'
    && forall k :: 0 <= k < |s| ==> IsSchemeChar(s[k]) && !('A' <= s[k] <= 'Z')
  }

  /** strings.Index for one character. */
  function FirstIndex(s: string, c: char): (r: Option<nat>)
    ensures r.None? <==> c !in s
    ensures r.Some? ==> r.value < |s| && s[r.value] == c && c !in s[..r.value]
  {
    if s == [] then None
    else if s[0] == c then Some(0)
    else
      var r := FirstIndex(s[1..], c);
      assert s == [s[0]] + s[1..];
      if r.None? then None
      else
        assert s[..r.value + 1] == [s[0]] + s[1..][..r.value];
        Some(r.value + 1)
  }

  /** strings.LastIndex for one character. */
  function LastIndex(s: string, c: char): (r: Option<nat>)
    ensures r.None? <==> c !in s
    ensures r.Some? ==> r.value < |s| && s[r.value] == c && c !in s[r.value + 1..]
  {
    if s == [] then None
    else if s[|s| - 1] == c then Some(|s| - 1)
    else
      var r := LastIndex(s[..|s| - 1], c);
      assert s == s[..|s| - 1] + [s[|s| - 1]];
      if r.None? then None
      else
        assert s[r.value + 1..] == s[..|s| - 1][r.value + 1..] + [s[|s| - 1]];
        r
  }

  /** The query split of parse: a single trailing `?` forces an empty
      query; otherwise the text is cut at the first `?`. */
  datatype QuerySplit = QuerySplit(before: string, forceQuery: bool, rawQuery: string)

  /** strings.Count for one character. */
  function CountChar(s: string, c: char): (n: nat)
    ensures n == 0 <==> c !in s
  {
    if s == [] then 0 else (if s[0] == c then 1 else 0) + CountChar(s[1..], c)
  }

  lemma {:induction false} CountCharAppend(a: string, b: string, c: char)
    ensures CountChar(a + b, c) == CountChar(a, c) + CountChar(b, c)
    decreases |a|
  {
    if a != [] {
      assert (a + b)[0] == a[0];
      assert (a + b)[1..] == a[1..] + b;
      CountCharAppend(a[1..], b, c);
    } else {
      assert a + b == b;
    }
  }

  function SplitQuery(rest: string): (r: QuerySplit)
    ensures '?' !in r.before
    ensures r.forceQuery ==> r.rawQuery == "" && rest == r.before + "?"
    ensures !r.forceQuery && '?' in rest ==> rest == r.before + "?" + r.rawQuery
    ensures '?' !in rest ==> r == QuerySplit(rest, false, "")
  {
    if EndsWith(rest, "?") && CountChar(rest, '?') == 1 then
      var b := rest[..|rest| - 1];
      assert rest == b + "?";
      CountCharAppend(b, "?", '?');
      QuerySplit(b, true, "")
    else
      match FirstIndex(rest, '?')
      case None => QuerySplit(rest, false, "")
      case Some(k) =>
        assert rest == rest[..k] + "?" + rest[k + 1..];
        QuerySplit(rest[..k], false, rest[k + 1..])
  }

  /** unescape in path mode accepts the text iff every `%` starts a
      two-digit hexadecimal escape. */
  predicate IsHex(c: char) {
    '0' <= c <= '9' || 'a' <= c <= 'f' || 'A' <= c <= 'F'
  }

  predicate ValidEscapes(p: string) {
    forall i :: 0 <= i < |p| && p[i] == '%' ==> i + 2 < |p| && IsHex(p[i + 1]) && IsHex(p[i + 2])
  }

  /** parseAuthority without its checks: the user information is what
      precedes the last `@`. */
  function SplitAuthority(auth: string): (Option<string>, string) {
    match LastIndex(auth, '@')
    case None => (None, auth)
    case Some(k) => (Some(auth[..k]), auth[k + 1..])
  }

  /** url.ParseRequestURI */
  function ParseRequestUri(raw: string): Result<Url, UrlError> {
    if !NoCtl(raw) then Err(ControlCharacter)
    else if raw == "" then Err(EmptyUrl)
    else if raw == "*" then Ok(Url("", "", None, "", false, "*", false, ""))
    else
      match ScanScheme(raw, 0)
      case SchemeEmpty => Err(MissingScheme)
      case NoScheme => ParseRest("", raw)
      case SchemeEnd(n) => ParseRest(LowerAscii(raw[..n]), raw[n + 1..])
  }

  /** parse after the scheme: the query, then an opaque rest, then the
      hierarchical part. */
  function ParseRest(scheme: string, rest: string): Result<Url, UrlError> {
    var q := SplitQuery(rest);
    if !StartsWith(q.before, "/") then
      if scheme != "" then Ok(Url(scheme, q.before, None, "", false, "", q.forceQuery, q.rawQuery))
      else Err(InvalidRequestUri)
    else ParseHier(scheme, q.before, q.forceQuery, q.rawQuery)
  }

  /** The authority (only after a scheme), then the path. */
  function ParseHier(scheme: string, r: string, forceQuery: bool, rawQuery: string): Result<Url, UrlError> {
    if scheme != "" && StartsWith(r, "//") then
      var a := r[2..];
      var (auth, path) := match FirstIndex(a, '/')
                          case None => (a, "")
                          case Some(k) => (a[..k], a[k..]);
      var (user, host) := SplitAuthority(auth);
      if !ValidEscapes(path) then Err(InvalidEscape)
      else Ok(Url(scheme, "", user, host, false, path, forceQuery, rawQuery))
    else if !ValidEscapes(r) then Err(InvalidEscape)
    else Ok(Url(scheme, "", None, "", scheme != "", r, forceQuery, rawQuery))
  }

  /** The text before the first `/`. */
  function FirstSegment(path: string): string {
    match FirstIndex(path, '/')
    case None => path
    case Some(k) => path[..k]
  }

  /** URL.String without the escaping of hosts and user information. */
  function Render(u: Url): string {
    var s := if u.scheme != "" then u.scheme + ":" else "";
    var body :=
      if u.opaquePart != "" then u.opaquePart
      else
        var auth :=
          if u.scheme == "" && u.host == "" && u.user.None? then ""
          else if u.omitHost && u.host == "" && u.user.None? then ""
          else
            (if u.host != "" || u.path != "" || u.user.Some? then "//" else "")
            + (if u.user.Some? then u.user.value + "@" else "")
            + u.host;
        var slash := if u.path != "" && u.path[0] != '/' && u.host != "" then "/" else "";
        var dot := if s + auth + slash == "" && ':' in FirstSegment(u.path) then "./" else "";
        auth + slash + dot + u.path;
    s + body + (if u.forceQuery || u.rawQuery != "" then "?" + u.rawQuery else "")
  }

  /** The path the crawl starts from. */
  const SeedPath: string := EpisodeLink.FirstEpisodePath

  /** InitialUrl. The page body `data` is not looked at. */
  function InitialUrl(indexUrl: string, data: seq<bv8>): Result<string, UrlError> {
    match ParseRequestUri(indexUrl)
    case Err(e) => Err(e)
    case Ok(u) => Ok(Render(u.(path := SeedPath)))
  }

  /** What every URL the parser returns satisfies. */
  predicate WellFormed(u: Url) {
    && (u.scheme == "" || ValidScheme(u.scheme))
    && NoCtl(u.opaquePart) && NoCtl(u.host) && NoCtl(u.rawQuery)
    && '?' !in u.opaquePart && '?' !in u.host && '/' !in u.host && '@' !in u.host
    && (u.user.Some? ==> NoCtl(u.user.value) && '?' !in u.user.value && '/' !in u.user.value)
    && (u.scheme == "" ==> u.host == "" && u.user.None? && !u.omitHost && u.opaquePart == "")
    && (u.omitHost ==> u.host == "" && u.user.None?)
    && (u.forceQuery ==> u.rawQuery == "")
    && (u.opaquePart != "" ==>
          !StartsWith(u.opaquePart, "/") && u.host == "" && u.user.None? && !u.omitHost && u.path == "")
  }

  lemma NoCtlSlice(s: string, i: nat, j: nat)
    requires NoCtl(s) && i <= j <= |s|
    ensures NoCtl(s[i..j]) && NoCtl(s[i..]) && NoCtl(s[..j])
  {
    assert forall k :: 0 <= k < j - i ==> s[i..j][k] == s[i + k];
    assert forall k :: 0 <= k < |s| - i ==> s[i..][k] == s[i + k];
    assert forall k :: 0 <= k < j ==> s[..j][k] == s[k];
  }

  lemma NotInSlice(s: string, c: char, i: nat, j: nat)
    requires c !in s && i <= j <= |s|
    ensures c !in s[i..j] && c !in s[i..] && c !in s[..j]
  {
  }

  lemma NoCtlParts(a: string, b: string)
    requires NoCtl(a + b)
    ensures NoCtl(a) && NoCtl(b)
  {
    NoCtlSlice(a + b, 0, |a|);
    assert (a + b)[..|a|] == a;
    assert (a + b)[|a|..] == b;
  }

  lemma LowerSchemeValid(s: string, n: nat)
    requires 0 < n <= |s| && IsLetter(s[0])
    requires forall k :: 0 <= k < n ==> IsSchemeChar(s[k])
    ensures ValidScheme(LowerAscii(s[..n]))
  {
    var r := LowerAscii(s[..n]);
    forall k | 0 <= k < n ensures IsSchemeChar(r[k]) && !('A' <= r[k] <= 'Z') {
      assert r[k] == LowerChar(s[k]);
    }
  }

  lemma ParseHierWellFormed(scheme: string, r: string, forceQuery: bool, rawQuery: string)
    requires scheme == "" || ValidScheme(scheme)
    requires NoCtl(r) && '?' !in r && NoCtl(rawQuery) && (forceQuery ==> rawQuery == "")
    requires ParseHier(scheme, r, forceQuery, rawQuery).Ok?
    ensures WellFormed(ParseHier(scheme, r, forceQuery, rawQuery).value)
  {
    if scheme != "" && StartsWith(r, "//") {
      var a := r[2..];
      NoCtlSlice(r, 2, |r|);
      NotInSlice(r, '?', 2, |r|);
      var auth := match FirstIndex(a, '/') case None => a case Some(k) => a[..k];
      match FirstIndex(a, '/')
      case None =>
      case Some(k) =>
        NoCtlSlice(a, 0, k);
        NotInSlice(a, '?', 0, k);
      assert NoCtl(auth) && '?' !in auth && '/' !in auth;
      SplitAuthorityClean(auth);
    }
  }

  /** The user information and the host of a clean authority are clean,
      and the host holds no `@`. */
  lemma SplitAuthorityClean(auth: string)
    requires NoCtl(auth) && '?' !in auth && '/' !in auth
    ensures var (user, host) := SplitAuthority(auth);
            && NoCtl(host) && '?' !in host && '/' !in host && '@' !in host
            && (user.Some? ==> NoCtl(user.value) && '?' !in user.value && '/' !in user.value)
  {
    match LastIndex(auth, '@')
    case None =>
    case Some(k) =>
      NoCtlSlice(auth, k + 1, |auth|);
      NotInSlice(auth, '?', k + 1, |auth|);
      NotInSlice(auth, '/', k + 1, |auth|);
      NoCtlSlice(auth, 0, k);
      NotInSlice(auth, '?', 0, k);
      NotInSlice(auth, '/', 0, k);
  }

  lemma ParseRestWellFormed(scheme: string, rest: string)
    requires scheme == "" || ValidScheme(scheme)
    requires NoCtl(rest) && ParseRest(scheme, rest).Ok?
    ensures WellFormed(ParseRest(scheme, rest).value)
  {
    var q := SplitQuery(rest);
    if q.forceQuery {
      NoCtlParts(q.before, "?");
    } else if '?' in rest {
      NoCtlParts(q.before + "?", q.rawQuery);
      NoCtlParts(q.before, "?");
    }
    if StartsWith(q.before, "/") {
      ParseHierWellFormed(scheme, q.before, q.forceQuery, q.rawQuery);
    }
  }

  /** Every URL the parser accepts is well formed. */
  lemma ParsedWellFormed(raw: string)
    requires ParseRequestUri(raw).Ok?
    ensures WellFormed(ParseRequestUri(raw).value)
  {
    if raw != "*" {
      match ScanScheme(raw, 0)
      case NoScheme =>
        ParseRestWellFormed("", raw);
      case SchemeEnd(n) =>
        ParsedWithSchemeWellFormed(raw, n);
    }
  }

  lemma ParsedWithSchemeWellFormed(raw: string, n: nat)
    requires NoCtl(raw) && ScanScheme(raw, 0) == SchemeEnd(n)
    requires ParseRest(LowerAscii(raw[..n]), raw[n + 1..]).Ok?
    ensures WellFormed(ParseRest(LowerAscii(raw[..n]), raw[n + 1..]).value)
  {
    LowerSchemeValid(raw, n);
    NoCtlSlice(raw, n + 1, |raw|);
    ParseRestWellFormed(LowerAscii(raw[..n]), raw[n + 1..]);
  }

  lemma NoCtlAppend(a: string, b: string)
    requires NoCtl(a) && NoCtl(b)
    ensures NoCtl(a + b)
  {
    assert forall k :: 0 <= k < |a + b| ==> (a + b)[k] == if k < |a| then a[k] else b[k - |a|];
  }

  lemma FirstIndexAt(a: string, b: string, c: char)
    requires c !in a && |b| > 0 && b[0] == c
    ensures FirstIndex(a + b, c) == Some(|a|)
  {
    var s := a + b;
    assert s[|a|] == c;
  }

  lemma LastIndexAt(a: string, b: string, c: char)
    requires c !in b
    ensures LastIndex(a + [c] + b, c) == Some(|a|)
  {
    var s := a + [c] + b;
    assert s[|a|] == c;
    assert s[|a| + 1..] == b;
  }

  /** A path the round trip below can carry: absolute, not starting with an
      empty authority, and free of control characters, `?` and bad escapes. */
  predicate PathOk(p: string) {
    |p| >= 2 && p[0] == '/' && p[1] != '/' && NoCtl(p) && '?' !in p && ValidEscapes(p)
  }

  /** The query part as String writes it. */
  function QueryPart(forceQuery: bool, rawQuery: string): string {
    if forceQuery || rawQuery != "" then "?" + rawQuery else ""
  }

  /** Text cut at the first occurrence of `c` is cut in one way only. */
  lemma FirstCutUnique(b1: string, q1: string, b2: string, q2: string, c: char)
    requires c !in b1 && c !in b2 && b1 + [c] + q1 == b2 + [c] + q2
    ensures b1 == b2 && q1 == q2
  {
    var s := b1 + [c] + q1;
    assert s[|b1|] == c && s[|b2|] == c;
    assert b1 == s[..|b1|] && b2 == s[..|b2|];
    assert q1 == s[|b1| + 1..] && q2 == s[|b2| + 1..];
  }

  lemma SplitQueryForced(b: string)
    requires '?' !in b
    ensures SplitQuery(b + "?") == QuerySplit(b, true, "")
  {
    var rest := b + "?";
    CountCharAppend(b, "?", '?');
    assert rest[..|rest| - 1] == b;
  }

  lemma SplitQueryCut(b: string, q: string)
    requires '?' !in b && q != ""
    ensures SplitQuery(b + "?" + q) == QuerySplit(b, false, q)
  {
    var rest := b + "?" + q;
    var r := SplitQuery(rest);
    assert rest[|b|] == '?';
    if !r.forceQuery {
      FirstCutUnique(b, q, r.before, r.rawQuery, '?');
    }
  }

  lemma SplitQueryOfRendered(b: string, forceQuery: bool, rawQuery: string)
    requires '?' !in b && (forceQuery ==> rawQuery == "")
    ensures SplitQuery(b + QueryPart(forceQuery, rawQuery)) == QuerySplit(b, forceQuery, rawQuery)
  {
    if forceQuery {
      assert QueryPart(forceQuery, rawQuery) == "?";
      SplitQueryForced(b);
    } else if rawQuery != "" {
      assert b + QueryPart(forceQuery, rawQuery) == b + "?" + rawQuery;
      SplitQueryCut(b, rawQuery);
    } else {
      assert b + QueryPart(forceQuery, rawQuery) == b;
    }
  }

  /** The part of String between the scheme and the query. */
  function HierPart(u: Url): string {
    if u.scheme == "" || (u.omitHost && u.host == "" && u.user.None?) then u.path
    else "//" + (if u.user.Some? then u.user.value + "@" else "") + u.host + u.path
  }

  lemma RenderShape(u: Url)
    requires WellFormed(u) && u.opaquePart == "" && PathOk(u.path)
    ensures Render(u) == (if u.scheme != "" then u.scheme + ":" else "")
                         + (HierPart(u) + QueryPart(u.forceQuery, u.rawQuery))
  {
    assert FirstIndex(u.path, '/') == Some(0);
    assert FirstSegment(u.path) == "";
  }

  lemma SplitAuthorityOfRendered(user: Option<string>, host: string)
    requires '@' !in host
    ensures SplitAuthority((if user.Some? then user.value + "@" else "") + host) == (user, host)
  {
    if user.Some? {
      var auth := user.value + "@" + host;
      LastIndexAt(user.value, host, '@');
      assert auth == user.value + ['@'] + host;
      assert auth[..|user.value|] == user.value;
      assert auth[|user.value| + 1..] == host;
    } else {
      assert "" + host == host;
    }
  }

  lemma ParseHierOfRenderedAuthority(u: Url)
    requires WellFormed(u) && u.opaquePart == "" && PathOk(u.path)
    requires u.scheme != "" && !(u.omitHost && u.host == "" && u.user.None?)
    ensures ParseHier(u.scheme, HierPart(u), u.forceQuery, u.rawQuery) == Ok(u)
  {
    var b := HierPart(u);
    var up := if u.user.Some? then u.user.value + "@" else "";
    var auth := up + u.host;
    assert b == "//" + auth + u.path;
    assert StartsWith(b, "//");
    var a := b[2..];
    assert a == auth + u.path;
    assert '/' !in up;
    assert '/' !in auth;
    FirstIndexAt(auth, u.path, '/');
    assert a[..|auth|] == auth;
    assert a[|auth|..] == u.path;
    SplitAuthorityOfRendered(u.user, u.host);
    assert !u.omitHost;
    assert ParseHier(u.scheme, b, u.forceQuery, u.rawQuery)
        == Ok(Url(u.scheme, "", u.user, u.host, false, u.path, u.forceQuery, u.rawQuery));
  }

  lemma ParseHierOfRendered(u: Url)
    requires WellFormed(u) && u.opaquePart == "" && PathOk(u.path)
    ensures ParseHier(u.scheme, HierPart(u), u.forceQuery, u.rawQuery) == Ok(u)
  {
    if u.scheme != "" && !(u.omitHost && u.host == "" && u.user.None?) {
      ParseHierOfRenderedAuthority(u);
    } else {
      assert HierPart(u) == u.path;
      assert !StartsWith(u.path, "//");
      assert u.omitHost == (u.scheme != "");
    }
  }

  lemma LowerValidScheme(s: string)
    requires ValidScheme(s)
    ensures LowerAscii(s) == s
  {
  }

  lemma ScanValidScheme(scheme: string, rest: string, i: nat)
    requires ValidScheme(scheme) && i <= |scheme|
    ensures ScanScheme(scheme + ":" + rest, i) == SchemeEnd(|scheme|)
    decreases |scheme| - i
  {
    var s := scheme + ":" + rest;
    if i < |scheme| {
      assert s[i] == scheme[i];
      ScanValidScheme(scheme, rest, i + 1);
    } else {
      assert s[i] == ':';
    }
  }

  /** The text after the scheme has no control character, its
      hierarchical part no `?`, and it begins with a slash. */
  lemma RenderedRestFacts(u: Url)
    requires WellFormed(u) && u.opaquePart == "" && PathOk(u.path)
    ensures var b := HierPart(u);
            NoCtl(b + QueryPart(u.forceQuery, u.rawQuery)) && '?' !in b && StartsWith(b, "/")
  {
    var b := HierPart(u);
    if b != u.path {
      var up := if u.user.Some? then u.user.value + "@" else "";
      NoCtlAppend(up, u.host);
      NoCtlAppend(up + u.host, u.path);
      NoCtlAppend("//", up + u.host + u.path);
      assert b == "//" + (up + u.host + u.path);
    }
    NoCtlAppend("?", u.rawQuery);
    NoCtlAppend(b, QueryPart(u.forceQuery, u.rawQuery));
  }

  /** What follows the scheme parses back to the URL. */
  lemma ParseRestOfRendered(u: Url)
    requires WellFormed(u) && u.opaquePart == "" && PathOk(u.path)
    ensures ParseRest(u.scheme, HierPart(u) + QueryPart(u.forceQuery, u.rawQuery)) == Ok(u)
  {
    RenderedRestFacts(u);
    var b := HierPart(u);
    SplitQueryOfRendered(b, u.forceQuery, u.rawQuery);
    ParseHierOfRendered(u);
  }

  /** A text that begins with a slash has no scheme. */
  lemma ParseWithoutScheme(rest: string)
    requires NoCtl(rest) && StartsWith(rest, "/")
    ensures ParseRequestUri(rest) == ParseRest("", rest)
  {
    assert rest[0] == '/';
  }

  /** A valid scheme and a colon are taken off as the scheme. */
  lemma ParseWithScheme(scheme: string, rest: string)
    requires ValidScheme(scheme) && NoCtl(rest)
    ensures ParseRequestUri(scheme + ":" + rest) == ParseRest(scheme, rest)
  {
    var raw := scheme + ":" + rest;
    NoCtlAppend(scheme, ":");
    NoCtlAppend(scheme + ":", rest);
    ScanValidScheme(scheme, rest, 0);
    assert raw[..|scheme|] == scheme;
    assert raw[|scheme| + 1..] == rest;
    LowerValidScheme(scheme);
  }

  lemma RenderRoundTripWithoutScheme(u: Url)
    requires WellFormed(u) && u.opaquePart == "" && PathOk(u.path) && u.scheme == ""
    ensures ParseRequestUri(Render(u)) == Ok(u)
  {
    var rest := HierPart(u) + QueryPart(u.forceQuery, u.rawQuery);
    RenderShape(u);
    RenderedRestFacts(u);
    ParseRestOfRendered(u);
    ParseWithoutScheme(rest);
    calc {
      ParseRequestUri(Render(u));
      { assert Render(u) == rest; }
      ParseRequestUri(rest);
      ParseRest("", rest);
    }
  }

  lemma RenderRoundTripWithScheme(u: Url)
    requires WellFormed(u) && u.opaquePart == "" && PathOk(u.path) && u.scheme != ""
    ensures ParseRequestUri(Render(u)) == Ok(u)
  {
    var rest := HierPart(u) + QueryPart(u.forceQuery, u.rawQuery);
    RenderShape(u);
    RenderedRestFacts(u);
    ParseRestOfRendered(u);
    ParseWithScheme(u.scheme, rest);
    calc {
      ParseRequestUri(Render(u));
      { assert Render(u) == u.scheme + ":" + rest; }
      ParseRequestUri(u.scheme + ":" + rest);
      ParseRest(u.scheme, rest);
    }
  }

  /** A well-formed URL with a plain absolute path prints to a text that
      parses back to the same URL. */
  lemma RenderRoundTrip(u: Url)
    requires WellFormed(u) && u.opaquePart == "" && PathOk(u.path)
    ensures ParseRequestUri(Render(u)) == Ok(u)
  {
    if u.scheme == "" {
      RenderRoundTripWithoutScheme(u);
    } else {
      RenderRoundTripWithScheme(u);
    }
  }

  /** Characters of the episode paths: lower-case letters, digits, `-`
      and `/`. */
  predicate PathChar(c: char) {
    'a' <= c <= 'z' || '0' <= c <= '9' || c == '-' || c == '/'
  }

  predicate AllPathChars(s: string) {
    forall i :: 0 <= i < |s| ==> PathChar(s[i])
  }

  lemma AllPathCharsAppend(a: string, b: string)
    requires AllPathChars(a) && AllPathChars(b)
    ensures AllPathChars(a + b)
  {
    forall i | 0 <= i < |a + b|
      ensures PathChar((a + b)[i])
    {
      if i >= |a| {
        assert (a + b)[i] == b[i - |a|];
      }
    }
  }

  lemma InClassPathChars(cls: EpisodeLink.CharClass, w: string)
    requires EpisodeLink.InClass(cls, w)
    ensures AllPathChars(w)
  {
  }

  /** Every episode path built from runs of its classes is made of path
      characters. */
  lemma EpisodePathChars(section: string, id: string, slug: string,
                         seasonWord: string, season: string,
                         episodeWord: string, episode: string)
    requires AllPathChars(section) && AllPathChars(id) && AllPathChars(slug)
    requires AllPathChars(seasonWord) && AllPathChars(season)
    requires AllPathChars(episodeWord) && AllPathChars(episode)
    ensures AllPathChars(EpisodeLink.EpisodePath(section, id, slug, seasonWord, season, episodeWord, episode))
  {
    var s := "/" + section;
    AllPathCharsAppend("/", section);
    AllPathCharsAppend(s, "/");
    s := s + "/";
    AllPathCharsAppend(s, id);
    s := s + id;
    assert AllPathChars("/south-park-");
    AllPathCharsAppend(s, "/south-park-");
    s := s + "/south-park-";
    AllPathCharsAppend(s, slug);
    s := s + slug;
    AllPathCharsAppend(s, "-");
    s := s + "-";
    AllPathCharsAppend(s, seasonWord);
    s := s + seasonWord;
    AllPathCharsAppend(s, "-");
    s := s + "-";
    AllPathCharsAppend(s, season);
    s := s + season;
    AllPathCharsAppend(s, "-");
    s := s + "-";
    AllPathCharsAppend(s, episodeWord);
    s := s + episodeWord;
    AllPathCharsAppend(s, "-");
    s := s + "-";
    AllPathCharsAppend(s, episode);
  }

  /** The seed path is a plain absolute path: a slash, no second slash
      after it, and no control character, `?` or `%`. */
  lemma SeedPathOk()
    ensures PathOk(SeedPath)
  {
    EpisodeLink.FirstEpisodeParts();
    InClassPathChars(EpisodeLink.Lower, "episodes");
    InClassPathChars(EpisodeLink.LowerDigit, "940f8z");
    InClassPathChars(EpisodeLink.LowerDigitDash, "cartman-gets-an-anal-probe");
    InClassPathChars(EpisodeLink.Lower, "season");
    InClassPathChars(EpisodeLink.Digits, "1");
    InClassPathChars(EpisodeLink.Lower, "ep");
    EpisodePathChars("episodes", "940f8z", "cartman-gets-an-anal-probe", "season", "1", "ep", "1");
    var p := SeedPath;
    assert p == "/" + ("episodes" + p[9..]);
    assert p[0] == '/' && p[1] == 'e';
    assert forall i :: 0 <= i < |p| ==> p[i] != '?' && p[i] != '%' && !IsCtl(p[i]);
  }

  /** InitialUrl fails exactly when the address does not parse, with the
      parser's error, and never depends on the page body. */
  lemma InitialUrlFails(indexUrl: string, data: seq<bv8>, other: seq<bv8>)
    ensures InitialUrl(indexUrl, data).Err? <==> ParseRequestUri(indexUrl).Err?
    ensures InitialUrl(indexUrl, data).Err? ==> InitialUrl(indexUrl, data).error == ParseRequestUri(indexUrl).error
    ensures InitialUrl(indexUrl, data) == InitialUrl(indexUrl, other)
    ensures InitialUrl("", data) == Err(EmptyUrl)
  {
  }

  /** The address InitialUrl returns parses back to the redirect target
      with the seed path in place of its own, whatever the target's host,
      user information and query; only an opaque target is different. */
  lemma InitialUrlRoundTrip(indexUrl: string, data: seq<bv8>)
    requires ParseRequestUri(indexUrl).Ok? && ParseRequestUri(indexUrl).value.opaquePart == ""
    ensures InitialUrl(indexUrl, data).Ok?
    ensures ParseRequestUri(InitialUrl(indexUrl, data).value) == Ok(ParseRequestUri(indexUrl).value.(path := SeedPath))
  {
    var u := ParseRequestUri(indexUrl).value;
    ParsedWellFormed(indexUrl);
    SeedPathOk();
    RenderRoundTrip(u.(path := SeedPath));
  }

  /** An opaque target keeps no path: String prints the opaque part and
      the seed path is lost. */
  lemma InitialUrlOpaque(indexUrl: string, data: seq<bv8>)
    requires ParseRequestUri(indexUrl).Ok? && ParseRequestUri(indexUrl).value.opaquePart != ""
    ensures InitialUrl(indexUrl, data) == Ok(Render(ParseRequestUri(indexUrl).value))
  {
  }

  /** Without a query the address ends with the seed path, so the crawl's
      recogniser takes it for an episode page. */
  lemma InitialUrlIsEpisodeLink(indexUrl: string, data: seq<bv8>)
    requires ParseRequestUri(indexUrl).Ok?
    requires var u := ParseRequestUri(indexUrl).value;
             u.opaquePart == "" && !u.forceQuery && u.rawQuery == ""
    ensures InitialUrl(indexUrl, data).Ok?
    ensures EndsWith(InitialUrl(indexUrl, data).value, SeedPath)
    ensures EpisodeLink.IsEpisodeLink(InitialUrl(indexUrl, data).value)
  {
    ParsedWellFormed(indexUrl);
    SeededRenderIsEpisodeLink(ParseRequestUri(indexUrl).value);
  }

  /** A well-formed URL without a query, printed with the seed path, ends
      with the seed path and is an episode link. */
  lemma SeededRenderIsEpisodeLink(u0: Url)
    requires WellFormed(u0) && u0.opaquePart == "" && !u0.forceQuery && u0.rawQuery == ""
    ensures EndsWith(Render(u0.(path := SeedPath)), SeedPath)
    ensures EpisodeLink.IsEpisodeLink(Render(u0.(path := SeedPath)))
  {
    var u := u0.(path := SeedPath);
    SeedPathOk();
    var pre := RenderPrefix(u);
    EpisodeLink.FirstEpisodePathIsEpisodeLink();
    EpisodeLink.EpisodeLinkPrefix(pre, SeedPath);
  }

  /** Without a query, String ends with the path. */
  lemma RenderPrefix(u: Url) returns (pre: string)
    requires WellFormed(u) && u.opaquePart == "" && PathOk(u.path)
    requires !u.forceQuery && u.rawQuery == ""
    ensures Render(u) == pre + u.path
  {
    RenderShape(u);
    pre := (if u.scheme != "" then u.scheme + ":" else "")
           + (if HierPart(u) == u.path then "" else "//" + (if u.user.Some? then u.user.value + "@" else "") + u.host);
    assert QueryPart(u.forceQuery, u.rawQuery) == "";
  }
}
