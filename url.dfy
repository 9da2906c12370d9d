/**
 * `urllib.parse.urlparse` and `urlunparse` (CPython 3.12), to the extent that
 * `AbstractIEEE.update_url` and the IEEE host dispatch use them.
 */
module Url {
  import opened Wrappers
  import opened Text
  import IpAddress

  /** The six fields of `urlparse`'s result. */
  datatype UrlParts = UrlParts(scheme: string, netloc: string, path: string, params: string, query: string, fragment: string)

  /** `urllib.parse.uses_params`: schemes whose last path segment may carry `;params`. */
  const UsesParams: set<string> := {"", "ftp", "hdl", "prospero", "http", "imap", "https", "shttp",
                                    "rtsp", "rtsps", "rtspu", "sip", "sips", "mms", "sftp", "tel"}

  /** `urllib.parse.uses_netloc`. */
  const UsesNetloc: set<string> := {"", "ftp", "http", "gopher", "nntp", "telnet", "imap", "wais", "file",
                                    "mms", "https", "shttp", "snews", "prospero", "rtsp", "rtsps", "rtspu",
                                    "rsync", "svn", "svn+ssh", "sftp", "nfs", "git", "git+ssh", "ws", "wss",
                                    "itms-services"}

  /** The characters that end a network location. */
  const NetlocEnd: set<char> := {'/', '?', '#'}

  /** `_WHATWG_C0_CONTROL_OR_SPACE`: stripped from the front of every URL. */
  predicate IsC0OrSpace(c: char) { c <= ' ' }

  /** Free of `_UNSAFE_URL_BYTES_TO_REMOVE` (tab, carriage return, line feed). */
  predicate Clean(s: string) { '\t' !in s && '\r' !in s && '\n' !in s }

  /** `urllib.parse.scheme_chars`. */
  predicate SchemeChar(c: char) { IsAsciiLetter(c) || IsDigit(c) || c == '+' || c == '-' || c == '.' }

  function LStripC0(s: string): (r: string)
    ensures |r| <= |s| && r == s[|s| - |r|..]
  {
    if s != [] && IsC0OrSpace(s[0]) then LStripC0(s[1..]) else s
  }

  function RemoveUnsafe(s: string): (r: string)
    ensures Clean(r)
    ensures Clean(s) ==> r == s
  {
    if s == [] then []
    else
      var t := RemoveUnsafe(s[1..]);
      assert s == [s[0]] + s[1..];
      if s[0] in "\t\r\n" then t else [s[0]] + t
  }

  /** What `urlsplit` does before it looks at the URL: strip leading C0 controls and spaces, drop tabs and newlines. */
  function Sanitize(url: string): string {
    RemoveUnsafe(LStripC0(url))
  }

  predicate SchemeOk(scheme: string) {
    && (scheme != [] ==> IsAsciiLetter(scheme[0]))
    && (forall i :: 0 <= i < |scheme| ==> SchemeChar(scheme[i]))
    && AsciiLower(scheme) == scheme
  }

  lemma LowerSchemeOk(s: string)
    requires s != [] && IsAsciiLetter(s[0])
    requires forall i :: 0 <= i < |s| ==> SchemeChar(s[i])
    ensures SchemeOk(AsciiLower(s))
  {
    var l := AsciiLower(s);
    assert forall i :: 0 <= i < |l| ==> LowerChar(l[i]) == l[i];
  }

  /** Leading `scheme:`, when the text before the first colon is a valid scheme; lower-cased. */
  function SplitScheme(url: string): (r: (string, string))
    ensures SchemeOk(r.0)
    ensures Clean(url) ==> Clean(r.0) && Clean(r.1)
  {
    var i := IndexOf(url, ":");
    if i > 0 && IsAsciiLetter(url[0]) && (forall k :: 0 <= k < i ==> SchemeChar(url[k])) then
      LowerSchemeOk(url[..i]);
      (AsciiLower(url[..i]), url[i + 1..])
    else
      ("", url)
  }

  /** `_splitnetloc(url, 2)`: the network location runs up to the first `/`, `?` or `#`. */
  function SplitNetloc(url: string): (r: (string, string))
    requires "//" <= url
    ensures forall c :: c in NetlocEnd ==> c !in r.0
    ensures Clean(url) ==> Clean(r.0) && Clean(r.1)
  {
    var tail := url[2..];
    var d := FindAny(tail, NetlocEnd);
    (tail[..d], tail[d..])
  }

  /** `('[' in netloc) != (']' in netloc)`: `urlsplit` raises `ValueError("Invalid IPv6 URL")`. */
  predicate BracketsUnbalanced(netloc: string) {
    ('[' in netloc) != (']' in netloc)
  }

  /** `netloc.partition('[')[2].partition(']')[0]`: the text after the first `[`, up to the next `]`. */
  function BracketedHost(netloc: string): string
    requires '[' in netloc
  {
    var after := SplitOnce(netloc, '[').1;
    if ']' in after then SplitOnce(after, ']').0 else after
  }

  /**
   * The checks `urlsplit` makes on the brackets of a network location: both
   * or neither, and `_check_bracketed_host` on what is between them.
   */
  predicate BracketsOk(netloc: string) {
    && !BracketsUnbalanced(netloc)
    && ('[' in netloc ==> IpAddress.BracketedHostOk(BracketedHost(netloc)))
  }

  /** `s.split(c, 1)` when `c in s`. */
  function SplitOnce(s: string, c: char): (r: (string, string))
    requires c in s
    ensures c !in r.0
    ensures r.0 + [c] + r.1 == s
  {
    var i := FindChar(s, c, 0);
    assert s == s[..i] + [c] + s[i + 1..];
    (s[..i], s[i + 1..])
  }

  /** No `;` after the last `/` (anywhere, when there is no `/`): what `_splitparams` leaves in a path. */
  predicate NoParamSemicolon(path: string) {
    forall k :: RFindChar(path, '/') < k < |path| ==> path[k] != ';'
  }

  /** `_splitparams(url)`, called when `';' in url`. */
  function SplitParams(url: string): (r: (string, string))
    requires ';' in url
    ensures NoParamSemicolon(r.0) && '/' !in r.1
    ensures r == (url, "") || r.0 + ";" + r.1 == url
    ensures forall c :: c !in url ==> c !in r.0 && c !in r.1
  {
    if '/' in url then
      var j := RFindChar(url, '/');
      var i := FindChar(url, ';', j);
      if i < 0 then (url, "")
      else
        assert RFindChar(url[..i], '/') == j by { RFindCharPrefix(url, '/', j, i); }
        (url[..i], url[i + 1..])
    else
      var i := FindChar(url, ';', 0);
      assert RFindChar(url[..i], '/') == -1 by { RFindCharPrefix(url, '/', -1, i); }
      (url[..i], url[i + 1..])
  }

  lemma RFindCharPrefix(s: string, c: char, j: int, i: int)
    requires j == RFindChar(s, c) && j < i <= |s|
    ensures RFindChar(s[..i], c) == j
  {
    var t := s[..i];
    var k := RFindChar(t, c);
    assert forall m :: 0 <= m < i ==> t[m] == s[m];
    if j >= 0 {
      assert t[j] == c;
    }
  }

  /** Every component of a successful parse satisfies this. */
  predicate WellFormed(p: UrlParts) {
    NetlocOk(p.netloc) && TailOk(p.scheme, p.path, p.params, p.query, p.fragment)
  }

  /** What `urlsplit` accepts as a network location. */
  predicate NetlocOk(netloc: string) {
    && Clean(netloc)
    && (forall c :: c in NetlocEnd ==> c !in netloc)
    && BracketsOk(netloc)
  }

  /** What `urlparse` can produce for the other five fields. */
  predicate TailOk(scheme: string, path: string, params: string, query: string, fragment: string) {
    && SchemeOk(scheme)
    && Clean(scheme) && Clean(path) && Clean(params) && Clean(query) && Clean(fragment)
    && '#' !in path && '#' !in params && '#' !in query
    && '?' !in path && '?' !in params
    && '/' !in params
    && (scheme in UsesParams ==> NoParamSemicolon(path))
    && (scheme !in UsesParams ==> params == "")
  }

  /** `url[:2] == '//'` starts a network location. */
  function SplitAuthority(rest: string): (r: (string, string))
    ensures forall c :: c in NetlocEnd ==> c !in r.0
    ensures Clean(rest) ==> Clean(r.0) && Clean(r.1)
  {
    if "//" <= rest then SplitNetloc(rest) else ("", rest)
  }

  /** `s.split(c, 1)` when `c in s`, otherwise `s` and an empty remainder. */
  function CutAt(s: string, c: char): (r: (string, string))
    ensures c !in r.0
    ensures c in s ==> r.0 + [c] + r.1 == s
    ensures c !in s ==> r == (s, "")
    ensures forall x :: x !in s ==> x !in r.0 && x !in r.1
  {
    if c in s then SplitOnce(s, c) else (s, "")
  }

  /** `_splitparams`, which `urlparse` calls only for schemes in `uses_params` and only when there is a `;`. */
  function CutParams(scheme: string, s: string): (r: (string, string))
    ensures scheme in UsesParams ==> NoParamSemicolon(r.0)
    ensures scheme !in UsesParams ==> r == (s, "")
    ensures '/' !in r.1
    ensures forall x :: x !in s ==> x !in r.0 && x !in r.1
  {
    if scheme in UsesParams && ';' in s then SplitParams(s)
    else
      assert scheme in UsesParams ==> NoParamSemicolon(s) by {
        assert forall k :: 0 <= k < |s| ==> s[k] in s;
      }
      (s, "")
  }

  /** The rest of `urlsplit` and `urlparse`: fragment after the first `#`, query after the first `?`, then parameters. */
  function SplitPath(scheme: string, netloc: string, rest: string): (p: UrlParts)
    requires SchemeOk(scheme) && Clean(scheme) && NetlocOk(netloc) && Clean(rest)
    ensures WellFormed(p)
    ensures p.scheme == scheme && p.netloc == netloc
  {
    var (rest2, fragment) := CutAt(rest, '#');
    var (rest3, query) := CutAt(rest2, '?');
    var (path, params) := CutParams(scheme, rest3);
    UrlParts(scheme, netloc, path, params, query, fragment)
  }

  /** The network location `urlsplit` cuts out of `url`, before checking it. */
  function RawNetloc(url: string): string {
    SplitAuthority(SplitScheme(Sanitize(url)).1).0
  }

  /**
   * `urlparse(url)`: fails with `ValueError` exactly when the brackets of
   * the network location are unbalanced or enclose neither an IPv6 nor an
   * IPvFuture address.
   */
  function Parse(url: string): (r: Result<UrlParts>)
    ensures r.Ok? ==> WellFormed(r.value) && r.value.netloc == RawNetloc(url)
    ensures r.Err? <==> !BracketsOk(RawNetloc(url))
    ensures r.Err? ==> r.error == ValueError
  {
    var (scheme, rest) := SplitScheme(Sanitize(url));
    var (netloc, rest1) := SplitAuthority(rest);
    if BracketsUnbalanced(netloc) then Err(ValueError)
    else if '[' in netloc && !IpAddress.BracketedHostOk(BracketedHost(netloc)) then Err(ValueError)
    else Ok(SplitPath(scheme, netloc, rest1))
  }

  function JoinParams(path: string, params: string): string {
    if params != "" then path + ";" + params else path
  }

  /** `c + s` when `s` is non-empty, nothing otherwise. */
  function Tagged(c: char, s: string): string { if s != "" then [c] + s else "" }

  function SchemePart(p: UrlParts): string { if p.scheme != "" then p.scheme + ":" else "" }
  function QueryPart(p: UrlParts): string { Tagged('?', p.query) }
  function FragmentPart(p: UrlParts): string { Tagged('#', p.fragment) }

  /** `//netloc` before the path, and a `/` before a relative path. */
  function Authority(netloc: string, path: string): string {
    "//" + netloc + (if path != "" && path[0] != '/' then "/" + path else path)
  }

  /**
   * `urlunparse(parts)`: parameters rejoin the path, then `urlunsplit` writes
   * `scheme:`, the authority, the path, `?query` and `#fragment`, each only when non-empty.
   */
  function Unparse(p: UrlParts): string {
    var path := JoinParams(p.path, p.params);
    var u :=
      if p.netloc != "" || (p.scheme != "" && p.scheme in UsesNetloc && !("//" <= path)) then
        Authority(p.netloc, path)
      else path;
    SchemePart(p) + u + QueryPart(p) + FragmentPart(p)
  }

  const IeeeHost: string := "doi.ieeecomputersociety.org"
  const DoiHost: string := "doi.org"

  /** `AbstractIEEE.update_url`: any host other than the two IEEE entry points is replaced by the computer.org resolver. */
  function UpdateUrl(url: string): Result<string> {
    var p :- Parse(url);
    if p.netloc != IeeeHost && p.netloc != DoiHost then
      Ok(Unparse(p.(netloc := IeeeHost)))
    else
      Ok(url)
  }

  /** The path `urlunsplit` writes after a network location: a `/` is put in front of a relative one. */
  function RootedPath(p: UrlParts): string {
    if p.path == "" && p.params == "" then ""
    else if "/" <= p.path then p.path
    else "/" + p.path
  }

  // ---------------------------------------------------------------------------
  // What urlunparse writes, urlparse reads back
  // ---------------------------------------------------------------------------

  lemma AuthorityRooted(p: UrlParts)
    ensures Authority(p.netloc, JoinParams(p.path, p.params)) == "//" + p.netloc + JoinParams(RootedPath(p), p.params)
  {
    var path := JoinParams(p.path, p.params);
    if p.path == "" && p.params == "" {
    } else if "/" <= p.path {
      assert path[0] == p.path[0] == '/';
    } else if p.path != "" {
      assert path[0] == p.path[0] != '/';
    } else {
      assert path == ";" + p.params;
    }
  }

  lemma SanitizeKeeps(v: string)
    requires Clean(v) && v != [] && !IsC0OrSpace(v[0])
    ensures Sanitize(v) == v
  {
  }

  /** The text before the first occurrence of a character is determined by the string. */
  lemma SplitUnique(a: string, b: string, x: string, y: string, c: char)
    requires c !in a && c !in x
    requires a + [c] + b == x + [c] + y
    ensures a == x && b == y
  {
    var s := a + [c] + b;
    assert s[|a|] == c && s[|x|] == c;
    assert forall k :: 0 <= k < |a| ==> s[k] == a[k];
    assert forall k :: 0 <= k < |x| ==> s[k] == x[k];
    assert |a| == |x|;
    assert a == s[..|a|] && x == s[..|x|];
    assert b == s[|a| + 1..] && y == s[|x| + 1..];
  }

  lemma IndexOfFirst(a: string, c: char, b: string)
    requires c !in a
    ensures IndexOf(a + [c] + b, [c]) == |a|
  {
    var s := a + [c] + b;
    assert s[|a|..][..1] == [c];
    assert OccursAt(s, [c], |a|);
    assert forall k :: 0 <= k < |a| ==> s[k..][0] == a[k];
  }

  lemma FindAnyAt(a: string, b: string, cs: set<char>)
    requires forall c :: c in cs ==> c !in a
    requires b == [] || b[0] in cs
    ensures FindAny(a + b, cs) == |a|
  {
    assert forall k :: 0 <= k < |a| ==> (a + b)[k] == a[k];
    if b != [] {
      assert (a + b)[|a|] == b[0];
    }
  }

  lemma RFindCharAppend(a: string, b: string, c: char)
    requires c !in b
    ensures RFindChar(a + b, c) == RFindChar(a, c)
  {
    var s := a + b;
    var q := RFindChar(a, c);
    if q >= 0 {
      assert s[q] == c;
    }
    assert forall k :: |a| <= k < |s| ==> s[k] == b[k - |a|];
    assert forall k :: 0 <= k < |a| ==> s[k] == a[k];
  }

  lemma RFindCharPrepend(s: string, c: char)
    ensures RFindChar([c] + s, c) == RFindChar(s, c) + 1
  {
    var t := [c] + s;
    var q := RFindChar(s, c);
    assert t[0] == c;
    if q >= 0 {
      assert t[q + 1] == s[q];
    }
    assert forall k :: 1 <= k < |t| ==> t[k] == s[k - 1];
  }

  lemma RootedNoParamSemicolon(p: UrlParts)
    requires NoParamSemicolon(p.path)
    ensures NoParamSemicolon(RootedPath(p))
  {
    if (p.path != "" || p.params != "") && !("/" <= p.path) {
      var t := "/" + p.path;
      RFindCharPrepend(p.path, '/');
      assert forall k :: 0 < k < |t| ==> t[k] == p.path[k - 1];
    }
  }

  lemma SplitParamsJoined(r: string, params: string)
    requires r != [] && r[0] == '/' && NoParamSemicolon(r)
    requires '/' !in params && params != ""
    ensures SplitParams(r + ";" + params) == (r, params)
  {
    var url := r + ";" + params;
    assert url[0] == '/' && url[|r|] == ';';
    RFindCharAppend(r, ";" + params, '/');
    var j := RFindChar(url, '/');
    assert j >= 0 by { assert r[0] == '/'; }
    var i := FindChar(url, ';', j);
    assert forall k :: j <= k < |r| ==> url[k] == r[k];
    assert r[j] == '/';
    assert i == |r|;
    assert url[..i] == r && url[i + 1..] == params;
  }

  lemma SplitParamsNone(r: string)
    requires r != [] && r[0] == '/' && NoParamSemicolon(r) && ';' in r
    ensures SplitParams(r) == (r, "")
  {
    var j := RFindChar(r, '/');
    assert j >= 0 by { assert r[0] == '/'; }
    assert r[j] == '/';
  }

  /** Splitting at the first `c` undoes tagging a `c`-free text. */
  lemma CutAtTagged(a: string, b: string, c: char)
    requires c !in a
    ensures CutAt(a + Tagged(c, b), c) == (a, b)
  {
    if b != "" {
      var s := a + ([c] + b);
      assert s == a + [c] + b;
      assert c in s by { assert s[|a|] == c; }
      var r := CutAt(s, c);
      SplitUnique(r.0, r.1, a, b, c);
    } else {
      assert a + Tagged(c, b) == a;
    }
  }

  /** `_splitparams` undoes joining a rooted path and its parameters. */
  lemma CutParamsJoined(scheme: string, root: string, params: string)
    requires root == [] || root[0] == '/'
    requires params != "" ==> root != []
    requires scheme in UsesParams ==> NoParamSemicolon(root)
    requires scheme !in UsesParams ==> params == ""
    requires '/' !in params
    ensures CutParams(scheme, JoinParams(root, params)) == (root, params)
  {
    if scheme in UsesParams {
      if params != "" {
        SplitParamsJoined(root, params);
      } else if ';' in root {
        SplitParamsNone(root);
      }
    }
  }

  /** After the network location, `urlparse` reads back the rooted path, the parameters, query and fragment. */
  lemma {:induction false} SplitPathRoundTrip(p: UrlParts)
    requires WellFormed(p)
    ensures SplitPath(p.scheme, p.netloc, JoinParams(RootedPath(p), p.params) + QueryPart(p) + FragmentPart(p))
         == p.(path := RootedPath(p))
  {
    var root := RootedPath(p);
    var pp := JoinParams(root, p.params);
    assert '#' !in pp && '?' !in pp;
    var rest2 := pp + QueryPart(p);
    assert '#' !in rest2;
    CutAtTagged(rest2, p.fragment, '#');
    CutAtTagged(pp, p.query, '?');
    if p.scheme in UsesParams {
      RootedNoParamSemicolon(p);
    }
    CutParamsJoined(p.scheme, root, p.params);
  }

  /** `urlparse` reads the scheme back off `scheme:` followed by an authority. */
  lemma SplitSchemeBack(p: UrlParts, t: string)
    requires SchemeOk(p.scheme) && t != [] && t[0] == '/'
    ensures SplitScheme(SchemePart(p) + t) == (p.scheme, t)
  {
    if p.scheme != "" {
      IndexOfFirst(p.scheme, ':', t);
      var v := p.scheme + [':'] + t;
      assert SchemePart(p) + t == v;
      assert v[..|p.scheme|] == p.scheme;
      assert v[|p.scheme| + 1..] == t;
      assert forall k :: 0 <= k < |p.scheme| ==> v[k] == p.scheme[k];
    } else {
      assert SchemePart(p) + t == t;
    }
  }

  /** `urlparse` reads the network location back off `//netloc` followed by a path, query or fragment. */
  lemma SplitAuthorityBack(netloc: string, tail: string)
    requires forall c :: c in NetlocEnd ==> c !in netloc
    requires tail == [] || tail[0] in NetlocEnd
    ensures SplitAuthority("//" + netloc + tail) == (netloc, tail)
  {
    var t := "//" + netloc + tail;
    assert t[2..] == netloc + tail;
    FindAnyAt(netloc, tail, NetlocEnd);
    assert (netloc + tail)[..|netloc|] == netloc;
    assert (netloc + tail)[|netloc|..] == tail;
  }

  /** Sanitising and splitting off the scheme and network location of `urlunparse`'s output. */
  lemma {:induction false} SplitHeadRoundTrip(p: UrlParts, tail: string)
    requires WellFormed(p)
    requires tail == [] || tail[0] in NetlocEnd
    requires Clean(tail)
    ensures var v := SchemePart(p) + ("//" + p.netloc + tail);
      && Sanitize(v) == v
      && SplitScheme(v) == (p.scheme, "//" + p.netloc + tail)
      && SplitAuthority("//" + p.netloc + tail) == (p.netloc, tail)
  {
    var t1 := "//" + p.netloc + tail;
    var v := SchemePart(p) + t1;
    assert Clean(v);
    assert v[0] == (if p.scheme != "" then p.scheme[0] else '/');
    SanitizeKeeps(v);
    SplitSchemeBack(p, t1);
    SplitAuthorityBack(p.netloc, tail);
  }

  lemma Regroup(a: string, b: string, c: string, d: string, e: string)
    ensures a + (b + c) + d + e == a + (b + (c + d + e))
  {
  }

  /** `urlparse` reads back what `urlunparse` wrote, except that a relative path comes back absolute. */
  lemma {:induction false} ParseUnparse(p: UrlParts)
    requires WellFormed(p) && p.netloc != ""
    ensures Parse(Unparse(p)) == Ok(p.(path := RootedPath(p)))
  {
    var pp := JoinParams(RootedPath(p), p.params);
    var tail := pp + QueryPart(p) + FragmentPart(p);
    AuthorityRooted(p);
    assert Unparse(p) == SchemePart(p) + ("//" + p.netloc + pp) + QueryPart(p) + FragmentPart(p);
    Regroup(SchemePart(p), "//" + p.netloc, pp, QueryPart(p), FragmentPart(p));
    assert pp == [] || pp[0] == '/';
    SplitHeadRoundTrip(p, tail);
    SplitPathRoundTrip(p);
  }

  /** `update_url` leaves URLs on the two IEEE hosts as they are. */
  lemma UpdateUrlKeepsIeeeHosts(url: string)
    requires Parse(url).Ok? && Parse(url).value.netloc in {IeeeHost, DoiHost}
    ensures UpdateUrl(url) == Ok(url)
  {
  }

  /**
   * On any other host, `update_url` moves the URL to doi.ieeecomputersociety.org and keeps
   * scheme, query and fragment; path and parameters are kept when the path is absolute,
   * and a relative path is made absolute.
   */
  lemma UpdateUrlRehosts(url: string)
    requires Parse(url).Ok? && Parse(url).value.netloc !in {IeeeHost, DoiHost}
    ensures UpdateUrl(url).Ok?
    ensures Parse(UpdateUrl(url).value) == Ok(Parse(url).value.(netloc := IeeeHost, path := RootedPath(Parse(url).value)))
  {
    UpdateUrlUnparses(url);
    IeeeHostOk();
    RehostRoundTrip(Parse(url).value, IeeeHost);
  }

  lemma RehostRoundTrip(p: UrlParts, host: string)
    requires WellFormed(p) && NetlocOk(host) && host != ""
    ensures Parse(Unparse(p.(netloc := host))) == Ok(p.(netloc := host, path := RootedPath(p)))
  {
    var p' := p.(netloc := host);
    assert WellFormed(p');
    ParseUnparse(p');
    assert RootedPath(p') == RootedPath(p);
  }

  /** An absolute path is written back unchanged. */
  lemma RootedPathAbsolute(p: UrlParts)
    requires "/" <= p.path
    ensures RootedPath(p) == p.path
  {
  }

  /** Away from the IEEE hosts, `update_url` writes the parsed URL back with the new host. */
  lemma UpdateUrlUnparses(url: string)
    requires Parse(url).Ok? && Parse(url).value.netloc !in {IeeeHost, DoiHost}
    ensures UpdateUrl(url) == Ok(Unparse(Parse(url).value.(netloc := IeeeHost)))
  {
  }

  /** The IEEE host is an acceptable network location. */
  lemma IeeeHostOk()
    ensures NetlocOk(IeeeHost) && IeeeHost != ""
  {
    IeeeHostPlain();
  }

  /** The IEEE host is made of lower-case letters and dots only. */
  lemma IeeeHostPlain()
    ensures forall c :: c in IeeeHost ==> IsAsciiLetter(c) || c == '.'
  {
    forall c | c in IeeeHost ensures IsAsciiLetter(c) || c == '.' {
      var k :| 0 <= k < |IeeeHost| && IeeeHost[k] == c;
    }
  }

  /** Between `[` and `]` of `[abc]` is `abc`. */
  lemma BracketedAbc()
    ensures '[' in "[abc]" && BracketedHost("[abc]") == "abc"
  {
    var n := "[abc]";
    assert n[0] == '[';
    assert "" + ['['] + "abc]" == n;
    var r1 := SplitOnce(n, '[');
    SplitUnique(r1.0, r1.1, "", "abc]", '[');
    assert "abc]"[3] == ']';
    assert "abc" + [']'] + "" == "abc]";
    assert ']' !in "abc";
    var r2 := SplitOnce("abc]", ']');
    SplitUnique(r2.0, r2.1, "abc", "", ']');
  }

  /** The network location of `scheme://netloc` followed by a path, query or fragment is `netloc`. */
  lemma RawNetlocOf(scheme: string, netloc: string, tail: string)
    requires scheme != [] && SchemeOk(scheme) && Clean(scheme)
    requires Clean(netloc) && forall c :: c in NetlocEnd ==> c !in netloc
    requires Clean(tail) && (tail == [] || tail[0] in NetlocEnd)
    ensures RawNetloc(scheme + "://" + netloc + tail) == netloc
  {
    var p := UrlParts(scheme, netloc, "", "", "", "");
    var rest := "//" + netloc + tail;
    var url := SchemePart(p) + rest;
    assert scheme + "://" + netloc + tail == url;
    assert Clean(url);
    assert url[0] == scheme[0];
    SanitizeKeeps(url);
    SplitSchemeBack(p, rest);
    SplitAuthorityBack(netloc, tail);
  }

  /** `urlparse("http://[abc]/x")` raises `ValueError`: the brackets hold no address. */
  lemma ParseRefusesNonAddress(scheme: string, netloc: string, path: string)
    requires scheme == "http" && netloc == "[abc]" && path == "/x"
    ensures Parse(scheme + "://" + netloc + path) == Err(ValueError)
  {
    assert SchemeOk(scheme) by {
      assert AsciiLower(scheme) == scheme;
    }
    assert Clean(netloc) && forall c :: c in NetlocEnd ==> c !in netloc;
    assert path[0] == '/';
    RawNetlocOf(scheme, netloc, path);
    BracketedAbc();
    IpAddress.NotAnAddress();
  }

  /** Applying `update_url` twice is the same as applying it once. */
  lemma UpdateUrlIdempotent(url: string)
    requires UpdateUrl(url).Ok?
    ensures UpdateUrl(UpdateUrl(url).value) == UpdateUrl(url)
  {
    var p := Parse(url).value;
    if p.netloc !in {IeeeHost, DoiHost} {
      UpdateUrlRehosts(url);
    }
  }

  /** `update_url` raises exactly when `urlparse` does. */
  lemma UpdateUrlFails(url: string)
    ensures UpdateUrl(url).Err? <==> Parse(url).Err?
  {
  }
}
