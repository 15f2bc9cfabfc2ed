/**
 * `urllib.parse.urlparse` and `urllib.parse.urlunparse` on `str`, as
 * `add_or_update_utm` uses them: the URL is split into the six components of
 * a `ParseResult` (scheme, netloc, path, params, query, fragment), and the
 * components are put back together into one string.
 *
 * The split follows section 3 of RFC 3986 the way CPython does it: the
 * scheme ends at the first `:`, the authority (netloc) follows `//` and ends
 * at the first `/`, `?` or `#`, the fragment (section 3.5) follows the first
 * `#` and the query (section 3.4) the first `?` before it.
 */
module UrlParse {
  import opened Wrappers
  import opened Text

  /** The six fields of `urllib.parse.ParseResult`. */
  datatype Components = Components(
    scheme: string, netloc: string, path: string, params: string, query: string, fragment: string)

  /** The `ValueError("Invalid IPv6 URL")` that `urlsplit` raises on an unbalanced bracket. */
  datatype ParseError = InvalidIPv6

  /** The WHATWG "C0 control or space" characters `urlsplit` strips from the front. */
  predicate IsC0OrSpace(c: char) {
    c as int <= 0x20
  }

  /** The characters `urlsplit` deletes wherever they occur. */
  const Unsafe: set<char> := {'\t', '\r', '\n'}

  /** The characters that end the netloc. */
  const NetlocEnd: set<char> := {'/', '?', '#'}

  /** The characters that end the path: the query and the fragment delimiters. */
  const PathEnd: set<char> := {'?', '#'}

  /** `scheme_chars`: the characters a scheme may hold. */
  predicate IsSchemeChar(c: char) {
    IsAsciiLetter(c) || IsDigit(c) || c == '+' || c == '-' || c == '.'
  }

  /** `uses_params`: the schemes whose last path segment may carry `;params`. */
  const UsesParams: set<string> := {
    "", "ftp", "hdl", "prospero", "http", "imap", "https", "shttp", "rtsp", "rtsps",
    "rtspu", "sip", "sips", "mms", "sftp", "tel"}

  /** `uses_netloc`: the schemes whose URLs `urlunsplit` writes with `//`. */
  const UsesNetloc: set<string> := {
    "", "ftp", "http", "gopher", "nntp", "telnet", "imap", "wais", "file", "mms", "https",
    "shttp", "snews", "prospero", "rtsp", "rtsps", "rtspu", "rsync", "svn", "svn+ssh",
    "sftp", "nfs", "git", "git+ssh", "ws", "wss", "itms-services"}

  /** No character of `s` is in `stop`. */
  predicate NoneIn(s: string, stop: set<char>) {
    forall c | c in s :: c !in stop
  }

  /** `url.lstrip(_WHATWG_C0_CONTROL_OR_SPACE)`. */
  function LStripC0(s: string): (r: string)
    ensures |r| <= |s| && r == s[|s| - |r|..]
    ensures forall k | 0 <= k < |s| - |r| :: IsC0OrSpace(s[k])
    ensures r == [] || !IsC0OrSpace(r[0])
  {
    if s != [] && IsC0OrSpace(s[0]) then LStripC0(s[1..]) else s
  }

  /** `url.replace(b, "")` for each of the tab, carriage return and line feed. */
  function RemoveUnsafe(s: string): (r: string)
    ensures NoneIn(r, Unsafe)
    ensures forall c | c in r :: c in s
    ensures NoneIn(s, Unsafe) ==> r == s
    ensures s != [] && s[0] !in Unsafe ==> r != [] && r[0] == s[0]
  {
    if s == [] then []
    else (if s[0] in Unsafe then [] else [s[0]]) + RemoveUnsafe(s[1..])
  }

  /**
   * The scheme test of `urlsplit`: the text before the first `:` is not
   * empty, starts with an ASCII letter and holds only scheme characters.
   */
  predicate HasScheme(s: string) {
    var i := Find(s, ':');
    0 < i < |s| && IsAsciiLetter(s[0]) && forall k | 0 <= k < i :: IsSchemeChar(s[k])
  }

  /** The lower-cased scheme and the rest of the URL after its `:`. */
  function SplitScheme(s: string): (string, string) {
    if HasScheme(s) then
      var i := Find(s, ':');
      (Lower(s[..i]), s[i + 1..])
    else ("", s)
  }

  /** `_splitnetloc(url, 2)` when the URL starts with `//`. */
  function SplitNetloc(s: string): (string, string) {
    if |s| >= 2 && s[0] == '/' && s[1] == '/' then
      var rest := s[2..];
      var d := IndexOfAny(rest, NetlocEnd);
      (rest[..d], rest[d..])
    else ("", s)
  }

  /** A netloc holds `[` exactly when it holds `]`. */
  predicate Balanced(netloc: string) {
    ('[' in netloc) == (']' in netloc)
  }

  /** `s.split(c, 1)` when `c in s`, and `(s, "")` otherwise. */
  function SplitAt(s: string, c: char): (string, string) {
    var i := Find(s, c);
    if i < |s| then (s[..i], s[i + 1..]) else (s, "")
  }

  /** `_splitparams(url)`: the `;` parameters of the last path segment. */
  function SplitParams(u: string): (string, string)
    requires ';' in u
  {
    if '/' in u then
      var r := LastIndexOf(u, '/');
      var j := r + Find(u[r..], ';');
      if j == |u| then (u, "") else (u[..j], u[j + 1..])
    else
      var i := Find(u, ';');
      (u[..i], u[i + 1..])
  }

  /** The params step of `urlparse`, which depends on the scheme. */
  function SplitParamsFor(scheme: string, u: string): (string, string) {
    if scheme in UsesParams && ';' in u then SplitParams(u) else (u, "")
  }

  /** The path as `urlunparse` writes it: `path;params`, or the path alone when params is empty. */
  function JoinParams(path: string, params: string): string {
    if params != "" then path + ";" + params else path
  }

  /** `urlparse(url)` with the default scheme and fragments allowed. */
  function Parse(url: string): Result<Components, ParseError> {
    var s := RemoveUnsafe(LStripC0(url));
    var sa := SplitScheme(s);
    var nb := SplitNetloc(sa.1);
    if !Balanced(nb.0) then Err(InvalidIPv6)
    else
      var cf := SplitAt(nb.1, '#');
      var dq := SplitAt(cf.0, '?');
      var pp := SplitParamsFor(sa.0, dq.0);
      Ok(Components(sa.0, nb.0, pp.0, pp.1, dq.1, cf.1))
  }

  /** The text `urlunsplit` writes between `scheme:` and `?query`. */
  function Hierarchy(scheme: string, netloc: string, u: string): string {
    if netloc != "" then "//" + netloc + (if u != "" && u[0] != '/' then "/" + u else u)
    else if |u| >= 2 && u[0] == '/' && u[1] == '/' then "//" + u
    else if scheme != "" && scheme in UsesNetloc && (u == "" || u[0] == '/') then "//" + u
    else u
  }

  /** `urlunparse(c)`, with the `urlunsplit` of CPython 3.13. */
  function Unparse(c: Components): string {
    var v := Hierarchy(c.scheme, c.netloc, JoinParams(c.path, c.params));
    var w := if c.scheme != "" then c.scheme + ":" + v else v;
    var x := if c.query != "" then w + "?" + c.query else w;
    if c.fragment != "" then x + "#" + c.fragment else x
  }

  /**
   * The components `Parse` can produce. These are exactly the ones
   * `Unparse` writes out so that `Parse` reads them back unchanged.
   */
  predicate WellFormed(c: Components) {
    var u := JoinParams(c.path, c.params);
    && NoneIn(c.scheme, Unsafe) && NoneIn(c.netloc, Unsafe) && NoneIn(c.path, Unsafe)
    && NoneIn(c.params, Unsafe) && NoneIn(c.query, Unsafe) && NoneIn(c.fragment, Unsafe)
    && (c.scheme != "" ==> IsAsciiLetter(c.scheme[0]))
    && (forall k | 0 <= k < |c.scheme| :: IsSchemeChar(c.scheme[k]) && LowerChar(c.scheme[k]) == c.scheme[k])
    && NoneIn(c.netloc, NetlocEnd) && Balanced(c.netloc)
    && NoneIn(c.path, PathEnd) && NoneIn(c.params, PathEnd) && '#' !in c.query
    && SplitParamsFor(c.scheme, u) == (c.path, c.params)
    && (c.netloc != "" ==> u == "" || u[0] == '/')
    && (c.scheme == "" ==> !HasScheme(u) && (u == "" || !IsC0OrSpace(u[0])))
  }

  // ---- helpers on searching ----

  /** The first index in `stop` is determined by the characters before it. */
  lemma {:induction false} IndexOfAnyIs(s: string, stop: set<char>, i: nat)
    requires i <= |s| && (i < |s| ==> s[i] in stop)
    requires forall k | 0 <= k < i :: s[k] !in stop
    ensures IndexOfAny(s, stop) == i
  {
  }

  lemma {:induction false} IndexOfAnyAppend(a: string, b: string, stop: set<char>)
    requires NoneIn(a, stop)
    ensures IndexOfAny(a + b, stop) == |a| + IndexOfAny(b, stop)
  {
    var j := IndexOfAny(b, stop);
    var s := a + b;
    forall k | 0 <= k < |a| + j ensures s[k] !in stop {
      if k < |a| {
        assert s[k] == a[k] && a[k] in a;
      } else {
        assert s[k] == b[k - |a|];
      }
    }
    if j < |b| {
      assert s[|a| + j] == b[j];
    }
    IndexOfAnyIs(s, stop, |a| + j);
  }

  lemma {:induction false} NoneInSlice(s: string, stop: set<char>, i: nat, j: nat)
    requires NoneIn(s, stop) && i <= j <= |s|
    ensures NoneIn(s[i..j], stop)
  {
    forall c | c in s[i..j] ensures c !in stop {
      var k :| 0 <= k < j - i && s[i..j][k] == c;
      assert s[i + k] in s;
    }
  }

  /** Cutting a string in two where `Find` stops leaves the character out of the first part. */
  lemma {:induction false} FindPrefix(s: string, c: char)
    ensures c !in s[..Find(s, c)]
  {
    var i := Find(s, c);
    assert forall k | 0 <= k < i :: s[..i][k] == s[k];
  }

  // ---- helpers on the scheme test ----

  /** A scheme found in a prefix is the scheme of the whole string. */
  lemma {:induction false} HasSchemePrefix(u: string, s: string)
    requires |u| <= |s| && u == s[..|u|]
    ensures HasScheme(u) ==> HasScheme(s)
  {
    if HasScheme(u) {
      var i := Find(u, ':');
      assert s[i] == u[i];
      forall k | 0 <= k < i ensures s[k] != ':' {
        assert s[k] == u[k];
      }
      IndexOfAnyIs(s, {':'}, i);
      assert forall k | 0 <= k < i :: s[k] == u[k];
    }
  }

  /** A query or a fragment after a path cannot make a scheme appear. */
  lemma {:induction false} HasSchemeAppend(u: string, t: string)
    requires t == [] || t[0] in PathEnd
    requires !HasScheme(u)
    ensures !HasScheme(u + t)
  {
    var s := u + t;
    if t == [] {
      assert s == u;
    } else {
      var i := Find(s, ':');
      if i < |u| {
        HasSchemeAppendInside(u, t, i);
      } else {
        assert s[|u|] == t[0];
      }
    }
  }

  lemma {:induction false} HasSchemeAppendInside(u: string, t: string, i: nat)
    requires i == Find(u + t, ':') && i < |u|
    ensures HasScheme(u + t) ==> HasScheme(u)
  {
    var s := u + t;
    assert u[i] == s[i];
    assert forall k | 0 <= k < i :: u[k] == s[k];
    IndexOfAnyIs(u, {':'}, i);
  }

  lemma {:induction false} LowerIdentity(s: string)
    requires forall k | 0 <= k < |s| :: LowerChar(s[k]) == s[k]
    ensures Lower(s) == s
  {
  }

  // ---- helpers on params ----

  /**
   * `path;params` as `urlparse` splits it: the joined text is a prefix of
   * `u` (all of `u` when params is not empty), and splitting it again gives
   * the same path and params.
   */
  lemma {:induction false} SplitParamsShape(scheme: string, u: string)
    ensures var pp := SplitParamsFor(scheme, u);
      var j := JoinParams(pp.0, pp.1);
      |j| <= |u| && j == u[..|j|] && SplitParamsFor(scheme, j) == pp
  {
    if scheme in UsesParams && ';' in u {
      if '/' in u {
        SplitParamsSlash(u);
      } else {
        SplitParamsNoSlash(u);
      }
    } else {
      assert u[..|u|] == u;
    }
  }

  lemma {:induction false} SplitParamsSlash(u: string)
    requires ';' in u && '/' in u
    ensures var pp := SplitParams(u);
      var j := JoinParams(pp.0, pp.1);
      |j| <= |u| && j == u[..|j|] && (pp.1 != "" ==> j == u)
      && (';' in j ==> SplitParams(j) == pp)
      && (';' !in j ==> pp == (j, ""))
  {
    var r := LastIndexOf(u, '/');
    var j := r + Find(u[r..], ';');
    if j == |u| {
      assert u[..|u|] == u;
    } else {
      assert u[r..][j - r] == ';';
      assert u == u[..j] + ";" + u[j + 1..];
      if u[j + 1..] == "" {
        SplitParamsPrefix(u, r, j);
      }
    }
  }

  lemma {:induction false} SplitParamsNoSlash(u: string)
    requires ';' in u && '/' !in u
    ensures var pp := SplitParams(u);
      var j := JoinParams(pp.0, pp.1);
      |j| <= |u| && j == u[..|j|] && (pp.1 != "" ==> j == u)
      && (';' !in j ==> pp == (j, ""))
  {
    var i := Find(u, ';');
    assert u == u[..i] + ";" + u[i + 1..];
    FindPrefix(u, ';');
  }

  lemma {:induction false} InSlice(s: string, i: nat, j: nat)
    requires i <= j <= |s|
    ensures forall c | c in s[i..j] :: c in s
  {
    forall c | c in s[i..j] ensures c in s {
      var k :| 0 <= k < j - i && s[i..j][k] == c;
      assert s[i + k] == c;
    }
  }

  /**
   * When `;` directly ends the path, what is before it has no `;` after
   * its last `/`, so splitting it again gives no params.
   */
  lemma {:induction false} SplitParamsPrefix(u: string, r: nat, j: nat)
    requires '/' in u && r == LastIndexOf(u, '/') && r <= j < |u|
    requires j == r + Find(u[r..], ';')
    ensures var p := u[..j]; '/' in p && LastIndexOf(p, '/') == r && (';' in p ==> SplitParams(p) == (p, ""))
  {
    var p := u[..j];
    assert u[r] == '/' && u[r..][0] == '/';
    assert p[r] == '/';
    assert LastIndexOf(p, '/') == r by {
      var q := LastIndexOf(p, '/');
      assert p[q] == u[q];
    }
    assert Find(p[r..], ';') == |p| - r by {
      forall k | 0 <= k < |p| - r ensures p[r..][k] != ';' {
        assert p[r..][k] == u[r..][k];
      }
      IndexOfAnyIs(p[r..], {';'}, |p| - r);
    }
  }

  // ---- what Parse produces ----

  /** `s.split(c, 1)` cuts `s` into a prefix without `c` and the text after it. */
  lemma {:induction false} SplitAtFacts(s: string, c: char)
    ensures var r := SplitAt(s, c);
      c !in r.0 && |r.0| <= |s| && r.0 == s[..|r.0|]
      && (forall x | x in r.0 :: x in s) && (forall x | x in r.1 :: x in s)
  {
    var i := Find(s, c);
    FindPrefix(s, c);
    InSlice(s, 0, i);
    if i < |s| {
      InSlice(s, i + 1, |s|);
    } else {
      assert s[..|s|] == s;
    }
  }

  lemma {:induction false} UnsafeIsC0(t: string)
    requires t == [] || !IsC0OrSpace(t[0])
    ensures t == [] || t[0] !in Unsafe
  {
  }

  /** The text `urlsplit` works on starts with a character that is not a C0 control or space. */
  lemma {:induction false} CleanedStart(url: string)
    ensures var s := RemoveUnsafe(LStripC0(url));
      NoneIn(s, Unsafe) && (s == [] || !IsC0OrSpace(s[0]))
  {
    UnsafeIsC0(LStripC0(url));
  }

  lemma {:induction false} SplitSchemeFacts(s: string)
    ensures var sa := SplitScheme(s);
      && (sa.0 != "" ==> IsAsciiLetter(sa.0[0]))
      && (forall k | 0 <= k < |sa.0| :: IsSchemeChar(sa.0[k]) && LowerChar(sa.0[k]) == sa.0[k])
      && (forall x | x in sa.0 :: !IsC0OrSpace(x))
      && (forall x | x in sa.1 :: x in s)
      && (sa.0 == "" ==> sa.1 == s && !HasScheme(s))
  {
    if HasScheme(s) {
      var i := Find(s, ':');
      var t := s[..i];
      assert forall k | 0 <= k < i :: t[k] == s[k];
      var l := Lower(t);
      assert l[0] == LowerChar(t[0]);
      forall x | x in l ensures !IsC0OrSpace(x) {
        var k :| 0 <= k < |l| && l[k] == x;
        assert IsSchemeChar(t[k]);
      }
      InSlice(s, i + 1, |s|);
    }
  }

  lemma {:induction false} SplitNetlocFacts(a: string)
    ensures var nb := SplitNetloc(a);
      && NoneIn(nb.0, NetlocEnd)
      && (forall x | x in nb.0 :: x in a) && (forall x | x in nb.1 :: x in a)
      && ((nb.0 == "" && nb.1 == a) || nb.1 == [] || nb.1[0] in NetlocEnd)
  {
    if |a| >= 2 && a[0] == '/' && a[1] == '/' {
      var rest := a[2..];
      var d := IndexOfAny(rest, NetlocEnd);
      forall x | x in rest[..d] ensures x !in NetlocEnd {
        var k :| 0 <= k < d && rest[..d][k] == x;
        assert rest[k] == x;
      }
      InSlice(rest, 0, d);
      InSlice(rest, d, |rest|);
      InSlice(a, 2, |a|);
    }
  }

  /** `Parse` only produces well-formed components. */
  lemma {:induction false} ParseWellFormed(url: string)
    ensures Parse(url).Ok? ==> WellFormed(Parse(url).value)
  {
    var s := RemoveUnsafe(LStripC0(url));
    var sa := SplitScheme(s);
    var nb := SplitNetloc(sa.1);
    if Balanced(nb.0) {
      var cf := SplitAt(nb.1, '#');
      var dq := SplitAt(cf.0, '?');
      var pp := SplitParamsFor(sa.0, dq.0);
      CleanedStart(url);
      SplitSchemeFacts(s);
      SplitNetlocFacts(sa.1);
      SplitAtFacts(nb.1, '#');
      SplitAtFacts(cf.0, '?');
      SplitParamsShape(sa.0, dq.0);
      WellFormedFrom(s, sa.0, sa.1, nb.0, nb.1, cf.0, cf.1, dq.0, dq.1, pp.0, pp.1);
    }
  }

  /** The facts the stages of `Parse` establish, put together. */
  lemma {:induction false} WellFormedFrom(
    s: string, scheme: string, a: string, netloc: string, b: string,
    c0: string, fragment: string, d: string, query: string, path: string, params: string)
    requires NoneIn(s, Unsafe) && (s == [] || !IsC0OrSpace(s[0]))
    requires scheme != "" ==> IsAsciiLetter(scheme[0])
    requires forall k | 0 <= k < |scheme| :: IsSchemeChar(scheme[k]) && LowerChar(scheme[k]) == scheme[k]
    requires forall x | x in scheme :: !IsC0OrSpace(x)
    requires forall x | x in a :: x in s
    requires scheme == "" ==> a == s && !HasScheme(s)
    requires NoneIn(netloc, NetlocEnd) && Balanced(netloc)
    requires (forall x | x in netloc :: x in a) && (forall x | x in b :: x in a)
    requires (netloc == "" && b == a) || b == [] || b[0] in NetlocEnd
    requires '#' !in c0 && |c0| <= |b| && c0 == b[..|c0|]
    requires (forall x | x in c0 :: x in b) && (forall x | x in fragment :: x in b)
    requires '?' !in d && |d| <= |c0| && d == c0[..|d|]
    requires (forall x | x in d :: x in c0) && (forall x | x in query :: x in c0)
    requires var j := JoinParams(path, params);
      |j| <= |d| && j == d[..|j|] && SplitParamsFor(scheme, j) == (path, params)
    ensures WellFormed(Components(scheme, netloc, path, params, query, fragment))
  {
    var j := JoinParams(path, params);
    InSlice(d, 0, |j|);
    assert j == b[..|j|] by {
      assert forall k | 0 <= k < |j| :: j[k] == d[k] == c0[k] == b[k];
    }
    HasSchemePrefix(j, b);
    ParseWellFormedEnd(s, scheme, a, netloc, b, j);
  }

  lemma {:induction false} ParseWellFormedEnd(s: string, scheme: string, a: string, netloc: string, b: string, j: string)
    requires (netloc == "" && b == a) || b == [] || b[0] in NetlocEnd
    requires scheme == "" ==> a == s && !HasScheme(s)
    requires s == [] || !IsC0OrSpace(s[0])
    requires '?' !in j && '#' !in j
    requires |j| <= |b| && j == b[..|j|]
    requires HasScheme(j) ==> HasScheme(b)
    ensures netloc != "" ==> j == [] || j[0] == '/'
    ensures scheme == "" ==> !HasScheme(j) && (j == [] || !IsC0OrSpace(j[0]))
  {
  }

  // ---- Parse reads back what Unparse writes ----

  /** `?query`, or nothing when the query is empty. */
  function QueryPart(query: string): string {
    if query != "" then "?" + query else ""
  }

  /** `?query#fragment`, each part left out when it is empty. */
  function Tail(query: string, fragment: string): string {
    QueryPart(query) + if fragment != "" then "#" + fragment else ""
  }

  lemma {:induction false} UnparseShape(c: Components)
    ensures var v := Hierarchy(c.scheme, c.netloc, JoinParams(c.path, c.params));
      Unparse(c) == (if c.scheme != "" then c.scheme + ":" else "") + (v + Tail(c.query, c.fragment))
  {
    var v := Hierarchy(c.scheme, c.netloc, JoinParams(c.path, c.params));
    var sp := if c.scheme != "" then c.scheme + ":" else "";
    var qp := QueryPart(c.query);
    var fp := if c.fragment != "" then "#" + c.fragment else "";
    var w := if c.scheme != "" then c.scheme + ":" + v else v;
    var x := if c.query != "" then w + "?" + c.query else w;
    assert w == sp + v by {
      assert "" + v == v;
    }
    assert x == w + qp by {
      assert w + "" == w;
    }
    assert Unparse(c) == x + fp by {
      assert x + "" == x;
    }
    Assoc(sp + v, qp, fp);
    Assoc(sp, v, qp + fp);
  }

  lemma {:induction false} Assoc(a: string, b: string, c: string)
    ensures a + b + c == a + (b + c)
  {
  }

  lemma {:induction false} NoneInConcat(a: string, b: string, stop: set<char>)
    requires NoneIn(a, stop) && NoneIn(b, stop)
    ensures NoneIn(a + b, stop)
  {
  }

  lemma {:induction false} NoneInJoinParams(path: string, params: string, stop: set<char>)
    requires NoneIn(path, stop) && NoneIn(params, stop) && ';' !in stop
    ensures NoneIn(JoinParams(path, params), stop)
  {
    if params != "" {
      NoneInConcat(path, ";", stop);
      NoneInConcat(path + ";", params, stop);
    }
  }

  lemma {:induction false} NoneInHierarchy(scheme: string, netloc: string, u: string, stop: set<char>)
    requires NoneIn(netloc, stop) && NoneIn(u, stop) && '/' !in stop
    ensures NoneIn(Hierarchy(scheme, netloc, u), stop)
  {
    NoneInConcat("/", u, stop);
    NoneInConcat("//", u, stop);
    NoneInConcat("//", netloc, stop);
    NoneInConcat("//" + netloc, u, stop);
    NoneInConcat("//" + netloc, "/" + u, stop);
  }

  lemma {:induction false} NoneInTail(query: string, fragment: string, stop: set<char>)
    requires NoneIn(query, stop) && NoneIn(fragment, stop) && '?' !in stop && '#' !in stop
    ensures NoneIn(Tail(query, fragment), stop)
  {
    NoneInConcat("?", query, stop);
    NoneInConcat("#", fragment, stop);
    NoneInConcat(QueryPart(query), if fragment != "" then "#" + fragment else "", stop);
  }

  lemma {:induction false} UnparseClean(c: Components)
    requires WellFormed(c)
    ensures NoneIn(Unparse(c), Unsafe)
  {
    var u := JoinParams(c.path, c.params);
    var v := Hierarchy(c.scheme, c.netloc, u);
    var t := Tail(c.query, c.fragment);
    NoneInJoinParams(c.path, c.params, Unsafe);
    NoneInHierarchy(c.scheme, c.netloc, u, Unsafe);
    NoneInTail(c.query, c.fragment, Unsafe);
    NoneInConcat(v, t, Unsafe);
    NoneInConcat(c.scheme, ":", Unsafe);
    NoneInConcat(if c.scheme != "" then c.scheme + ":" else "", v + t, Unsafe);
    UnparseShape(c);
  }

  lemma {:induction false} UnparseStart(c: Components)
    requires WellFormed(c)
    ensures var s := Unparse(c); s == [] || !IsC0OrSpace(s[0])
  {
    var u := JoinParams(c.path, c.params);
    var t := Tail(c.query, c.fragment);
    UnparseShape(c);
    if c.scheme != "" {
      assert Unparse(c)[0] == c.scheme[0];
    } else {
      assert Unparse(c) == Hierarchy("", c.netloc, u) + t;
      TailStart(c.query, c.fragment);
      HierarchyStart(c.netloc, u, t);
    }
  }

  lemma {:induction false} HierarchyStart(netloc: string, u: string, t: string)
    requires (u == [] || !IsC0OrSpace(u[0])) && (t == [] || t[0] in PathEnd)
    ensures var w := Hierarchy("", netloc, u) + t; w == [] || !IsC0OrSpace(w[0])
  {
    var v := Hierarchy("", netloc, u);
    if v != [] {
      assert (v + t)[0] == v[0];
    } else {
      assert v + t == t;
    }
  }

  lemma {:induction false} UnparseScheme(c: Components)
    requires WellFormed(c)
    ensures var v := Hierarchy(c.scheme, c.netloc, JoinParams(c.path, c.params));
      SplitScheme(Unparse(c)) == (c.scheme, v + Tail(c.query, c.fragment))
  {
    var u := JoinParams(c.path, c.params);
    var v := Hierarchy(c.scheme, c.netloc, u);
    var t := Tail(c.query, c.fragment);
    UnparseShape(c);
    if c.scheme != "" {
      SchemeSplit(c.scheme, v + t);
    } else {
      assert "" + (v + t) == v + t;
      NoSchemeSplit(c.netloc, u, t);
    }
  }

  /** `scheme:rest` splits at the colon when the scheme is a lower-case scheme name. */
  lemma {:induction false} SchemeSplit(scheme: string, rest: string)
    requires scheme != "" && IsAsciiLetter(scheme[0])
    requires forall k | 0 <= k < |scheme| :: IsSchemeChar(scheme[k]) && LowerChar(scheme[k]) == scheme[k]
    ensures SplitScheme(scheme + ":" + rest) == (scheme, rest)
  {
    var s := scheme + ":" + rest;
    assert s == scheme + (":" + rest);
    assert NoneIn(scheme, {':'}) by {
      forall x | x in scheme ensures x != ':' {
        var k :| 0 <= k < |scheme| && scheme[k] == x;
        assert IsSchemeChar(scheme[k]);
      }
    }
    IndexOfAnyAppend(scheme, ":" + rest, {':'});
    assert forall k | 0 <= k < |scheme| :: s[k] == scheme[k];
    assert s[..|scheme|] == scheme;
    assert s[|scheme| + 1..] == rest;
    LowerIdentity(scheme);
  }

  /** Without a scheme, what `Hierarchy` writes followed by the tail has no scheme either. */
  lemma {:induction false} NoSchemeSplit(netloc: string, u: string, t: string)
    requires !HasScheme(u) && (t == [] || t[0] in PathEnd)
    ensures var w := Hierarchy("", netloc, u) + t; SplitScheme(w) == ("", w)
  {
    var v := Hierarchy("", netloc, u);
    if v == u {
      HasSchemeAppend(u, t);
    } else {
      assert (v + t)[0] == '/';
    }
  }

  lemma {:induction false} UnparseNetloc(scheme: string, netloc: string, u: string, t: string)
    requires NoneIn(netloc, NetlocEnd)
    requires netloc != "" ==> u == [] || u[0] == '/'
    requires t == [] || t[0] in PathEnd
    ensures SplitNetloc(Hierarchy(scheme, netloc, u) + t) == (netloc, u + t)
  {
    var v := Hierarchy(scheme, netloc, u);
    if netloc != "" {
      assert v == "//" + netloc + u;
      NetlocAfterSlashes(netloc, u, t);
    } else if v != u {
      assert v == "//" + "" + u;
      NetlocAfterSlashes("", u, t);
    } else {
      NoSlashesBefore(u, t);
    }
  }

  /** The query-and-fragment tail is empty or starts with `?` or `#`. */
  lemma {:induction false} TailStart(query: string, fragment: string)
    ensures var t := Tail(query, fragment); t == [] || t[0] in PathEnd
  {
  }

  /** `//netloc` followed by a path that is empty or starts with `/`, then the query and fragment. */
  lemma {:induction false} NetlocAfterSlashes(netloc: string, u: string, t: string)
    requires NoneIn(netloc, NetlocEnd)
    requires u == [] || u[0] == '/'
    requires t == [] || t[0] in PathEnd
    ensures SplitNetloc("//" + netloc + u + t) == (netloc, u + t)
  {
    var ut := u + t;
    var s := "//" + netloc + u + t;
    assert s == "//" + (netloc + ut);
    assert ut == [] || ut[0] in NetlocEnd by {
      if u == [] {
        assert ut == t;
      } else {
        assert ut[0] == u[0];
      }
    }
    IndexOfAnyAppend(netloc, ut, NetlocEnd);
    IndexOfAnyIs(ut, NetlocEnd, 0);
    assert s[2..] == netloc + ut;
    assert (netloc + ut)[..|netloc|] == netloc;
    assert (netloc + ut)[|netloc|..] == ut;
  }

  /** A path that `Hierarchy` leaves alone does not start with `//`, even with the tail after it. */
  lemma {:induction false} NoSlashesBefore(u: string, t: string)
    requires !(|u| >= 2 && u[0] == '/' && u[1] == '/')
    requires t == [] || t[0] in PathEnd
    ensures SplitNetloc(u + t) == ("", u + t)
  {
    var ut := u + t;
    if |u| >= 2 {
      assert ut[0] == u[0] && ut[1] == u[1];
    } else if |u| == 1 {
      if t != [] {
        assert ut[1] == t[0];
      }
    } else {
      assert ut == t;
    }
  }

  lemma {:induction false} UnparseFragment(u: string, query: string, fragment: string)
    requires NoneIn(u, PathEnd) && '#' !in query
    ensures SplitAt(u + Tail(query, fragment), '#') == (u + QueryPart(query), fragment)
  {
    var q := u + QueryPart(query);
    var f := if fragment != "" then "#" + fragment else "";
    assert '#' !in q;
    Assoc(u, QueryPart(query), f);
    if fragment != "" {
      SplitAtFirst(q, fragment, '#');
    } else {
      assert q + f == q;
      SplitAtNone(q, '#');
    }
  }

  lemma {:induction false} UnparseQuery(u: string, query: string)
    requires NoneIn(u, PathEnd)
    ensures SplitAt(u + QueryPart(query), '?') == (u, query)
  {
    assert '?' !in u;
    if query != "" {
      SplitAtFirst(u, query, '?');
    } else {
      assert u + QueryPart(query) == u;
      SplitAtNone(u, '?');
    }
  }

  /** Splitting at the first `c` of `a`, `c`, `b` gives `a` and `b` back when `a` has no `c`. */
  lemma {:induction false} SplitAtFirst(a: string, b: string, c: char)
    requires c !in a
    ensures SplitAt(a + ([c] + b), c) == (a, b)
  {
    var s := a + ([c] + b);
    assert forall k | 0 <= k < |a| :: s[k] == a[k];
    IndexOfAnyIs(s, {c}, |a|);
    assert s[..|a|] == a;
    assert s[|a| + 1..] == b;
  }

  lemma {:induction false} SplitAtNone(a: string, c: char)
    requires c !in a
    ensures SplitAt(a, c) == (a, "")
  {
    IndexOfAnyIs(a, {c}, |a|);
  }

  /** `Parse` as the sequence of its stages, for a URL with nothing to strip or delete. */
  lemma {:induction false} ParseStages(
    s: string, scheme: string, a: string, netloc: string, b: string,
    c0: string, fragment: string, d: string, query: string, path: string, params: string)
    requires NoneIn(s, Unsafe) && (s == [] || !IsC0OrSpace(s[0]))
    requires SplitScheme(s) == (scheme, a)
    requires SplitNetloc(a) == (netloc, b) && Balanced(netloc)
    requires SplitAt(b, '#') == (c0, fragment)
    requires SplitAt(c0, '?') == (d, query)
    requires SplitParamsFor(scheme, d) == (path, params)
    ensures Parse(s) == Ok(Components(scheme, netloc, path, params, query, fragment))
  {
    assert LStripC0(s) == s;
    assert RemoveUnsafe(s) == s;
  }

  /** `urlparse(urlunparse(c)) == c` for every `c` that `urlparse` can produce. */
  lemma {:induction false} ParseUnparse(c: Components)
    requires WellFormed(c)
    ensures Parse(Unparse(c)) == Ok(c)
  {
    var u := JoinParams(c.path, c.params);
    var v := Hierarchy(c.scheme, c.netloc, u);
    var t := Tail(c.query, c.fragment);
    UnparseClean(c);
    UnparseStart(c);
    UnparseScheme(c);
    NoneInJoinParams(c.path, c.params, PathEnd);
    TailStart(c.query, c.fragment);
    UnparseNetloc(c.scheme, c.netloc, u, t);
    UnparseFragment(u, c.query, c.fragment);
    UnparseQuery(u, c.query);
    ParseStages(Unparse(c), c.scheme, v + t, c.netloc, u + t, u + QueryPart(c.query), c.fragment,
      u, c.query, c.path, c.params);
  }

  /** What `urlparse` reads from a URL, `urlunparse` writes so that `urlparse` reads it again. */
  lemma {:induction false} ParseUnparseParse(url: string)
    requires Parse(url).Ok?
    ensures Parse(Unparse(Parse(url).value)) == Parse(url)
  {
    ParseWellFormed(url);
    ParseUnparse(Parse(url).value);
  }
}
