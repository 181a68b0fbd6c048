/**
  The `path` attribute of `urllib.parse.urlparse(target)` as CPython 3.12 computes
  it for a request target: leading C0 controls and spaces are stripped, tab, CR
  and LF are removed, a scheme and a `//` authority are split off, then the
  fragment, the query and the `;` parameters of the last segment.  Nothing is
  percent-decoded.
 */
module Url {
  import opened Optional

  /** Index of the first character of `s` in `cs`, or `|s|` when there is none. */
  function FindAny(s: string, cs: set<char>): (i: nat)
    ensures i <= |s|
    ensures i < |s| ==> s[i] in cs
    ensures forall j :: 0 <= j < i ==> s[j] !in cs
  {
    if s == [] then 0
    else if s[0] in cs then 0
    else 1 + FindAny(s[1..], cs)
  }

  /** `s.find(c)`, with `|s|` standing for -1. */
  function Find(s: string, c: char): (i: nat)
    ensures i <= |s|
    ensures i < |s| ==> s[i] == c
    ensures forall j :: 0 <= j < i ==> s[j] != c
  {
    FindAny(s, {c})
  }

  /** `s.rfind(c)` when `c` occurs in `s`. */
  function FindLast(s: string, c: char): (i: nat)
    requires c in s
    ensures i < |s| && s[i] == c
    ensures forall j :: i < j < |s| ==> s[j] != c
  {
    if s[|s| - 1] == c then |s| - 1 else FindLast(s[..|s| - 1], c)
  }

  /** `s.lstrip` of the WHATWG "C0 control or space" characters, U+0000 to U+0020. */
  function LStripControls(s: string): (r: string)
    ensures |r| <= |s| && s[|s| - |r|..] == r
    ensures forall i :: 0 <= i < |s| - |r| ==> s[i] <= ' '
    ensures r == "" || r[0] > ' '
  {
    if s != [] && s[0] <= ' ' then LStripControls(s[1..]) else s
  }

  predicate IsUnsafe(c: char)
  {
    c == '\t' || c == '\r' || c == '\n'
  }

  /** Every tab, CR and LF removed, the other characters kept in order. */
  function RemoveUnsafe(s: string): (r: string)
    ensures |r| <= |s|
    ensures forall i :: 0 <= i < |r| ==> !IsUnsafe(r[i])
    ensures forall i :: 0 <= i < |r| ==> r[i] in s
  {
    if s == [] then []
    else if IsUnsafe(s[0]) then RemoveUnsafe(s[1..])
    else [s[0]] + RemoveUnsafe(s[1..])
  }

  /** A string without tab, CR or LF is kept as it is. */
  lemma {:induction false} RemoveUnsafeKeepsSafe(s: string)
    requires AllSafe(s)
    ensures RemoveUnsafe(s) == s
  {
    if s != [] {
      RemoveUnsafeKeepsSafe(s[1..]);
      assert s == [s[0]] + s[1..];
    }
  }

  /** One character: removed when it is a tab, CR or LF, kept otherwise. */
  lemma RemoveUnsafeChar(c: char)
    ensures RemoveUnsafe([c]) == if IsUnsafe(c) then [] else [c]
  {
    assert [c][1..] == [];
  }

  /** Removal works piece by piece, so what is kept stays in its order. */
  lemma {:induction false} RemoveUnsafeAppend(a: string, b: string)
    ensures RemoveUnsafe(a + b) == RemoveUnsafe(a) + RemoveUnsafe(b)
  {
    if a != [] {
      assert (a + b)[0] == a[0];
      assert (a + b)[1..] == a[1..] + b;
      RemoveUnsafeAppend(a[1..], b);
    } else {
      assert a + b == b;
    }
  }

  predicate IsAsciiLetter(c: char)
  {
    'a' <= c <= 'z' || 'A' <= c <= 'Z'
  }

  /** The characters `urllib.parse.scheme_chars` allows. */
  predicate IsSchemeChar(c: char)
  {
    IsAsciiLetter(c) || '0' <= c <= '9' || c == '+' || c == '-' || c == '.'
  }

  /** `str.lower` on the ASCII letters a scheme is made of: `A` to `Z` become `a` to `z`, the rest is kept. */
  function AsciiLower(s: string): (r: string)
    ensures |r| == |s|
    ensures forall i :: 0 <= i < |s| ==> r[i] == if 'A' <= s[i] <= 'Z' then (s[i] as int + 32) as char else s[i]
  {
    if s == [] then []
    else [if 'A' <= s[0] <= 'Z' then (s[0] as int + 32) as char else s[0]] + AsciiLower(s[1..])
  }

  /** `urllib.parse.uses_params`: the schemes whose URLs may carry `;` parameters. */
  const ParamSchemes: set<string> :=
    {"", "ftp", "hdl", "prospero", "http", "imap", "https", "shttp", "rtsp", "rtsps",
     "rtspu", "sip", "sips", "mms", "sftp", "tel"}

  /**
    `url[..n]` is a scheme: it is followed by the first colon of `url`, starts
    with an ASCII letter and holds only scheme characters.
   */
  predicate SchemeBefore(url: string, n: nat)
  {
    && 0 < n < |url| && url[n] == ':' && ':' !in url[..n]
    && IsAsciiLetter(url[0]) && forall j :: 0 <= j < n ==> IsSchemeChar(url[j])
  }

  /**
    The scheme, when `url` starts with one, lower-cased, and what follows its
    colon; without one the whole `url` is kept.
   */
  function SplitScheme(url: string): (r: (string, string))
    ensures |r.1| <= |url| && url[|url| - |r.1|..] == r.1
    ensures r.0 == "" ==> r.1 == url && !SchemeBefore(url, Find(url, ':'))
    ensures r.0 != "" ==>
      && SchemeBefore(url, |r.0|)
      && r.0 == AsciiLower(url[..|r.0|]) && r.1 == url[|r.0| + 1..]
  {
    var i := Find(url, ':');
    if 0 < i < |url| && IsAsciiLetter(url[0]) && forall j :: 0 <= j < i ==> IsSchemeChar(url[j])
    then (AsciiLower(url[..i]), url[i + 1..])
    else ("", url)
  }

  /** `_splitnetloc(url, 2)`: the authority after `//` runs to the first `/`, `?` or `#`. */
  function SplitNetloc(url: string): (r: (string, string))
    requires |url| >= 2
    ensures url == url[..2] + r.0 + r.1
    ensures forall i :: 0 <= i < |r.0| ==> r.0[i] !in {'/', '?', '#'}
    ensures r.1 == "" || r.1[0] in {'/', '?', '#'}
  {
    var t := url[2..];
    var d := FindAny(t, {'/', '?', '#'});
    assert url == url[..2] + t[..d] + t[d..];
    (t[..d], t[d..])
  }

  /**
    `_splitparams(path)[0]`: the path without the `;` parameters of its last
    segment.  It is cut at the first `;` that has no `/` after it, and kept
    whole when there is no such `;`.
   */
  function StripParams(path: string): (r: string)
    requires ';' in path
    ensures |r| <= |path| && path[..|r|] == r
    ensures |r| < |path| ==> path[|r|] == ';' && '/' !in path[|r|..]
    ensures forall k :: 0 <= k < |r| && r[k] == ';' ==> '/' in r[k + 1..]
  {
    if '/' in path then
      var j := FindLast(path, '/');
      var i := Find(path[j..], ';');
      if i == |path[j..]| then
        assert forall k :: 0 <= k < |path| && path[k] == ';' ==> k < j && path[k + 1..][j - k - 1] == '/';
        path
      else
        var r := path[..j + i];
        assert forall k :: 0 <= k < |r| && r[k] == ';' ==> k < j && r[k + 1..][j - k - 1] == '/';
        r
    else path[..Find(path, ';')]
  }

  /** The path once the fragment (from the first `#`) and then the query (from the first `?`) are gone. */
  function DropQueryAndFragment(rest: string): (path: string)
    ensures path == rest[..FindAny(rest, {'?', '#'})]
  {
    var noFragment := rest[..Find(rest, '#')];
    noFragment[..Find(noFragment, '?')]
  }

  /**
    `urlparse(target).path`, or `None` when `urlparse` raises: an authority with
    an opening bracket and no closing one, or the other way round.
   */
  function UrlPath(target: string): (r: Option<string>)
    ensures r.Some? ==> '?' !in r.value && '#' !in r.value
    ensures r.None? ==> '[' in target || ']' in target
  {
    BracketFrom(target, '[');
    BracketFrom(target, ']');
    var (scheme, afterScheme) := SplitScheme(RemoveUnsafe(LStripControls(target)));
    PathAfterScheme(scheme, afterScheme)
  }

  /** A character left once the scheme is split off was in the target. */
  lemma BracketFrom(target: string, c: char)
    ensures c in SplitScheme(RemoveUnsafe(LStripControls(target))).1 ==> c in target
  {
    var stripped := LStripControls(target);
    var cleaned := RemoveUnsafe(stripped);
    if c in SplitScheme(cleaned).1 {
      InSuffix(cleaned, SplitScheme(cleaned).1, c);
      InSuffix(target, stripped, c);
    }
  }

  /** A character of a suffix of `s` is a character of `s`. */
  lemma InSuffix(s: string, t: string, c: char)
    requires |t| <= |s| && s[|s| - |t|..] == t
    requires c in t
    ensures c in s
  {
    var i :| 0 <= i < |t| && t[i] == c;
    assert s[|s| - |t| + i] == c;
  }

  /**
    What `urlparse` does once the scheme is split off.  It can only raise on
    an authority, that is after `//`, and only when a bracket is there.
   */
  function PathAfterScheme(scheme: string, afterScheme: string): (r: Option<string>)
    ensures r.Some? ==> '?' !in r.value && '#' !in r.value
    ensures r.None? ==> '[' in afterScheme || ']' in afterScheme
    ensures !(|afterScheme| >= 2 && afterScheme[..2] == "//") ==> r == Some(PathPart(scheme, afterScheme))
    ensures |afterScheme| >= 2 && afterScheme[..2] == "//" ==>
      var (netloc, rest) := SplitNetloc(afterScheme);
      && (r.None? <==> ('[' in netloc) != (']' in netloc))
      && (r.Some? ==> r.value == PathPart(scheme, rest))
  {
    var (netloc, rest) := SplitAuthority(afterScheme);
    if ('[' in netloc) != (']' in netloc) then None else Some(PathPart(scheme, rest))
  }

  /**
    The authority when `afterScheme` starts with `//`, none otherwise, and
    what follows it.  After `//` the authority runs to the first `/`, `?` or
    `#`, and the rest starts there.
   */
  function SplitAuthority(afterScheme: string): (r: (string, string))
    ensures !(|afterScheme| >= 2 && afterScheme[..2] == "//") ==> r == ("", afterScheme)
    ensures |afterScheme| >= 2 && afterScheme[..2] == "//" ==>
      && afterScheme == "//" + r.0 + r.1
      && (forall i :: 0 <= i < |r.0| ==> r.0[i] !in {'/', '?', '#'})
      && (r.1 == "" || r.1[0] in {'/', '?', '#'})
    ensures '[' in r.0 ==> '[' in afterScheme
    ensures ']' in r.0 ==> ']' in afterScheme
  {
    if |afterScheme| >= 2 && afterScheme[..2] == "//" then
      NetlocInside(afterScheme, '[');
      NetlocInside(afterScheme, ']');
      SplitNetloc(afterScheme)
    else ("", afterScheme)
  }

  /** A character of the authority is a character of the URL. */
  lemma NetlocInside(url: string, c: char)
    requires |url| >= 2
    ensures c in SplitNetloc(url).0 ==> c in url
  {
    var netloc := SplitNetloc(url).0;
    if c in netloc {
      var i :| 0 <= i < |netloc| && netloc[i] == c;
      assert url[2 + i] == netloc[i];
    }
  }

  /** The path: the query and the fragment dropped, then the `;` parameters for a scheme that uses them. */
  function PathPart(scheme: string, rest: string): (path: string)
    ensures '?' !in path && '#' !in path
    ensures var q := rest[..FindAny(rest, {'?', '#'})];
      && |path| <= |q| && q[..|path|] == path
      && (scheme !in ParamSchemes || ';' !in q ==> path == q)
      && (scheme in ParamSchemes && ';' in q ==> path == StripParams(q))
  {
    var path := DropQueryAndFragment(rest);
    if scheme in ParamSchemes && ';' in path then StripParams(path) else path
  }

  /** A target that starts with a slash, without tab, CR or LF, has no scheme. */
  lemma SlashLed(target: string)
    requires |target| >= 1 && target[0] == '/'
    requires AllSafe(target)
    ensures UrlPath(target) == PathAfterScheme("", target)
  {
    RemoveUnsafeKeepsSafe(target);
    assert LStripControls(target) == target;
    assert !IsAsciiLetter(target[0]);
    assert SplitScheme(target) == ("", target);
  }

  /** `target` starts with exactly one slash. */
  predicate OneLeadingSlash(target: string)
  {
    |target| >= 1 && target[0] == '/' && (|target| == 1 || target[1] != '/')
  }

  /** A target in origin form: one leading slash, no tab, CR, LF or `;`. */
  predicate IsOriginForm(target: string)
  {
    && OneLeadingSlash(target)
    && '\t' !in target && '\r' !in target && '\n' !in target && ';' !in target
  }

  /** A target that starts with exactly one slash never makes `urlparse` raise, brackets or not. */
  lemma OneSlashNeverAborts(target: string)
    requires OneLeadingSlash(target)
    requires AllSafe(target)
    ensures UrlPath(target).Some?
  {
    SlashLed(target);
    NoAuthority(target);
  }

  /** A target with exactly one leading slash does not start with `//`. */
  lemma NoAuthority(target: string)
    requires OneLeadingSlash(target)
    ensures !(|target| >= 2 && target[..2] == "//")
  {
    if |target| >= 2 { assert target[..2][1] == target[1]; }
  }

  /** A character missing from `s` is missing from each prefix of `s`. */
  lemma NotInPrefix(s: string, n: nat, c: char)
    requires n <= |s| && c !in s
    ensures c !in s[..n]
  {
    assert forall i :: 0 <= i < n ==> s[..n][i] == s[i];
  }

  /**
    A target in origin form keeps everything before its first `?` or `#`,
    byte for byte.
   */
  lemma OriginFormTruncates(target: string)
    requires IsOriginForm(target)
    ensures UrlPath(target) == Some(target[..FindAny(target, {'?', '#'})])
  {
    assert AllSafe(target);
    SlashLed(target);
    NoAuthority(target);
    NotInPrefix(target, |DropQueryAndFragment(target)|, ';');
    NoAuthorityNoParams(target);
  }

  /** Without an authority and without `;`, the path is what precedes the query and the fragment. */
  lemma NoAuthorityNoParams(rest: string)
    requires !(|rest| >= 2 && rest[..2] == "//")
    requires ';' !in DropQueryAndFragment(rest)
    ensures PathAfterScheme("", rest) == Some(DropQueryAndFragment(rest))
  {
  }

  /** A plain origin-form path, without query or fragment, is its own URL path. */
  lemma PlainPathUnchanged(target: string)
    requires IsOriginForm(target)
    requires '?' !in target && '#' !in target
    ensures UrlPath(target) == Some(target)
  {
    OriginFormTruncates(target);
    NothingToDrop(target);
  }

  /** A string without `?` or `#` is kept whole up to its first `?` or `#`. */
  lemma NothingToDrop(s: string)
    requires '?' !in s && '#' !in s
    ensures s[..FindAny(s, {'?', '#'})] == s
  {
    assert FindAny(s, {'?', '#'}) == |s|;
    assert s[..|s|] == s;
  }

  /**
    The `;` parameters of the last segment are dropped: `/file;type=a` asks
    for `/file`, and `/x/..;` for `/x/..`.
   */
  lemma ParamsDropped(path: string, params: string)
    requires IsOriginForm(path) && '?' !in path && '#' !in path
    requires '/' !in params && '?' !in params && '#' !in params
    requires '\t' !in params && '\r' !in params && '\n' !in params
    ensures UrlPath(path + ";" + params) == Some(path)
  {
    var t := path + ";" + params;
    ParamsTargetPlain(path, params);
    SlashLed(t);
    NoAuthority(t);
    assert DropQueryAndFragment(t) == t;
    CutAtParams(path, params);
  }

  /** `path;params` is safe, starts with one slash and has no query or fragment. */
  lemma ParamsTargetPlain(path: string, params: string)
    requires IsOriginForm(path) && '?' !in path && '#' !in path
    requires '/' !in params && '?' !in params && '#' !in params
    requires '\t' !in params && '\r' !in params && '\n' !in params
    ensures var t := path + ";" + params;
      && OneLeadingSlash(t) && AllSafe(t)
      && FindAny(t, {'?', '#'}) == |t|
  {
    var t := path + ";" + params;
    assert forall i :: 0 <= i < |t| ==> t[i] in path || t[i] == ';' || t[i] in params by {
      forall i | 0 <= i < |t| ensures t[i] in path || t[i] == ';' || t[i] in params {
        if i < |path| { assert t[i] == path[i]; }
        else if i > |path| { assert t[i] == params[i - |path| - 1]; }
      }
    }
    assert t + "" == t;
    FindAnyAfter(t, "", {'?', '#'});
  }

  /** Where `_splitparams` cuts `path;params`: at the `;` before the slash-free `params`. */
  lemma CutAtParams(path: string, params: string)
    requires ';' !in path && '/' !in params
    ensures StripParams(path + ";" + params) == path
  {
    var t := path + ";" + params;
    assert forall k :: 0 <= k < |path| ==> t[k] == path[k];
    assert forall k :: |path| < k < |t| ==> t[k] == params[k - |path| - 1];
    assert t[|path|] == ';';
    if '/' in t {
      var j := FindLast(t, '/');
      assert j < |path|;
      assert t[j..][|path| - j] == ';';
      assert forall m :: 0 <= m < |path| - j ==> t[j..][m] == path[j + m];
      assert Find(t[j..], ';') == |path| - j;
      assert t[..j + (|path| - j)] == path;
    } else {
      assert Find(t, ';') == |path|;
      assert t[..|path|] == path;
    }
  }

  /** The first delimiter in `a + b` is the one that starts `b`, when `a` holds none. */
  lemma {:induction false} FindAnyAfter(a: string, b: string, cs: set<char>)
    requires forall i :: 0 <= i < |a| ==> a[i] !in cs
    requires b == "" || b[0] in cs
    ensures FindAny(a + b, cs) == |a|
  {
    if a != [] {
      assert (a + b)[1..] == a[1..] + b;
      FindAnyAfter(a[1..], b, cs);
    }
  }

  predicate AllSafe(s: string)
  {
    forall i :: 0 <= i < |s| ==> !IsUnsafe(s[i])
  }

  lemma SafeAppend(a: string, b: string)
    requires AllSafe(a) && AllSafe(b)
    ensures AllSafe(a + b)
  {
    forall i | 0 <= i < |a + b| ensures !IsUnsafe((a + b)[i]) {
      if i >= |a| { assert (a + b)[i] == b[i - |a|]; }
    }
  }

  /**
    After `//`, the authority runs to the next `/`, `?` or `#`, and an
    authority without brackets is accepted, whatever the scheme.
   */
  lemma AuthorityPath(scheme: string, host: string, rest: string)
    requires forall i :: 0 <= i < |host| ==> host[i] !in {'/', '?', '#', '[', ']'}
    requires rest == "" || rest[0] == '/'
    requires ';' !in rest
    ensures PathAfterScheme(scheme, "//" + host + rest) == Some(rest[..FindAny(rest, {'?', '#'})])
  {
    var t := "//" + host + rest;
    NetlocOf(host, rest);
    var path := DropQueryAndFragment(rest);
    assert ';' !in path by {
      assert forall i :: 0 <= i < |path| ==> path[i] == rest[i];
    }
  }

  /** After `//`, the authority is the host and the rest starts with its first `/`. */
  lemma NetlocOf(host: string, rest: string)
    requires forall i :: 0 <= i < |host| ==> host[i] !in {'/', '?', '#'}
    requires rest == "" || rest[0] == '/'
    ensures var t := "//" + host + rest; t[..2] == "//" && SplitNetloc(t) == (host, rest)
  {
    var t := "//" + host + rest;
    assert t[..2] == "//";
    assert t[2..] == host + rest;
    FindAnyAfter(host, rest, {'/', '?', '#'});
  }

  /**
    A host `urlparse` accepts without a check the model leaves out: ASCII,
    without brackets, and without the characters that end an authority or
    are removed from the target.
   */
  predicate PlainHost(host: string)
  {
    forall i :: 0 <= i < |host| ==>
      host[i] as int < 128 && host[i] !in {'/', '?', '#', '[', ']', '\t', '\r', '\n'}
  }

  /**
    A target that starts with `//` loses its first segment: `urlparse` reads it
    as an authority (a host name), and the path is what follows it.
   */
  lemma AuthorityDropped(host: string, rest: string)
    requires PlainHost(host)
    requires rest == "" || rest[0] == '/'
    requires forall i :: 0 <= i < |rest| ==> rest[i] !in {'\t', '\r', '\n', ';'}
    ensures UrlPath("//" + host + rest) == Some(rest[..FindAny(rest, {'?', '#'})])
  {
    AuthoritySafe(host, rest);
    SlashLed("//" + host + rest);
    AuthorityPath("", host, rest);
  }

  /** `//host/rest` has no tab, CR or LF when `host` and `rest` have none. */
  lemma AuthoritySafe(host: string, rest: string)
    requires AllSafe(host) && AllSafe(rest)
    ensures AllSafe("//" + host + rest)
  {
    assert AllSafe("//");
    SafeAppend("//", host);
    SafeAppend("//" + host, rest);
  }

  /**
    For a target `//host/rest` whose ASCII host does not hold both brackets,
    `urlparse` raises exactly when the host holds one of them.
   */
  lemma UnbalancedAborts(host: string, rest: string)
    requires forall i :: 0 <= i < |host| ==> host[i] as int < 128 && host[i] !in {'/', '?', '#', '\t', '\r', '\n'}
    requires !('[' in host && ']' in host)
    requires rest == "" || rest[0] == '/'
    requires AllSafe(rest)
    ensures UrlPath("//" + host + rest).None? <==> ('[' in host) != (']' in host)
  {
    assert AllSafe(host);
    AuthoritySafe(host, rest);
    SlashLed("//" + host + rest);
    NetlocOf(host, rest);
  }

  /** `//` has an empty authority and an empty path. */
  lemma DoubleSlashIsEmpty()
    ensures UrlPath("//") == Some("")
  {
    var t: string := "//";
    assert t == "//" + "" + "";
    AuthorityDropped("", "");
  }

  /** A scheme is split off at its colon and lower-cased. */
  lemma SchemeSplit(scheme: string, after: string)
    requires |scheme| >= 1 && IsAsciiLetter(scheme[0])
    requires forall i :: 0 <= i < |scheme| ==> IsSchemeChar(scheme[i])
    ensures SplitScheme(scheme + ":" + after) == (AsciiLower(scheme), after)
  {
    SchemeColon(scheme, after);
  }

  /** In `scheme:after` the first colon is the one after `scheme`. */
  lemma SchemeColon(scheme: string, after: string)
    requires |scheme| >= 1 && IsAsciiLetter(scheme[0])
    requires forall i :: 0 <= i < |scheme| ==> IsSchemeChar(scheme[i])
    ensures var url := scheme + ":" + after;
      && Find(url, ':') == |scheme| && IsAsciiLetter(url[0])
      && (forall j :: 0 <= j < |scheme| ==> IsSchemeChar(url[j]))
      && url[..|scheme|] == scheme && url[|scheme| + 1..] == after
  {
    var url := scheme + ":" + after;
    assert url == scheme + (":" + after);
    FindAnyAfter(scheme, ":" + after, {':'});
    assert forall j :: 0 <= j < |scheme| ==> url[j] == scheme[j];
    assert url[..|scheme|] == scheme;
    assert url[|scheme| + 1..] == after;
  }

  /**
    A target in absolute form, `scheme://host/rest`, has the path `/rest` cut
    at its first `?` or `#`: the scheme and the host do not reach the file
    lookup.
   */
  lemma AbsoluteFormPath(scheme: string, host: string, rest: string)
    requires |scheme| >= 1 && IsAsciiLetter(scheme[0])
    requires forall i :: 0 <= i < |scheme| ==> IsSchemeChar(scheme[i])
    requires PlainHost(host)
    requires rest == "" || rest[0] == '/'
    requires forall i :: 0 <= i < |rest| ==> rest[i] !in {'\t', '\r', '\n', ';'}
    ensures UrlPath(scheme + "://" + host + rest) == Some(rest[..FindAny(rest, {'?', '#'})])
  {
    AbsoluteSplit(scheme, host, rest);
    AuthorityPath(AsciiLower(scheme), host, rest);
  }

  /** In absolute form nothing is stripped or removed, and the scheme is split off at its colon. */
  lemma AbsoluteSplit(scheme: string, host: string, rest: string)
    requires |scheme| >= 1 && IsAsciiLetter(scheme[0])
    requires forall i :: 0 <= i < |scheme| ==> IsSchemeChar(scheme[i])
    requires PlainHost(host)
    requires forall i :: 0 <= i < |rest| ==> rest[i] !in {'\t', '\r', '\n'}
    ensures var t := scheme + "://" + host + rest;
      SplitScheme(RemoveUnsafe(LStripControls(t))) == (AsciiLower(scheme), "//" + host + rest)
  {
    var t := scheme + "://" + host + rest;
    AbsoluteSafe(scheme, host, rest);
    NoLeadingControl(t);
    RemoveUnsafeKeepsSafe(t);
    SchemeSplit(scheme, "//" + host + rest);
  }

  /** `scheme://host/rest` is `scheme`, a colon and `//host/rest`, without tab, CR or LF. */
  lemma AbsoluteSafe(scheme: string, host: string, rest: string)
    requires forall i :: 0 <= i < |scheme| ==> IsSchemeChar(scheme[i])
    requires PlainHost(host)
    requires forall i :: 0 <= i < |rest| ==> rest[i] !in {'\t', '\r', '\n'}
    ensures var t := scheme + "://" + host + rest;
      t == scheme + ":" + ("//" + host + rest) && AllSafe(t)
  {
    var after := "//" + host + rest;
    assert AllSafe(":") && AllSafe(host) && AllSafe(rest) && AllSafe(scheme);
    AuthoritySafe(host, rest);
    SafeAppend(":", after);
    SafeAppend(scheme, ":" + after);
    assert scheme + (":" + after) == scheme + ":" + after;
    assert scheme + "://" + host + rest == scheme + ":" + after;
  }

  /** A string that does not start with a control character or a space loses nothing to `lstrip`. */
  lemma NoLeadingControl(s: string)
    requires |s| >= 1 && s[0] > ' '
    ensures LStripControls(s) == s
  {
  }
}
