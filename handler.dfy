/**
  The request handler of the static file server: `do_GET` resolves the URL path
  under the served directory, refuses what normalises outside it as a string,
  refuses what is not a regular file and serves the rest; `do_POST` echoes the
  path and the body in a fixed HTML page.  The served directory, the file
  system and the MIME table are parameters; replies are values.
 */
module Handler {
  import opened Optional
  import opened PosixPath
  import opened Url
  import opened Decimal

  newtype byte = b: int | 0 <= b < 256

  /** What the file system holds at a path. */
  datatype Node =
    | Regular(data: seq<byte>)               // a regular file that can be read
    | Unreadable(size: nat, reason: string)  // a regular file whose `open` fails, with the error text
    | Directory
    | Special                                // a device, FIFO or socket

  type FileSystem = map<string, Node>

  /** `mimetypes.guess_type(path)[0]`. */
  type MimeTable = string -> Option<string>

  const IndexPath := "/index.html"
  const FallbackType := "application/octet-stream"

  /** The shape `os.getcwd()` has: a normal absolute path with one leading slash. */
  predicate IsRootDir(root: string)
  {
    IsNormalAbsolute(root) && InitialSlashes(root) == 1
  }

  /** `s.startswith(prefix)`: the first `|prefix|` characters of `s` are `prefix`. */
  predicate StartsWith(s: string, prefix: string)
  {
    |prefix| <= |s| && s[..|prefix|] == prefix
  }

  /** A string starts with `prefix` exactly when it is `prefix` followed by something. */
  lemma StartsWithMeans(s: string, prefix: string)
    ensures StartsWith(s, prefix) <==> exists t :: s == prefix + t
  {
    if StartsWith(s, prefix) {
      assert s == prefix + s[|prefix|..];
    }
    if exists t :: s == prefix + t {
      var t :| s == prefix + t;
      assert s[..|prefix|] == prefix;
    }
  }

  /** `os.path.exists(p) and os.path.isfile(p)`: something is there, and it is neither a directory nor a special file. */
  predicate IsFile(fs: FileSystem, p: string)
    ensures IsFile(fs, p) <==> p in fs && !fs[p].Directory? && !fs[p].Special?
  {
    p in fs && (fs[p].Regular? || fs[p].Unreadable?)
  }

  /** Only the path `/` itself stands for the index document. */
  function WithIndex(path: string): (p: string)
    ensures path == "/" ==> p == IndexPath
    ensures path != "/" ==> p == path
  {
    if path == "/" then IndexPath else path
  }

  /**
    The path `do_GET` checks: leading slashes stripped, joined onto the root,
    normalised.  Under an absolute root it is a normal absolute path: no empty,
    `.` or `..` segment survives.
   */
  function Candidate(root: string, path: string): (c: string)
    ensures |root| > 0 && root[0] == '/' ==> IsNormalAbsolute(c)
  {
    var joined := JoinPath(root, LStripSlash(path));
    JoinPathKeepsBoth(root, LStripSlash(path));
    assert |root| > 0 && root[0] == '/' ==> joined[0] == '/';
    NormPath(joined)
  }

  /** The table's type for the path, or `application/octet-stream` when it has none. */
  function ContentType(mime: MimeTable, p: string): (ct: string)
    ensures mime(p).Some? ==> ct == mime(p).value
    ensures mime(p).None? ==> ct == FallbackType
  {
    match mime(p)
    case Some(t) => t
    case None => FallbackType
  }

  /** How a GET request ends. */
  datatype Outcome =
    | Aborted                                   // `urlparse` raised before the `try`
    | Forbidden
    | NotFound
    | Served(path: string, contentType: string, data: seq<byte>)
    | ServerError(path: string, contentType: string, size: nat, reason: string)

  /**
    The decisions of `do_GET` once `urlparse` has given `path`.  The
    containment test comes first: a candidate outside the root (as a string)
    is `Forbidden` whatever the file system holds.
   */
  function ResolvePath(root: string, fs: FileSystem, mime: MimeTable, path: string): (r: Outcome)
    ensures !r.Aborted?
    ensures var c := Candidate(root, WithIndex(path));
      && (r.Forbidden? <==> !StartsWith(c, root))
      && (r.NotFound? <==> StartsWith(c, root) && !IsFile(fs, c))
      && (r.Served? <==> StartsWith(c, root) && c in fs && fs[c].Regular?)
      && (r.Served? ==> r == Served(c, ContentType(mime, c), fs[c].data))
      && (r.ServerError? <==> StartsWith(c, root) && c in fs && fs[c].Unreadable?)
      && (r.ServerError? ==> r == ServerError(c, ContentType(mime, c), fs[c].size, fs[c].reason))
  {
    var c := Candidate(root, WithIndex(path));
    if !StartsWith(c, root) then Forbidden
    else if !IsFile(fs, c) then NotFound
    else
      match fs[c]
      case Regular(data) => Served(c, ContentType(mime, c), data)
      case Unreadable(size, reason) => ServerError(c, ContentType(mime, c), size, reason)
  }

  /** `do_GET` on a request target: aborted exactly when `urlparse` raises, otherwise decided on its path. */
  function Resolve(root: string, fs: FileSystem, mime: MimeTable, target: string): (r: Outcome)
    ensures r.Aborted? <==> UrlPath(target).None?
    ensures UrlPath(target).Some? ==> r == ResolvePath(root, fs, mime, UrlPath(target).value)
  {
    match UrlPath(target)
    case None => Aborted
    case Some(path) => ResolvePath(root, fs, mime, path)
  }

  type Header = (string, string)

  datatype Body = Bytes(bytes: seq<byte>) | Text(text: string)

  /** One status line with its headers and body, as written on the connection. */
  datatype Reply =
    | ErrorPage(code: nat, message: string)  // `send_error`: the library writes its own headers and page
    | Page(code: nat, headers: seq<Header>, body: Body)

  /** The two headers of a file reply; the length is decimal digits that read back as the size. */
  function FileHeaders(contentType: string, size: nat): (h: seq<Header>)
    ensures |h| == 2 && h[0] == ("Content-type", contentType) && h[1].0 == "Content-Length"
    ensures forall i :: 0 <= i < |h[1].1| ==> '0' <= h[1].1[i] <= '9'
    ensures ParseDecimal(h[1].1) == size
  {
    ParseNatToString(size);
    [("Content-type", contentType), ("Content-Length", NatToString(size))]
  }

  /**
    What `do_GET` writes.  An unreadable file fails at `open`, after the 200
    status line and headers went out, so the 500 page follows them.
   */
  function RepliesAsWritten(o: Outcome): (rs: seq<Reply>)
    ensures rs == [] <==> o.Aborted?
    ensures o.Forbidden? ==> |rs| == 1 && Code(rs[0]) == 403
    ensures o.NotFound? ==> |rs| == 1 && Code(rs[0]) == 404
    ensures o.Served? ==> rs == [Page(200, FileHeaders(o.contentType, |o.data|), Bytes(o.data))]
    ensures o.ServerError? ==> |rs| == 2 && rs[0].Page? && Code(rs[0]) == 200 && Code(rs[1]) == 500
    ensures o.ServerError? ==> rs[0].headers == FileHeaders(o.contentType, o.size)
  {
    match o
    case Aborted => []
    case Forbidden => [ErrorPage(403, "Forbidden: Access denied.")]
    case NotFound => [ErrorPage(404, "File not found")]
    case Served(_, ct, data) => [Page(200, FileHeaders(ct, |data|), Bytes(data))]
    case ServerError(_, ct, size, reason) =>
      [Page(200, FileHeaders(ct, size), Bytes([])), ErrorPage(500, "Internal Server Error: " + reason)]
  }

  /** The replies with the file read before any status line goes out: one status line per request. */
  function Replies(o: Outcome): (rs: seq<Reply>)
    ensures rs == [] <==> o.Aborted?
    ensures !o.Aborted? ==> |rs| == 1
    ensures o.ServerError? ==> rs == [ErrorPage(500, "Internal Server Error: " + o.reason)]
    ensures !o.ServerError? ==> rs == RepliesAsWritten(o)
  {
    match o
    case ServerError(_, _, _, reason) => [ErrorPage(500, "Internal Server Error: " + reason)]
    case _ => RepliesAsWritten(o)
  }

  function Code(r: Reply): nat
  {
    match r
    case ErrorPage(code, _) => code
    case Page(code, _, _) => code
  }

  /** `do_GET` from request target to replies, in the order the handler writes them. */
  function DoGetAsWritten(root: string, fs: FileSystem, mime: MimeTable, target: string): (rs: seq<Reply>)
    ensures rs == [] <==> UrlPath(target).None?
    ensures |rs| <= 2
    ensures rs != [] ==> Code(rs[0]) in {200, 403, 404}
    ensures (rs != [] && Code(rs[0]) == 403) <==> Resolve(root, fs, mime, target).Forbidden?
    ensures (rs != [] && Code(rs[0]) == 404) <==> Resolve(root, fs, mime, target).NotFound?
    ensures |rs| == 2 <==> Resolve(root, fs, mime, target).ServerError?
  {
    RepliesAsWritten(Resolve(root, fs, mime, target))
  }

  /** `do_GET` with the file read before the headers are sent: exactly one status per request. */
  function DoGet(root: string, fs: FileSystem, mime: MimeTable, target: string): (rs: seq<Reply>)
    ensures rs == [] <==> UrlPath(target).None?
    ensures rs != [] ==> |rs| == 1 && Code(rs[0]) in {200, 403, 404, 500}
    ensures (rs != [] && Code(rs[0]) == 200) <==> Resolve(root, fs, mime, target).Served?
    ensures (rs != [] && Code(rs[0]) == 403) <==> Resolve(root, fs, mime, target).Forbidden?
    ensures (rs != [] && Code(rs[0]) == 404) <==> Resolve(root, fs, mime, target).NotFound?
    ensures (rs != [] && Code(rs[0]) == 500) <==> Resolve(root, fs, mime, target).ServerError?
  {
    Replies(Resolve(root, fs, mime, target))
  }

  /** The two differ only where the file cannot be opened. */
  lemma AsWrittenAgrees(root: string, fs: FileSystem, mime: MimeTable, target: string)
    ensures !Resolve(root, fs, mime, target).ServerError? ==>
      DoGetAsWritten(root, fs, mime, target) == DoGet(root, fs, mime, target)
  {
  }

  /**
    As written, a regular file inside the root that cannot be opened gets a 200
    status line and headers announcing its size, then a separate 500 page.
   */
  lemma UnreadableGetsTwoStatusLines(root: string, fs: FileSystem, mime: MimeTable, target: string)
    requires UrlPath(target).Some?
    requires var c := Candidate(root, WithIndex(UrlPath(target).value));
      StartsWith(c, root) && c in fs && fs[c].Unreadable?
    ensures var rs := DoGetAsWritten(root, fs, mime, target);
      var c := Candidate(root, WithIndex(UrlPath(target).value));
      && |rs| == 2 && rs[0].Page? && Code(rs[0]) == 200
      && rs[0].headers[1] == ("Content-Length", NatToString(fs[c].size))
      && rs[1] == ErrorPage(500, "Internal Server Error: " + fs[c].reason)
  {
    var path := UrlPath(target).value;
    var c := Candidate(root, WithIndex(path));
    var o := ResolvePath(root, fs, mime, path);
    assert o == ServerError(c, ContentType(mime, c), fs[c].size, fs[c].reason);
    assert Resolve(root, fs, mime, target) == o;
    assert DoGetAsWritten(root, fs, mime, target) == RepliesAsWritten(o);
    UnreadableWrites(c, ContentType(mime, c), fs[c].size, fs[c].reason);
  }

  /** The replies written for a file that cannot be opened, field by field. */
  lemma UnreadableWrites(c: string, contentType: string, size: nat, reason: string)
    ensures var rs := RepliesAsWritten(ServerError(c, contentType, size, reason));
      && |rs| == 2 && rs[0].Page? && Code(rs[0]) == 200
      && rs[0].headers[1] == ("Content-Length", NatToString(size))
      && rs[1] == ErrorPage(500, "Internal Server Error: " + reason)
  {
  }

  // ---------------------------------------------------------------------
  // The traversal guard and what the normalised candidate looks like
  // ---------------------------------------------------------------------

  /** The names below `/` that make up the root. */
  function RootNames(root: string): (names: seq<string>)
    requires IsRootDir(root)
    ensures AllNames(names)
    ensures root == "/" + Join(names)
    ensures root == "/" <==> names == []
  {
    assert root[..1] == "/";
    if root[1..] == "" then
      assert root == "/";
      []
    else
      SplitJoin(root[1..]);
      Split(root[1..])
  }

  /**
    Before normalisation the candidate is the root, one slash and the stripped
    path: the request can never replace the root by an absolute path of its own.
   */
  lemma JoinedUnderRoot(root: string, path: string)
    requires root != ""
    ensures var rest := LStripSlash(path);
      && (rest == "" || rest[0] != '/')
      && JoinPath(root, rest) == (if root[|root| - 1] == '/' then root else root + "/") + rest
  {
  }

  /** `normpath` of a path with exactly one leading slash. */
  lemma NormPathOneSlash(pre: string)
    requires InitialSlashes(pre) == 1
    ensures NormPath(pre) == "/" + Join(Collapse([], Split(pre), true))
  {
  }

  /** Splitting after a leading slash gives an empty first piece. */
  lemma SplitAfterSlash(x: string)
    ensures Split("/" + x) == [""] + Split(x)
  {
    assert ("/" + x)[1..] == x;
  }

  /** The pieces of `/`, some names, `/` and a rest. */
  lemma NamesThenRest(names: seq<string>, rest: string)
    requires |names| >= 1 && AllNames(names)
    ensures Split("/" + Join(names) + "/" + rest) == [""] + names + Split(rest)
  {
    var t := Join(names);
    assert "/" + t + "/" + rest == "/" + (t + "/" + rest);
    SplitAfterSlash(t + "/" + rest);
    SplitAppend(t, rest);
    JoinSplit(names);
    assert [""] + (names + Split(rest)) == [""] + names + Split(rest);
  }

  /** A slash followed by a name has exactly one leading slash. */
  lemma OneSlashBeforeNames(names: seq<string>, tail: string)
    requires |names| >= 1 && AllNames(names)
    ensures InitialSlashes("/" + Join(names) + tail) == 1
  {
    JoinNamesHead(names);
    var t := Join(names);
    assert ("/" + t + tail)[1] == t[0];
  }

  /** The root's last character is not a slash, so `posixpath.join` puts one between root and rest. */
  lemma JoinBelowRoot(root: string, rest: string)
    requires IsRootDir(root) && root != "/"
    requires rest == "" || rest[0] != '/'
    ensures JoinPath(root, rest) == "/" + Join(RootNames(root)) + "/" + rest
  {
    var names := RootNames(root);
    var t := Join(names);
    JoinNamesLast(names);
    assert root[|root| - 1] == t[|t| - 1];
  }

  /** `JoinedPieces` for the root `/`. */
  lemma JoinedAtTop(root: string, rest: string)
    requires IsRootDir(root) && root == "/"
    requires rest == "" || rest[0] != '/'
    ensures InitialSlashes(JoinPath(root, rest)) == 1
    ensures Split(JoinPath(root, rest)) == [""] + RootNames(root) + Split(rest)
  {
    assert JoinPath(root, rest) == "/" + rest;
    SplitAfterSlash(rest);
    assert RootNames(root) == [];
    assert [""] + [] + Split(rest) == [""] + Split(rest);
  }

  /** `JoinedPieces` for a root below `/`. */
  lemma JoinedBelowTop(root: string, rest: string)
    requires IsRootDir(root) && root != "/"
    requires rest == "" || rest[0] != '/'
    ensures InitialSlashes(JoinPath(root, rest)) == 1
    ensures Split(JoinPath(root, rest)) == [""] + RootNames(root) + Split(rest)
  {
    var names := RootNames(root);
    JoinBelowRoot(root, rest);
    NamesThenRest(names, rest);
    assert "/" + Join(names) + "/" + rest == "/" + Join(names) + ("/" + rest);
    OneSlashBeforeNames(names, "/" + rest);
  }

  /** Before normalisation, the candidate splits into an empty piece, the root's names and the path's pieces. */
  lemma JoinedPieces(root: string, rest: string)
    requires IsRootDir(root)
    requires rest == "" || rest[0] != '/'
    ensures InitialSlashes(JoinPath(root, rest)) == 1
    ensures Split(JoinPath(root, rest)) == [""] + RootNames(root) + Split(rest)
  {
    if root == "/" {
      JoinedAtTop(root, rest);
    } else {
      JoinedBelowTop(root, rest);
    }
  }

  /** The candidate is the `normpath` loop run over the stripped path, starting from the root's names. */
  lemma CandidateForm(root: string, path: string)
    requires IsRootDir(root)
    ensures Candidate(root, path) == "/" + Join(Collapse(RootNames(root), Split(LStripSlash(path)), true))
  {
    var rest := LStripSlash(path);
    var names := RootNames(root);
    var comps := Split(rest);
    JoinedPieces(root, rest);
    NormPathOneSlash(JoinPath(root, rest));
    CollapseAppend([], [""] + names, comps, true);
    CollapseAppend([], [""], names, true);
    CollapseNames([], names, true);
    assert [] + names == names;
  }

  /** `'/'.join` of names ends in a character that is not a slash. */
  lemma {:induction false} JoinNamesLast(names: seq<string>)
    requires |names| >= 1 && AllNames(names)
    ensures |Join(names)| >= 1 && Join(names)[|Join(names)| - 1] != '/'
  {
    if |names| > 1 {
      JoinNamesLast(names[1..]);
    }
  }

  /** A path extending the root's names extends the root as a string. */
  lemma JoinExtends(names: seq<string>, kept: seq<string>)
    requires |names| <= |kept| && kept[..|names|] == names
    ensures StartsWith("/" + Join(kept), "/" + Join(names))
  {
    var extra := kept[|names|..];
    assert kept == names + extra;
    if names != [] && extra != [] {
      JoinAppend(names, extra);
    } else if extra == [] {
      assert kept == names;
    }
  }

  /** A path made of fewer of the root's names is shorter than the root, so not below it. */
  lemma FewerNamesNotPrefix(names: seq<string>, m: nat)
    requires AllNames(names) && m < |names|
    ensures !StartsWith("/" + Join(names[..m]), "/" + Join(names))
  {
    JoinPrefixShorter(names, m);
  }

  /**
    A path with no `..` segment never leaves the root: its candidate has the
    root as a prefix, so it is never refused with 403.
   */
  lemma NoParentStaysInside(root: string, path: string)
    requires IsRootDir(root)
    requires forall i :: 0 <= i < |Split(LStripSlash(path))| ==> Split(LStripSlash(path))[i] != ".."
    ensures StartsWith(Candidate(root, path), root)
  {
    var names := RootNames(root);
    var comps := Split(LStripSlash(path));
    CandidateForm(root, path);
    CollapseNoParent(names, comps, true);
    JoinExtends(names, Collapse(names, comps, true));
  }

  /** Going down into `down` and then up by more `..` than that ends strictly above the root. */
  lemma ClimbLeavesRoot(root: string, path: string, down: seq<string>, up: seq<string>)
    requires IsRootDir(root) && root != "/"
    requires Split(LStripSlash(path)) == down + up
    requires AllNames(down) && AllDots(up) && ParentCount(up) > |down|
    ensures !StartsWith(Candidate(root, path), root)
  {
    var names := RootNames(root);
    CandidateForm(root, path);
    ClimbNames(names, down, up);
  }

  /** `ClimbLeavesRoot` on the `normpath` loop, from the root's names. */
  lemma ClimbNames(names: seq<string>, down: seq<string>, up: seq<string>)
    requires |names| >= 1 && AllNames(names)
    requires AllNames(down) && AllDots(up) && ParentCount(up) > |down|
    ensures !StartsWith("/" + Join(Collapse(names, down + up, true)), "/" + Join(names))
  {
    CollapseAppend(names, down, up, true);
    CollapseNames(names, down, true);
    assert AllNames(names + down);
    CollapseDots(names + down, up);
    var m := |names + down| - Min(|names + down|, ParentCount(up));
    assert (names + down)[..m] == names[..m];
    FewerNamesNotPrefix(names, m);
  }

  /**
    A GET that goes down into some names and then up by more `..` than that is
    refused with 403, unless the root is `/`.
   */
  lemma ClimbAboveRootForbidden(root: string, fs: FileSystem, mime: MimeTable, target: string,
                                down: seq<string>, up: seq<string>)
    requires IsRootDir(root) && root != "/"
    requires UrlPath(target).Some?
    requires Split(LStripSlash(UrlPath(target).value)) == down + up
    requires AllNames(down) && AllDots(up) && ParentCount(up) > |down|
    ensures Resolve(root, fs, mime, target) == Forbidden
  {
    var path := UrlPath(target).value;
    ClimbIsNotSlash(path, down, up);
    ClimbLeavesRoot(root, path, down, up);
    assert WithIndex(path) == path;
    assert ResolvePath(root, fs, mime, path) == Forbidden;
  }

  /** A path that climbs is not `/`, so it is not replaced by the index document. */
  lemma ClimbIsNotSlash(path: string, down: seq<string>, up: seq<string>)
    requires Split(LStripSlash(path)) == down + up
    requires AllNames(down) && AllDots(up) && ParentCount(up) > |down|
    ensures path != "/"
  {
    SlashPieces();
    ClimbPieces(down, up);
  }

  /** `/` strips to nothing, a single empty piece. */
  lemma SlashPieces()
    ensures Split(LStripSlash("/")) == [""]
  {
    assert LStripSlash("/") == "";
    assert Split("") == [""];
  }

  /** Names followed by more `..` than names are not a single empty piece. */
  lemma ClimbPieces(down: seq<string>, up: seq<string>)
    requires AllNames(down) && AllDots(up) && ParentCount(up) > |down|
    ensures down + up != [""]
  {
    if down == [] {
      assert ParentCount([""]) == 0;
    } else {
      assert (down + up)[0] == down[0];
    }
  }


  /** A slash and joined names end in the last name, after the path of the others and a slash. */
  lemma LastOfJoined(names: seq<string>)
    requires |names| >= 1
    ensures var last := names[|names| - 1];
      var j := "/" + Join(names);
      && |last| < |j| && j[|j| - |last|..] == last
      && j[..|j| - |last|] == if |names| == 1 then "/" else "/" + Join(names[..|names| - 1]) + "/"
  {
    var n := |names|;
    var last := names[n - 1];
    if n == 1 {
      assert ("/" + Join(names))[..1] == "/";
    } else {
      var front := "/" + Join(names[..n - 1]) + "/";
      assert names[..n - 1] + [last] == names;
      JoinLast(names[..n - 1], last);
      assert "/" + Join(names) == front + last;
    }
  }

  /** The last name of the root, and what the root is without it. */
  function LastName(root: string): (last: string)
    requires IsRootDir(root) && root != "/"
    ensures IsName(last)
    ensures |last| < |root| && root[|root| - |last|..] == last
    ensures var names := RootNames(root);
      root[..|root| - |last|] == if |names| == 1 then "/" else "/" + Join(names[..|names| - 1]) + "/"
  {
    var names := RootNames(root);
    LastOfJoined(names);
    names[|names| - 1]
  }

  lemma StartsWithAfterCommon(x: string, a: string, b: string)
    ensures StartsWith(x + a, x + b) <==> StartsWith(a, b)
  {
    if |b| <= |a| {
      assert (x + a)[..|x + b|] == x + a[..|b|];
      if (x + a)[..|x + b|] == x + b {
        assert a[..|b|] == (x + a[..|b|])[|x|..];
      }
    }
  }

  /** One `..` on a stack of names pops the last name; names after it are pushed. */
  lemma CollapseOneUp(names: seq<string>, comps: seq<string>)
    requires |names| >= 1 && AllNames(names) && AllNames(comps)
    ensures Collapse(names, [".."] + comps, true) == names[..|names| - 1] + comps
  {
    assert Step(names, "..", true) == names[..|names| - 1];
    assert ([".."] + comps)[1..] == comps;
    CollapseNames(names[..|names| - 1], comps, true);
  }

  /** `'/'.join` of the root's names without the last one, then the names of `rest`. */
  lemma JoinBesideLast(names: seq<string>, rest: string)
    requires |names| >= 1 && AllNames(Split(rest))
    ensures "/" + Join(names[..|names| - 1] + Split(rest))
         == (if |names| == 1 then "/" else "/" + Join(names[..|names| - 1]) + "/") + rest
  {
    var comps := Split(rest);
    SplitJoin(rest);
    if |names| > 1 {
      JoinAppend(names[..|names| - 1], comps);
    } else {
      assert names[..|names| - 1] + comps == comps;
    }
  }

  /** The pieces of `../` and a rest. */
  lemma DotDotPieces(rest: string)
    ensures Split("../" + rest) == [".."] + Split(rest)
  {
    assert "../" + rest == ".." + "/" + rest;
    SplitPrefix("..", rest);
  }

  /** The `normpath` loop over `..` and names, from the root's names, as a string. */
  lemma UpOneNames(names: seq<string>, rest: string)
    requires |names| >= 1 && AllNames(names) && AllNames(Split(rest))
    ensures "/" + Join(Collapse(names, [".."] + Split(rest), true))
         == (if |names| == 1 then "/" else "/" + Join(names[..|names| - 1]) + "/") + rest
  {
    CollapseOneUp(names, Split(rest));
    JoinBesideLast(names, rest);
  }

  /** One `..` followed by names: the candidate is the root's parent followed by those names. */
  lemma OneLevelUpCandidate(root: string, path: string, rest: string)
    requires IsRootDir(root) && root != "/"
    requires LStripSlash(path) == "../" + rest
    requires AllNames(Split(rest))
    ensures Candidate(root, path) == root[..|root| - |LastName(root)|] + rest
  {
    CandidateForm(root, path);
    DotDotPieces(rest);
    assert Split(LStripSlash(path)) == [".."] + Split(rest);
    ParentThenRest(root, rest);
  }

  /** `OneLevelUpCandidate` on the `normpath` loop: from the root's names, `..` and names give the parent and the rest. */
  lemma ParentThenRest(root: string, rest: string)
    requires IsRootDir(root) && root != "/"
    requires AllNames(Split(rest))
    ensures "/" + Join(Collapse(RootNames(root), [".."] + Split(rest), true)) == root[..|root| - |LastName(root)|] + rest
  {
    var names := RootNames(root);
    var parent := root[..|root| - |LastName(root)|];
    assert parent == if |names| == 1 then "/" else "/" + Join(names[..|names| - 1]) + "/";
    UpOneNames(names, rest);
  }

  /**
    One `..` followed by names lands beside the root, and passes the guard
    exactly when it begins with the root's last name.  For root `/srv/site`,
    `/../etc/passwd` is refused while `/../site-backup/key` passes, though it is
    not inside the root.
   */
  lemma OneLevelUp(root: string, path: string, rest: string)
    requires IsRootDir(root) && root != "/"
    requires LStripSlash(path) == "../" + rest
    requires AllNames(Split(rest))
    ensures StartsWith(Candidate(root, path), root) <==> StartsWith(rest, LastName(root))
  {
    OneLevelUpCandidate(root, path, rest);
    GuardBeside(root, rest);
  }

  /** Beside the root: its parent followed by `rest` starts with the root iff `rest` starts with the root's last name. */
  lemma GuardBeside(root: string, rest: string)
    requires IsRootDir(root) && root != "/"
    ensures StartsWith(root[..|root| - |LastName(root)|] + rest, root) <==> StartsWith(rest, LastName(root))
  {
    var last := LastName(root);
    Beside(root[..|root| - |last|] + rest, root, rest, last);
  }

  /** A string that replaces the ending `last` of `root` by `rest` starts with `root` iff `rest` starts with `last`. */
  lemma Beside(c: string, root: string, rest: string, last: string)
    requires |last| <= |root| && root[|root| - |last|..] == last
    requires c == root[..|root| - |last|] + rest
    ensures StartsWith(c, root) <==> StartsWith(rest, last)
  {
    var parent := root[..|root| - |last|];
    assert root == parent + last;
    StartsWithAfterCommon(parent, rest, last);
  }

  /** A path that strips to nothing is the root directory itself. */
  lemma EmptyPathIsRoot(root: string, path: string)
    requires IsRootDir(root)
    requires LStripSlash(path) == ""
    ensures Candidate(root, path) == root
  {
    var names := RootNames(root);
    var c := Candidate(root, path);
    CandidateForm(root, path);
    assert c == "/" + Join(Collapse(names, Split(""), true));
    assert Split("") == [""];
    assert Collapse(names, [""], true) == Step(names, "", true) == names;
  }

  /**
    A GET whose URL path is empty or only slashes (other than `/` itself)
    reaches the root directory, which is not a regular file: 404.
   */
  lemma EmptyPathNotFound(root: string, fs: FileSystem, mime: MimeTable, target: string)
    requires IsRootDir(root)
    requires UrlPath(target).Some? && UrlPath(target).value != "/"
    requires LStripSlash(UrlPath(target).value) == ""
    requires !IsFile(fs, root)
    ensures Resolve(root, fs, mime, target) == NotFound
  {
    var path := UrlPath(target).value;
    EmptyPathIsRoot(root, path);
    RootNotFound(root, fs, mime, path);
  }

  /** A path whose candidate is the root itself, which is not a regular file, gets 404. */
  lemma RootNotFound(root: string, fs: FileSystem, mime: MimeTable, path: string)
    requires Candidate(root, WithIndex(path)) == root
    requires !IsFile(fs, root)
    ensures ResolvePath(root, fs, mime, path) == NotFound
  {
    assert root[..|root|] == root;
  }

  /** `GET //`: the authority is empty, so is the path, and the root directory is not served. */
  lemma DoubleSlashNotFound(root: string, fs: FileSystem, mime: MimeTable)
    requires IsRootDir(root)
    requires !IsFile(fs, root)
    ensures Resolve(root, fs, mime, "//") == NotFound
  {
    DoubleSlashIsEmpty();
    EmptyPathNotFound(root, fs, mime, "//");
  }

  /** A GET whose URL path is `/` is answered exactly like a GET of `/index.html`. */
  lemma SlashIsIndex(root: string, fs: FileSystem, mime: MimeTable, target: string)
    requires UrlPath(target) == Some("/")
    ensures Resolve(root, fs, mime, target) == Resolve(root, fs, mime, IndexPath)
    ensures DoGet(root, fs, mime, target) == DoGet(root, fs, mime, IndexPath)
  {
    IndexPathKept();
  }

  /** `urlparse` leaves `/index.html` as it is. */
  lemma IndexPathKept()
    ensures UrlPath(IndexPath) == Some(IndexPath)
  {
    PlainPathUnchanged(IndexPath);
  }

  /**
    The `;` parameters of the last segment never reach the file lookup:
    `/file;x` is answered as `/file`, and `/x/..;` as `/x/..`, which is the root.
   */
  lemma ParamsIgnored(root: string, fs: FileSystem, mime: MimeTable, path: string, params: string)
    requires IsOriginForm(path) && '?' !in path && '#' !in path
    requires '/' !in params && '?' !in params && '#' !in params
    requires '\t' !in params && '\r' !in params && '\n' !in params
    ensures DoGet(root, fs, mime, path + ";" + params) == DoGet(root, fs, mime, path)
  {
    ParamsDropped(path, params);
    PlainPathUnchanged(path);
  }

  /** Every file served comes from a normal path starting with the root string. */
  lemma ServedInsideRoot(root: string, fs: FileSystem, mime: MimeTable, target: string)
    requires |root| > 0 && root[0] == '/'
    requires Resolve(root, fs, mime, target).Served?
    ensures var r := Resolve(root, fs, mime, target);
      && StartsWith(r.path, root)
      && IsNormalAbsolute(r.path)
      && r.path in fs && fs[r.path] == Regular(r.data)
  {
  }

  /**
    A served file gets one 200 reply that carries its bytes, its type with the
    fallback, and a `Content-Length` that reads back as the number of bytes sent.
   */
  lemma ServedReply(root: string, fs: FileSystem, mime: MimeTable, target: string)
    requires Resolve(root, fs, mime, target).Served?
    ensures var r := Resolve(root, fs, mime, target);
      DoGet(root, fs, mime, target) == [Page(200, FileHeaders(ContentType(mime, r.path), |r.data|), Bytes(r.data))]
  {
    var r := Resolve(root, fs, mime, target);
    assert r.contentType == ContentType(mime, r.path);
    assert DoGet(root, fs, mime, target) == Replies(r) == RepliesAsWritten(r);
  }

  /** The file system is consulted only after the guard: outside the root, no two file systems differ. */
  lemma GuardBeforeLookup(root: string, fs1: FileSystem, fs2: FileSystem, mime1: MimeTable, mime2: MimeTable,
                          target: string)
    requires UrlPath(target).Some?
    requires !StartsWith(Candidate(root, WithIndex(UrlPath(target).value)), root)
    ensures Resolve(root, fs1, mime1, target) == Resolve(root, fs2, mime2, target) == Forbidden
  {
  }

  // ---------------------------------------------------------------------
  // POST
  // ---------------------------------------------------------------------

  const PostHead := "\n        <html>\n        <head><title>POST Response</title></head>\n        <body>\n        <h1>POST Request Received</h1>\n        <p>Path: "
  const PostMiddle := "</p>\n        <p>Data: "
  const PostTail := "</p>\n        </body>\n        </html>\n        "

  /** The echo page: the template with the raw request path and the decoded body put in as they are. */
  function PostPage(path: string, data: string): (page: string)
    ensures |page| == |PostHead| + |path| + |PostMiddle| + |data| + |PostTail|
    ensures page[..|PostHead|] == PostHead
    ensures page[|PostHead|..|PostHead| + |path|] == path
    ensures page[|PostHead| + |path|..|PostHead| + |path| + |PostMiddle|] == PostMiddle
    ensures page[|PostHead| + |path| + |PostMiddle|..|page| - |PostTail|] == data
    ensures page[|page| - |PostTail|..] == PostTail
  {
    PostHead + path + PostMiddle + data + PostTail
  }

  /** `do_POST` once the body is read and decoded: one 200 reply of type `text/html`. */
  function DoPost(path: string, data: string): (r: Reply)
    ensures r.Page? && r.code == 200 && r.headers == [("Content-type", "text/html")]
    ensures r.body.Text? && r.body.text == PostPage(path, data)
  {
    Page(200, [("Content-type", "text/html")], Text(PostPage(path, data)))
  }

  /**
    Nothing is escaped, so a path that contains the template's own text makes
    two different requests produce the same page.
   */
  lemma EchoIsAmbiguous(a: string, b: string, c: string)
    ensures PostPage(a + PostMiddle + b, c) == PostPage(a, b + PostMiddle + c)
    ensures a + PostMiddle + b != a
  {
    Regroup(PostHead, a, PostMiddle, b, c, PostTail);
    assert |PostMiddle| > 0;
  }

  /** Concatenation regrouped around the middle piece `m`. */
  lemma Regroup(h: string, a: string, m: string, b: string, c: string, t: string)
    ensures h + (a + m + b) + m + c + t == h + a + m + (b + m + c) + t
  {
  }
}
