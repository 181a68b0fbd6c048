# supersimpleserver request handler, modelled in Dafny

`supersimpleserver.py` is a static file server. It subclasses Python's
`http.server.SimpleHTTPRequestHandler` and serves the process's working
directory, and it echoes POST requests in an HTML page. This project models
the two request handlers as pure functions and proves what they do.

- **`do_GET`.** The request target goes through several steps:
  - `urllib.parse.urlparse` keeps only its path;
  - exactly `/` becomes `/index.html`;
  - leading slashes are stripped;
  - the result is joined onto the working directory and normalised with
    `os.path.normpath`.
  
  The handler then refuses a candidate with 403 unless it starts with the
  working directory as a string. It refuses one with 404 unless it is a
  regular file. Otherwise it sends 200 with `Content-type` and
  `Content-Length` headers and the file's bytes.
- **`do_POST`.** It answers 200 `text/html` with a fixed page. The page shows
  the request path and the decoded body exactly as they came, with no
  escaping.

The modules follow the program's layers:

- `PosixPath` (posixpath.dfy): the lexical path operations the handler
  calls. These are `str.split('/')`, `'/'.join`, `str.lstrip('/')`,
  `posixpath.join` and `posixpath.normpath`. The last is written as its
  component loop, a left fold over the pieces of the path.
- `Url` (url.dfy): the part of `urlparse` that decides the path. It covers:
  - stripping leading control characters and space;
  - removing tab, CR and LF;
  - the scheme;
  - the `//` authority;
  - fragment, then query;
  - the `;` parameters of the last segment, cut at the first `;` with no
    `/` after it.
  
  When the authority has an unbalanced bracket, `urlparse` raises. It does
  so on line 31, before the `try`, so no reply is written: the model's
  `None`.
- `Decimal` (decimal.dfy): `str()` of a size, for `Content-Length`, with its
  inverse, a parser.
- `Handler` (handler.dfy): `do_GET` as `Resolve`, which maps a request to an
  `Outcome`, followed by the replies written for that outcome. `do_POST`
  is `DoPost`.

**Inputs.** The working directory is the parameter `root`. The file system
is a map from path strings to nodes: regular files (readable, or not
openable), directories and special files. `mimetypes.guess_type` is an
uninterpreted function `string -> Option<string>`. Replies are values, not
bytes written to a socket.

**Assumed root shape.** The lemmas about the candidate path assume that
`root` looks like what `os.getcwd()` returns. That means one leading slash
and no empty, `.` or `..` segment (`Handler.IsRootDir`).

**Where the code and its comments differ.** The model follows the code.

- **`..` on the containment test.** The comment on line 44 says the path is
  checked to be inside the directory. Line 45 actually makes a raw string
  prefix test. With root `/srv/site`, the target `/../etc/passwd` becomes
  `/srv/etc/passwd` and is refused. But `/../site-backup/key` becomes
  `/srv/site-backup/key`, which passes the test even though it is outside
  the root (`Handler.OneLevelUp`).
- **Climbing out of the root.** One shape of climb is proved refused:
  names followed only by empty, `.` and `..` pieces, with more `..` than
  names, under a root other than `/` (`Handler.ClimbAboveRootForbidden`).
  Other climbs can pass the test: `/../site-backup/key` above is one
  (`Handler.OneLevelUp`). Under the root `/` every path passes.
- **`//` and other targets with an empty path.** As `do_GET` is written,
  these are not rewritten to `/index.html`. `urlparse` reads what follows
  `//` as a host name, so `//` has an empty path. The candidate is then the
  root directory, which gets 404 (`Handler.DoubleSlashNotFound`,
  `Handler.EmptyPathNotFound`). A `self.path` of `//host/a` asks for `/a`
  (`Url.AuthorityDropped`). These describe the argument `do_GET` receives;
  what the library does to the request line first is under "Left out".
- **Absolute form.** A target `http://host/a?q` has the path `/a`: the
  scheme and the host are dropped, and the file lookup sees only the path
  (`Url.AbsoluteFormPath`).
- **`;` parameters.** `urlparse` drops the `;` parameters of the last
  segment, so `/file;x` is answered as `/file`, and `/x/..;` as `/x/..`,
  which is the root (`Handler.ParamsIgnored`).

## Model

| member | source | states |
|---|---|---|
| Url.LStripControls | supersimpleserver.py:31 | the result is a suffix of the target, every character removed is at most U+0020, and the result does not start with such a character |
| Url.RemoveUnsafe | supersimpleserver.py:31 | the result holds no tab, CR or LF, and every character of it comes from the input |
| Url.RemoveUnsafeChar | supersimpleserver.py:31 | one character is removed when it is a tab, CR or LF and kept otherwise |
| Url.RemoveUnsafeAppend | supersimpleserver.py:31 | removal works piece by piece on a concatenation, so the characters kept stay in their order |
| Url.RemoveUnsafeKeepsSafe | supersimpleserver.py:31 | a target without tab, CR or LF is kept as it is |
| Url.SplitScheme | supersimpleserver.py:31 | there is a scheme exactly when the text before the first colon is non-empty, starts with an ASCII letter and holds only letters, digits, `+`, `-` and `.`; the scheme is that text lower-cased and the rest is what follows the colon; without a scheme the whole target is kept |
| Url.AsciiLower | supersimpleserver.py:31 | `A` to `Z` become `a` to `z`, every other character is kept, and the length is unchanged |
| Url.SchemeSplit | supersimpleserver.py:31 | `scheme:after` with a valid scheme splits into the lower-cased scheme and `after` |
| Url.SplitNetloc | supersimpleserver.py:31 | the authority after `//` holds no `/`, `?` or `#`, and the rest starts with one of them or is empty; nothing is lost |
| Url.SplitAuthority | supersimpleserver.py:31 | only a target that starts with `//` has an authority; after `//` the authority holds no `/`, `?` or `#`, the rest is empty or starts with one of them, and together they give back what followed `//`; a bracket in the authority is a bracket of the target |
| Url.DropQueryAndFragment | supersimpleserver.py:31-32 | the path is what precedes the first `?` or `#` |
| Url.StripParams | supersimpleserver.py:31-32 | the path is cut at the first `;` that has no `/` after it, and kept whole when every `;` has one; the result is a prefix of the path |
| Url.CutAtParams | supersimpleserver.py:31-32 | a path without `;`, then `;` and slash-free parameters, is cut back to that path |
| Url.PathPart | supersimpleserver.py:31-32 | the path is what precedes the first `?` or `#`, with the `;` parameters of its last segment cut off for a scheme that uses them and only then; it never holds `?` or `#` |
| Url.PathAfterScheme | supersimpleserver.py:31 | once the scheme is split off: without `//` the path is taken from all of it and nothing raises; after `//` it raises exactly when the authority holds one bracket kind without the other, and otherwise the path is taken from what follows the authority |
| Url.UrlPath | supersimpleserver.py:31-32 | the path never holds `?` or `#`; `None` (an exception) only for a target that holds `[` or `]` |
| Url.UnbalancedAborts | supersimpleserver.py:31 | for a target `//host/rest` whose ASCII host does not hold both `[` and `]`, `urlparse` raises exactly when the host holds one of them |
| Url.OneSlashNeverAborts | supersimpleserver.py:31 | a target with exactly one leading slash and no tab, CR or LF never makes `urlparse` raise, brackets or not |
| Url.AbsoluteFormPath | supersimpleserver.py:31-32 | a target `scheme://host/rest`, with an ASCII host without brackets, has the path `/rest` cut at its first `?` or `#`; the scheme and the host do not reach the file lookup |
| Url.OriginFormTruncates | supersimpleserver.py:31-32 | for a target with one leading slash and no tab, CR, LF or `;`, the path is the target up to its first `?` or `#`, with no percent-decoding |
| Url.PlainPathUnchanged | supersimpleserver.py:31-32 | such a target without `?` or `#` is its own path |
| Url.ParamsDropped | supersimpleserver.py:31-32 | such a target followed by `;` and parameters without `/`, `?`, `#`, tab, CR or LF has that target as its path |
| Url.AuthorityDropped | supersimpleserver.py:31-32 | a target `//host/rest`, with an ASCII host without brackets, has the path `/rest` cut at its first `?` or `#`; the host does not reach the file lookup |
| Url.DoubleSlashIsEmpty | supersimpleserver.py:31-32 | the target `//` has the empty path |
| Handler.WithIndex | supersimpleserver.py:35-36 | only the path `/` is replaced, by `/index.html`; every other path, `//` and the empty path included, is kept |
| Handler.IndexPathKept | supersimpleserver.py:31-36 | `urlparse` leaves `/index.html` as it is |
| Handler.SlashIsIndex | supersimpleserver.py:35-36 | a request whose path is `/` is answered exactly as a request for `/index.html` |
| PosixPath.LStripSlash | supersimpleserver.py:42 | the result is a suffix of the input, everything removed is `/`, and it does not start with `/` |
| PosixPath.Split | supersimpleserver.py:42 | `split('/')` gives at least one piece, and no piece holds a slash |
| PosixPath.Join | supersimpleserver.py:42 | `'/'.join` starts with its first part |
| PosixPath.SplitJoin | supersimpleserver.py:42 | joining the pieces of `split('/')` with `/` gives back the string |
| PosixPath.JoinSplit | supersimpleserver.py:42 | splitting the join of slash-free pieces gives back the pieces |
| PosixPath.JoinPath | supersimpleserver.py:42 | `os.path.join` with an absolute second argument returns it; otherwise the result is as long as both arguments, or one more |
| PosixPath.JoinPathKeepsBoth | supersimpleserver.py:42 | with a relative second argument the result starts with the first and ends with the second, with a slash between them exactly when the first is non-empty and does not end in a slash |
| PosixPath.InitialSlashes | supersimpleserver.py:42 | the leading slashes `normpath` keeps: at most two; two exactly when the path starts with exactly two slashes; one or more exactly when it starts with a slash |
| PosixPath.Step | supersimpleserver.py:42 | one turn of the `normpath` loop: an empty or `.` component changes nothing, a name is pushed, and only `..` removes an entry, at most the last |
| PosixPath.Collapse | supersimpleserver.py:42 | the `normpath` loop adds at most one entry per component |
| PosixPath.CollapseKeeps | supersimpleserver.py:42 | everything the loop keeps was on the stack already or is a component other than an empty one or `.` |
| PosixPath.NormPath | supersimpleserver.py:42 | `normpath` never returns the empty string and keeps the number of leading slashes of every input, relative ones included; on an absolute path no empty, `.` or `..` segment is left |
| PosixPath.NormalIsFixed | supersimpleserver.py:42 | a normal absolute path is its own `normpath` |
| PosixPath.NormPathIdempotent | supersimpleserver.py:42 | `normpath` applied twice equals `normpath` applied once, for absolute paths |
| PosixPath.CollapseDots | supersimpleserver.py:42 | on an absolute path each `..` removes one kept name, and `..` beyond the top is dropped |
| PosixPath.CollapseNoParent | supersimpleserver.py:42 | without `..` the names already kept stay in front |
| Handler.JoinedUnderRoot | supersimpleserver.py:42 | before normalisation the candidate is the root, one slash and the stripped path; it is never an absolute path taken from the request |
| Handler.Candidate | supersimpleserver.py:42 | under an absolute root the normalised candidate is a normal absolute path |
| Handler.CandidateForm | supersimpleserver.py:42 | the candidate is `/` and the `normpath` loop over the stripped path's pieces, started from the root's names |
| Handler.EmptyPathIsRoot | supersimpleserver.py:42 | a path that strips to nothing gives the root itself |
| Handler.StartsWithMeans | supersimpleserver.py:45 | `startswith` holds exactly when the string is the prefix followed by something |
| Handler.NoParentStaysInside | supersimpleserver.py:42-45 | a path without `..` pieces always passes the containment test |
| Handler.ClimbLeavesRoot | supersimpleserver.py:42-45 | names followed by empty, `.` and `..` pieces, with more `..` than names, give a candidate that fails the test, for any root other than `/` |
| Handler.ClimbAboveRootForbidden | supersimpleserver.py:42-47 | such a request gets 403 |
| Handler.OneLevelUp | supersimpleserver.py:42-45 | `/../rest` passes the test exactly when `rest` starts with the root's last name: a string-prefix test, not an ancestor test |
| Handler.GuardBeforeLookup | supersimpleserver.py:45-52 | a candidate that fails the test gets 403 whatever the file system and the MIME table hold |
| Handler.IsFile | supersimpleserver.py:50 | `exists` and `isfile` hold exactly when something is at the path and it is neither a directory nor a special file |
| Handler.ContentType | supersimpleserver.py:55-57 | the table's type when it has one, `application/octet-stream` otherwise |
| Handler.ResolvePath | supersimpleserver.py:35-57 | for the path `urlparse` gives: 403 exactly when the candidate does not start with the root; 404 exactly when it does but is not a regular file; served, with the candidate, the content type and the bytes, exactly for a readable regular file; an error, with the size and reason, exactly for a regular file that cannot be opened; never aborted |
| Handler.Resolve | supersimpleserver.py:31-57 | aborted exactly when `urlparse` raises; otherwise the decision `ResolvePath` makes for the path `urlparse` gives |
| Handler.ParamsIgnored | supersimpleserver.py:31-70 | a GET of an origin-form path followed by `;` and parameters is answered exactly like a GET of the path |
| Handler.EmptyPathNotFound | supersimpleserver.py:35-52 | a path other than `/` that strips to nothing gets 404 when the root is not a regular file |
| Handler.DoubleSlashNotFound | supersimpleserver.py:31-52 | the `self.path` `//` gets 404 |
| Handler.ServedInsideRoot | supersimpleserver.py:42-60 | every served file has the root as a string prefix, a normal path and the bytes the file system holds there |
| Decimal.NatToString | supersimpleserver.py:62 | `str()` of a size is a non-empty string of digits with no leading zero |
| Decimal.ParseNatToString | supersimpleserver.py:62 | reading those digits back gives the size |
| Handler.FileHeaders | supersimpleserver.py:61-62 | two headers: `Content-type` with the type, then `Content-Length` whose value is all digits and reads back as the size |
| Handler.RepliesAsWritten | supersimpleserver.py:46-70 | nothing when aborted; one 403 page; one 404 page; for a served file one 200 reply with the file headers for its length and its bytes; for a file that cannot be opened a 200 reply with the headers for its size, then a 500 page |
| Handler.Replies | supersimpleserver.py:46-70 | the corrected replies: nothing when aborted, otherwise exactly one; a file that cannot be opened gets only the 500 page with its reason; everything else as written |
| Handler.ServedReply | supersimpleserver.py:55-67 | a served file gets exactly one 200 reply, with the table's type or the fallback, the `Content-Length` of its bytes, and the bytes |
| Handler.DoGetAsWritten | supersimpleserver.py:28-70 | what `do_GET` writes: nothing when `urlparse` raises, otherwise at most two replies; the first is 200, 403 or 404, with 403 and 404 exactly as `Resolve` decides; two replies exactly for a file that cannot be opened |
| Handler.UnreadableGetsTwoStatusLines | supersimpleserver.py:60-70 | as written, a file that cannot be opened gets a 200 status line, headers with its size, and then a separate 500 page |
| Handler.DoGet | supersimpleserver.py:28-70 | corrected: nothing when `urlparse` raises, otherwise exactly one reply; it is 200, 403, 404 or 500 exactly when `Resolve` serves, forbids, does not find or fails |
| Handler.AsWrittenAgrees | supersimpleserver.py:60-70 | the corrected handler differs from the code only for files that cannot be opened |
| Handler.PostPage | supersimpleserver.py:86-95 | the page is the fixed head, the path, the fixed middle, the data and the fixed tail, each at its own position and unchanged, so the data can be read back given the path's length |
| Handler.DoPost | supersimpleserver.py:82-97 | one 200 reply with the single header `Content-type: text/html` and the echo page of the path and data |
| Handler.EchoIsAmbiguous | supersimpleserver.py:91-92 | nothing is escaped: a path holding the template's own middle text and a different body give the same page |

## Left out

- Networking: `run_server`, the TCP server and its banners (lines 100-115) are I/O over the standard library.
- `log_message` (lines 23-26) only prints, with a wall-clock timestamp.
- The real MIME table and file system are parameters. `os.path.exists`, `isfile`, `getsize` and `open` are lookups in a fixed map. The map does not change between the checks, the size query and the read, so the race between them is not modelled.
- Failures other than `open` are not modelled: `getsize` raising, or the write to the client failing.
- Symbolic links: the containment test is lexical, so a link is whatever the map holds at its path.
- Exception text: the reason why a file cannot be opened is part of its node, not derived.
- Library-written parts of a reply are not modelled: the status line text, the `Server` and `Date` headers, and the page and headers `send_error` writes. A reply records only the status code, the message, the handler's own headers and the body.
- `do_POST` reading its body: `int()` of the `Content-Length` header, the read from the input stream, and UTF-8 decoding and encoding (lines 74-79, 97). `DoPost` takes the path and the body as decoded text.
- HEAD and other methods belong to the library base class, not to this handler.
- The request line: the model starts from `self.path`, the argument `do_GET` receives. Before `do_GET` runs, `parse_request` in CPython 3.12's `http.server` turns a leading `//` of the request path into a single `/`. So on the wire `GET //` is served as `/index.html`, and `GET //host/a` as `/host/a`. `Handler.DoubleSlashNotFound`, `Url.DoubleSlashIsEmpty` and `Url.AuthorityDropped` hold for a `self.path` that starts with `//`, which an ordinary request line no longer yields. The rest of `parse_request` is not modelled either.
- Url.UrlPath: does not model two checks CPython 3.12's `urlsplit` makes on the authority. One rejects a bracketed part that is not an IPv6 or IPvFuture address, as in `//[abc]/x`. The other normalises a non-ASCII authority and rejects it when that brings in `/`, `?`, `#`, `@` or `:`. Where either check raises, the source fails on line 31 and `do_GET` writes nothing, while `Handler.Resolve` answers from the path. So `Url.UnbalancedAborts`, `Url.AuthorityDropped` and `Url.AbsoluteFormPath` are stated only for ASCII hosts that do not hold both brackets.
- Url.UrlPath: its own contract does not fix the path. The path is fixed by the contracts of its steps (`Url.SplitScheme`, `Url.PathAfterScheme`, `Url.SplitAuthority`, `Url.PathPart`) and by the lemmas for origin form, `//host` and absolute form.
- Repeatability of GET is not stated as a lemma. Every member is a function of its inputs, so equal requests on an equal file system always get equal replies.

## Findings

| source | as written | input that shows it | evidently intended | confidence | as-written member | corrected member |
|---|---|---|---|---|---|---|
| supersimpleserver.py:60-70 | The 200 status line and headers, including `Content-Length`, go out before the file is opened. When `open` fails, the handler sends a 500 error page after them on the same connection. | GET of a regular file inside the root that the server process may not read | One 500 reply when a regular file cannot be read, and no 200 header block before it | not executed | Handler.UnreadableGetsTwoStatusLines | Handler.DoGet |
