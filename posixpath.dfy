/**
  The lexical POSIX path operations the GET handler relies on: `str.split('/')`,
  `'/'.join`, `str.lstrip('/')`, `posixpath.join` with two arguments and
  `posixpath.normpath`.  None of them looks at a file system.
 */
module PosixPath {

  /** `s.split('/')`: the pieces between consecutive slashes; never empty. */
  function Split(s: string): (parts: seq<string>)
    ensures |parts| >= 1
    ensures forall i :: 0 <= i < |parts| ==> '/' !in parts[i]
  {
    if s == [] then [""]
    else
      var rest := Split(s[1..]);
      if s[0] == '/' then [""] + rest
      else [[s[0]] + rest[0]] + rest[1..]
  }

  /** `'/'.join(parts)`: it starts with the first part. */
  function Join(parts: seq<string>): (r: string)
    ensures |parts| >= 1 ==> |parts[0]| <= |r| && r[..|parts[0]|] == parts[0]
  {
    if |parts| == 0 then ""
    else if |parts| == 1 then parts[0]
    else parts[0] + "/" + Join(parts[1..])
  }

  predicate NoSlashIn(parts: seq<string>)
  {
    forall i :: 0 <= i < |parts| ==> '/' !in parts[i]
  }

  /** A segment that survives normalisation: not empty, not `.`, not `..`. */
  predicate IsName(c: string)
  {
    c != "" && c != "." && c != ".." && '/' !in c
  }

  predicate AllNames(cs: seq<string>)
  {
    forall i :: 0 <= i < |cs| ==> IsName(cs[i])
  }

  /** A segment that only moves within the tree: empty, `.` or `..`. */
  predicate IsDots(c: string)
  {
    c == "" || c == "." || c == ".."
  }

  lemma {:induction false} SplitJoin(s: string)
    ensures Join(Split(s)) == s
  {
    if s != [] {
      var rest := Split(s[1..]);
      SplitJoin(s[1..]);
      if s[0] == '/' {
        assert Split(s) == [""] + rest;
        if |rest| == 1 {
          assert Join(Split(s)) == "" + "/" + rest[0];
        } else {
          assert ([""] + rest)[1..] == rest;
        }
        assert s == [s[0]] + s[1..];
      } else {
        var head := [s[0]] + rest[0];
        assert Split(s) == [head] + rest[1..];
        if |rest| == 1 {
          assert Join(Split(s)) == head;
        } else {
          assert ([head] + rest[1..])[1..] == rest[1..];
          assert Join(rest) == rest[0] + "/" + Join(rest[1..]);
        }
        assert s == [s[0]] + s[1..];
      }
    }
  }

  lemma {:induction false} JoinSplit(parts: seq<string>)
    requires |parts| >= 1 && NoSlashIn(parts)
    ensures Split(Join(parts)) == parts
  {
    if |parts| == 1 {
      NoSlashSplit(parts[0]);
    } else {
      var tail := parts[1..];
      JoinSplit(tail);
      SplitPrefix(parts[0], Join(tail));
    }
  }

  /** A string without a slash is a single piece. */
  lemma {:induction false} NoSlashSplit(s: string)
    requires '/' !in s
    ensures Split(s) == [s]
  {
    if s != [] {
      NoSlashSplit(s[1..]);
      assert s == [s[0]] + s[1..];
    }
  }

  /** Splitting `a + "/" + b`, where `a` holds no slash, puts `a` in front of the pieces of `b`. */
  lemma {:induction false} SplitPrefix(a: string, b: string)
    requires '/' !in a
    ensures Split(a + "/" + b) == [a] + Split(b)
  {
    if a == [] {
      assert a + "/" + b == "/" + b;
      assert ("/" + b)[1..] == b;
    } else {
      var s := a + "/" + b;
      assert s[1..] == a[1..] + "/" + b;
      SplitPrefix(a[1..], b);
      assert a == [a[0]] + a[1..];
    }
  }

  lemma {:induction false} JoinAppend(xs: seq<string>, ys: seq<string>)
    requires |xs| >= 1 && |ys| >= 1
    ensures Join(xs + ys) == Join(xs) + "/" + Join(ys)
  {
    if |xs| == 1 {
      assert (xs + ys)[1..] == ys;
    } else {
      assert (xs + ys)[1..] == xs[1..] + ys;
      JoinAppend(xs[1..], ys);
    }
  }

  lemma SplitAppend(a: string, b: string)
    ensures Split(a + "/" + b) == Split(a) + Split(b)
  {
    var xs, ys := Split(a), Split(b);
    SplitJoin(a);
    SplitJoin(b);
    JoinAppend(xs, ys);
    assert NoSlashIn(xs + ys) by {
      forall i | 0 <= i < |xs + ys| ensures '/' !in (xs + ys)[i] {
        if i < |xs| { assert (xs + ys)[i] == xs[i]; } else { assert (xs + ys)[i] == ys[i - |xs|]; }
      }
    }
    JoinSplit(xs + ys);
  }

  /** How many leading slashes `normpath` keeps: POSIX gives exactly two a meaning of their own. */
  function InitialSlashes(p: string): (k: nat)
    ensures k <= 2
    ensures k > 0 <==> |p| > 0 && p[0] == '/'
    ensures k == 2 <==> |p| >= 2 && p[0] == '/' && p[1] == '/' && (|p| == 2 || p[2] != '/')
  {
    if |p| >= 2 && p[0] == '/' && p[1] == '/' && !(|p| >= 3 && p[2] == '/') then 2
    else if |p| >= 1 && p[0] == '/' then 1
    else 0
  }

  function Slashes(k: nat): string
    requires k <= 2
  {
    "//"[..k]
  }

  /**
    One turn of the `normpath` loop: how component `comp` changes the stack of
    kept components.  Empty and `.` components change nothing, a name is pushed,
    and only `..` can pop.
   */
  function Step(stack: seq<string>, comp: string, rooted: bool): (r: seq<string>)
    ensures r == stack || r == stack + [comp] || (|stack| > 0 && r == stack[..|stack| - 1])
    ensures comp == "" || comp == "." ==> r == stack
    ensures IsName(comp) ==> r == stack + [comp]
    ensures |r| < |stack| ==> comp == ".."
  {
    if comp == "" || comp == "." then stack
    else if comp != ".." || (!rooted && stack == []) || (stack != [] && stack[|stack| - 1] == "..") then stack + [comp]
    else if stack != [] then stack[..|stack| - 1]
    else stack
  }

  /**
    The `normpath` loop over `comps`, left to right, starting from `stack`.
    Each component adds at most one entry.
   */
  function Collapse(stack: seq<string>, comps: seq<string>, rooted: bool): (r: seq<string>)
    ensures |r| <= |stack| + |comps|
    decreases |comps|
  {
    if comps == [] then stack
    else Collapse(Step(stack, comps[0], rooted), comps[1..], rooted)
  }

  /** Whatever `Collapse` keeps was on the stack already or is a component other than an empty one or `.`. */
  lemma {:induction false} CollapseKeeps(stack: seq<string>, comps: seq<string>, rooted: bool)
    ensures forall x :: x in Collapse(stack, comps, rooted) ==> x in stack || (x in comps && x != "" && x != ".")
    decreases |comps|
  {
    if comps != [] {
      var next := Step(stack, comps[0], rooted);
      assert Collapse(stack, comps, rooted) == Collapse(next, comps[1..], rooted);
      CollapseKeeps(next, comps[1..], rooted);
      assert forall x :: x in next ==> x in stack || (x == comps[0] && x != "" && x != ".");
      assert forall x :: x in comps[1..] ==> x in comps;
    }
  }

  /**
    `posixpath.normpath`.  It never returns the empty string, keeps the number
    of leading slashes, and on an absolute path leaves no empty, `.` or `..`
    segment.
   */
  function NormPath(p: string): (r: string)
    ensures r != ""
    ensures InitialSlashes(r) == InitialSlashes(p)
    ensures InitialSlashes(p) > 0 ==> IsNormalAbsolute(r)
  {
    if p == "" then "."
    else
      var k := InitialSlashes(p);
      KeptPieces(p);
      var r := Slashes(k) + Join(Collapse([], Split(p), k > 0));
      if r == "" then "." else r
  }

  /**
    `posixpath.join(a, b)` for two arguments: an absolute `b` replaces `a`;
    otherwise `a`, at most one separating slash, then `b`.
   */
  function JoinPath(a: string, b: string): (r: string)
    ensures |b| > 0 && b[0] == '/' ==> r == b
    ensures !(|b| > 0 && b[0] == '/') ==> |a| + |b| <= |r| <= |a| + 1 + |b|
  {
    if |b| > 0 && b[0] == '/' then b
    else if a == "" || a[|a| - 1] == '/' then a + b
    else a + "/" + b
  }

  /**
    A relative `b` is joined behind `a`: the result starts with `a` and ends
    with `b`, and a slash is put between them exactly when `a` is non-empty
    and does not already end with one.
   */
  lemma JoinPathKeepsBoth(a: string, b: string)
    requires !(|b| > 0 && b[0] == '/')
    ensures var r := JoinPath(a, b);
      && r[..|a|] == a && r[|r| - |b|..] == b
      && (|r| == |a| + |b| <==> a == "" || a[|a| - 1] == '/')
      && (|r| > |a| + |b| ==> r[|a|] == '/')
  {
    if a == "" || a[|a| - 1] == '/' {
      assert JoinPath(a, b) == a + b;
    } else {
      assert JoinPath(a, b) == a + "/" + b;
    }
  }

  /** `s.lstrip('/')`: `s` without any of its leading slashes. */
  function LStripSlash(s: string): (r: string)
    ensures |r| <= |s| && s[|s| - |r|..] == r
    ensures forall i :: 0 <= i < |s| - |r| ==> s[i] == '/'
    ensures r == "" || r[0] != '/'
  {
    if s != [] && s[0] == '/' then LStripSlash(s[1..]) else s
  }

  /** An absolute path `normpath` produces: one or two leading slashes, then names only. */
  predicate IsNormalAbsolute(s: string)
  {
    var k := InitialSlashes(s);
    k > 0 && (s[k..] == "" || AllNames(Split(s[k..])))
  }

  /** Folding over `a + b` is folding over `a`, then over `b`. */
  lemma {:induction false} CollapseAppend(stack: seq<string>, a: seq<string>, b: seq<string>, rooted: bool)
    ensures Collapse(stack, a + b, rooted) == Collapse(Collapse(stack, a, rooted), b, rooted)
    decreases |a|
  {
    if a == [] {
      assert a + b == b;
    } else {
      assert (a + b)[1..] == a[1..] + b;
      CollapseAppend(Step(stack, a[0], rooted), a[1..], b, rooted);
    }
  }

  /** Names are always kept, in order. */
  lemma {:induction false} CollapseNames(stack: seq<string>, names: seq<string>, rooted: bool)
    requires AllNames(names)
    ensures Collapse(stack, names, rooted) == stack + names
    decreases |names|
  {
    if names != [] {
      CollapseNames(stack + [names[0]], names[1..], rooted);
      assert stack + [names[0]] + names[1..] == stack + names;
    }
  }

  /** On an absolute path the stack only ever holds names: `..` above the top is dropped. */
  lemma {:induction false} CollapseRootedKeepsNames(stack: seq<string>, comps: seq<string>)
    requires AllNames(stack) && NoSlashIn(comps)
    ensures AllNames(Collapse(stack, comps, true))
    decreases |comps|
  {
    if comps != [] {
      var next := Step(stack, comps[0], true);
      assert AllNames(next);
      CollapseRootedKeepsNames(next, comps[1..]);
    }
  }

  /** The pieces of `/`-joined names are non-empty and do not start with a slash. */
  lemma JoinNamesHead(names: seq<string>)
    requires |names| >= 1 && AllNames(names)
    ensures |Join(names)| >= 1 && Join(names)[0] != '/'
  {
    JoinHead(names);
  }

  lemma SlashesThenNames(k: nat, names: seq<string>)
    requires 1 <= k <= 2 && AllNames(names)
    ensures InitialSlashes(Slashes(k) + Join(names)) == k
    ensures IsNormalAbsolute(Slashes(k) + Join(names))
  {
    var s := Slashes(k) + Join(names);
    if names != [] {
      JoinNamesHead(names);
      assert s[k] == Join(names)[0];
      assert InitialSlashes(s) == k;
      assert s[k..] == Join(names);
      JoinSplit(names);
    } else {
      assert s == Slashes(k);
      assert InitialSlashes(s) == k;
      assert s[k..] == "";
    }
  }

  /** The first character of a join is the first character of its first part. */
  lemma JoinHead(parts: seq<string>)
    requires |parts| >= 1 && parts[0] != ""
    ensures |Join(parts)| >= 1 && Join(parts)[0] == parts[0][0]
  {
    assert Join(parts)[..|parts[0]|] == parts[0];
  }

  /** What the `normpath` loop keeps, behind the leading slashes, before the empty result becomes `.`. */
  lemma KeptPieces(p: string)
    requires p != ""
    ensures var k := InitialSlashes(p);
      var joined := Slashes(k) + Join(Collapse([], Split(p), k > 0));
      && (k > 0 ==> InitialSlashes(joined) == k && IsNormalAbsolute(joined))
      && (k == 0 ==> joined == "" || joined[0] != '/')
  {
    var k := InitialSlashes(p);
    var kept := Collapse([], Split(p), k > 0);
    if k > 0 {
      CollapseRootedKeepsNames([], Split(p));
      SlashesThenNames(k, kept);
    } else {
      assert Slashes(k) + Join(kept) == Join(kept);
      if kept != [] {
        CollapseKeeps([], Split(p), k > 0);
        assert kept[0] in kept;
        JoinHead(kept);
      }
    }
  }

  /** Splitting behind `k` leading slashes yields `k` empty pieces first. */
  lemma SplitSlashes(k: nat, t: string)
    requires k <= 2
    ensures Split(Slashes(k) + t) == seq(k, _ => "") + Split(t)
  {
    if k == 1 {
      assert ("/" + t)[1..] == t;
    } else if k == 2 {
      assert ("//" + t)[1..] == "/" + t;
      assert ("/" + t)[1..] == t;
    } else {
      assert Slashes(k) + t == t;
    }
  }

  lemma CollapseEmpties(stack: seq<string>, k: nat, rooted: bool)
    requires k <= 2
    ensures Collapse(stack, seq(k, _ => ""), rooted) == stack
  {
    if k == 1 {
      assert seq(k, _ => "")[1..] == [];
    } else if k == 2 {
      assert seq(k, _ => "")[1..] == [""];
      assert [""][1..] == [];
    }
  }

  /** A normal absolute path is a fixed point of `normpath`. */
  lemma NormalIsFixed(s: string)
    requires IsNormalAbsolute(s)
    ensures NormPath(s) == s
  {
    var k := InitialSlashes(s);
    var t := s[k..];
    assert s[..k] == Slashes(k);
    assert s == Slashes(k) + t;
    SplitSlashes(k, t);
    CollapseAppend([], seq(k, _ => ""), Split(t), true);
    CollapseEmpties([], k, true);
    if t == "" {
      assert Split(t) == [""];
      assert Collapse([], Split(t), true) == [];
    } else {
      CollapseNames([], Split(t), true);
      assert [] + Split(t) == Split(t);
      SplitJoin(t);
    }
  }

  /** `normpath` is idempotent on absolute paths. */
  lemma NormPathIdempotent(p: string)
    requires |p| > 0 && p[0] == '/'
    ensures NormPath(NormPath(p)) == NormPath(p)
  {
    NormalIsFixed(NormPath(p));
  }

  /** The number of `..` components. */
  function ParentCount(comps: seq<string>): nat
  {
    if comps == [] then 0 else (if comps[0] == ".." then 1 else 0) + ParentCount(comps[1..])
  }

  predicate AllDots(comps: seq<string>)
  {
    forall i :: 0 <= i < |comps| ==> IsDots(comps[i])
  }

  function Min(a: nat, b: nat): nat { if a <= b then a else b }

  /** On a stack of names, empty, `.` and `..` components only pop: one name per `..`, never below the top. */
  lemma {:induction false} CollapseDots(stack: seq<string>, dots: seq<string>)
    requires AllNames(stack) && AllDots(dots)
    ensures Collapse(stack, dots, true) == stack[..|stack| - Min(|stack|, ParentCount(dots))]
    decreases |dots|
  {
    if dots != [] {
      var next := Step(stack, dots[0], true);
      assert AllDots(dots[1..]);
      CollapseDots(next, dots[1..]);
      if dots[0] == ".." && stack != [] {
        assert next == stack[..|stack| - 1];
      }
    }
  }

  /** Without `..` components the stack is only ever extended. */
  lemma {:induction false} CollapseNoParent(stack: seq<string>, comps: seq<string>, rooted: bool)
    requires forall i :: 0 <= i < |comps| ==> comps[i] != ".."
    ensures var r := Collapse(stack, comps, rooted); |stack| <= |r| && r[..|stack|] == stack
    decreases |comps|
  {
    if comps != [] {
      var next := Step(stack, comps[0], rooted);
      CollapseNoParent(next, comps[1..], rooted);
      var r := Collapse(stack, comps, rooted);
      assert r[..|stack|] == r[..|next|][..|stack|];
    }
  }

  /** `'/'.join` of names ends in the last name. */
  lemma JoinLast(xs: seq<string>, y: string)
    requires |xs| >= 1
    ensures Join(xs + [y]) == Join(xs) + "/" + y
  {
    JoinAppend(xs, [y]);
  }

  /** Dropping a name makes the joined path strictly shorter. */
  lemma JoinPrefixShorter(names: seq<string>, m: nat)
    requires AllNames(names) && m < |names|
    ensures |Join(names[..m])| < |Join(names)|
  {
    JoinNamesHead(names[m..]);
    if m > 0 {
      assert names == names[..m] + names[m..];
      JoinAppend(names[..m], names[m..]);
    }
  }
}
