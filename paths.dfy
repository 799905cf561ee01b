/** Lexical path handling used by the include preprocessor: `Path::new`,
    `Path::parent`, `Path::join`, `Path::starts_with`, `Path::to_str`, and
    the `path_clean::clean` normaliser (a port of Plan 9 `cleanname`, the
    same algorithm as Go's `path.Clean`).  No file system is consulted:
    everything here is a function of the component sequence. */
module Paths {
  import opened Text

  /** A path as its root flag and its components, as written: "." and ".."
      stay as they are until `Clean` removes them. */
  datatype Path = Path(absolute: bool, comps: seq<string>)

  /** A component as `Path::new` yields it: non-empty, without a separator. */
  predicate WellFormed(p: Path) {
    forall i :: 0 <= i < |p.comps| ==> p.comps[i] != [] && '/' !in p.comps[i]
  }

  /** The non-empty '/'-separated pieces of `s[i..]`, in order. */
  function SegmentsFrom(s: string, i: nat): (r: seq<string>)
    requires i <= |s|
    ensures forall j :: 0 <= j < |r| ==> r[j] != [] && '/' !in r[j]
    decreases |s| - i
  {
    if i == |s| then []
    else if s[i] == '/' then SegmentsFrom(s, i + 1)
    else
      var k := FindFrom(s, '/', i);
      assert forall m :: 0 <= m < k - i ==> s[i..k][m] == s[i + m];
      [s[i..k]] + SegmentsFrom(s, k)
  }

  /** The non-empty '/'-separated pieces of `s`, in order. */
  function Segments(s: string): (r: seq<string>)
    ensures forall j :: 0 <= j < |r| ==> r[j] != [] && '/' !in r[j]
  {
    SegmentsFrom(s, 0)
  }

  /** `Path::new(s)`: absolute when `s` starts with the separator; repeated
      separators do not produce empty components. */
  function ParsePath(s: string): (p: Path)
    ensures WellFormed(p)
    ensures p.absolute <==> HasPrefix(s, "/")
  {
    Path(|s| > 0 && s[0] == '/', Segments(s))
  }

  /** The components joined by single separators. */
  function JoinComps(cs: seq<string>): string {
    if cs == [] then "" else if |cs| == 1 then cs[0] else cs[0] + "/" + JoinComps(cs[1..])
  }

  /** `Path::to_str` / `Path::display`: the text of the path. */
  function PathString(p: Path): string {
    (if p.absolute then "/" else "") + JoinComps(p.comps)
  }

  /** Printing and reading back give the same path. */
  lemma ParsePathString(p: Path)
    requires WellFormed(p)
    ensures ParsePath(PathString(p)) == p
  {
    SegmentsJoin(p.comps);
    if !p.absolute {
      assert PathString(p) == JoinComps(p.comps);
    }
    if p.absolute {
      assert ("/" + JoinComps(p.comps))[1..] == JoinComps(p.comps);
    } else if p.comps != [] {
      assert JoinComps(p.comps)[0] == p.comps[0][0];
      assert p.comps[0][0] != '/';
    }
  }

  lemma SegmentsJoin(cs: seq<string>)
    requires forall i :: 0 <= i < |cs| ==> cs[i] != [] && '/' !in cs[i]
    ensures Segments(JoinComps(cs)) == cs
    ensures Segments("/" + JoinComps(cs)) == cs
    ensures cs != [] ==> JoinComps(cs)[0] == cs[0][0]
  {
    var s := JoinComps(cs);
    SegmentsFromJoin(s, 0, cs);
    var t := "/" + s;
    assert t[1..] == s;
    SegmentsFromJoin(t, 1, cs);
    if cs != [] {
      JoinCompsCons(cs);
    }
  }

  /** Reading the joined components back from position `i` of a text that
      holds them there. */
  lemma {:induction false} SegmentsFromJoin(s: string, i: nat, cs: seq<string>)
    requires forall j :: 0 <= j < |cs| ==> cs[j] != [] && '/' !in cs[j]
    requires i <= |s| && s[i..] == JoinComps(cs)
    ensures SegmentsFrom(s, i) == cs
    decreases |cs|
  {
    if cs == [] {
      assert |s[i..]| == 0;
    } else if |cs| == 1 {
      SegmentsFromLast(s, i, cs);
    } else {
      SegmentsFromStep(s, i, cs);
      SegmentsFromJoin(s, i + |cs[0]| + 1, cs[1..]);
      assert [cs[0]] + cs[1..] == cs;
    }
  }

  lemma SegmentsFromLast(s: string, i: nat, cs: seq<string>)
    requires |cs| == 1 && cs[0] != [] && '/' !in cs[0]
    requires i <= |s| && s[i..] == JoinComps(cs)
    ensures SegmentsFrom(s, i) == cs
  {
    JoinCompsCons(cs);
    SliceAt(s, i, cs[0], "");
    SegmentsFromFirst(s, i, cs[0]);
  }

  lemma SegmentsFromStep(s: string, i: nat, cs: seq<string>)
    requires |cs| > 1 && cs[0] != [] && '/' !in cs[0]
    requires i <= |s| && s[i..] == JoinComps(cs)
    ensures i + |cs[0]| + 1 <= |s| && s[i + |cs[0]| + 1..] == JoinComps(cs[1..])
    ensures SegmentsFrom(s, i) == [cs[0]] + SegmentsFrom(s, i + |cs[0]| + 1)
  {
    var rest := "/" + JoinComps(cs[1..]);
    JoinCompsCons(cs);
    SliceAt(s, i, cs[0], rest);
    SegmentsFromFirst(s, i, cs[0]);
    assert rest[1..] == JoinComps(cs[1..]);
  }

  /** Where `s[i..]` is `c + rest`: `c` from `i` on, then `rest`. */
  lemma SliceAt(s: string, i: nat, c: string, rest: string)
    requires i <= |s| && s[i..] == c + rest
    ensures i + |c| <= |s| && s[i..i + |c|] == c
    ensures rest != [] ==> s[i + |c|] == rest[0] && s[i + |c| + 1..] == rest[1..]
    ensures rest == [] ==> i + |c| == |s|
  {
    assert s[i..i + |c|] == s[i..][..|c|];
    if rest != [] {
      assert s[i + |c|] == s[i..][|c|];
      assert s[i + |c| + 1..] == s[i..][|c| + 1..];
    }
  }

  /** A component `c` written at position `i` and ended by a separator or by
      the end of the text is the first segment read from `i`. */
  lemma SegmentsFromFirst(s: string, i: nat, c: string)
    requires c != [] && '/' !in c
    requires i + |c| <= |s| && s[i..i + |c|] == c
    requires i + |c| < |s| ==> s[i + |c|] == '/'
    ensures i + |c| == |s| ==> SegmentsFrom(s, i) == [c]
    ensures i + |c| < |s| ==> SegmentsFrom(s, i) == [c] + SegmentsFrom(s, i + |c| + 1)
  {
    var k := i + |c|;
    assert forall m :: i <= m < k ==> s[m] == c[m - i];
    FindFromPast(s, '/', i, k);
    assert s[i] == c[0];
  }

  lemma JoinCompsCons(cs: seq<string>)
    requires cs != []
    ensures JoinComps(cs) == cs[0] + (if |cs| == 1 then "" else "/" + JoinComps(cs[1..]))
  {
    if |cs| == 1 {
      assert cs[0] + "" == cs[0];
    } else {
      assert cs[0] + "/" + JoinComps(cs[1..]) == cs[0] + ("/" + JoinComps(cs[1..]));
    }
  }

  /** A "." that `Path::components` skips: every "." except one that starts
      a relative path, which it yields as the current directory. */
  predicate SkippedDot(absolute: bool, cs: seq<string>, i: nat)
    requires i < |cs|
  {
    cs[i] == "." && (absolute || i > 0)
  }

  /** The components `Path::components` yields after the root: `cs` without
      its skipped dots. */
  function Components(absolute: bool, cs: seq<string>): seq<string> {
    if cs == [] then []
    else Components(absolute, cs[..|cs| - 1]) + (if SkippedDot(absolute, cs, |cs| - 1) then [] else [cs[|cs| - 1]])
  }

  /** `cs` without the skipped dots at its end, as `Components::as_path`
      trims them: a prefix with the same components. */
  function TrimDots(absolute: bool, cs: seq<string>): (r: seq<string>)
    ensures r <= cs
    ensures r != [] ==> !SkippedDot(absolute, r, |r| - 1)
    ensures Components(absolute, r) == Components(absolute, cs)
  {
    if cs != [] && SkippedDot(absolute, cs, |cs| - 1) then TrimDots(absolute, cs[..|cs| - 1]) else cs
  }

  /** `Path::parent`, with the caller's `unwrap_or("")`: the path without
      its trailing skipped dots and its last component, and then without
      the skipped dots this leaves at its end; the empty relative path when
      the path has no component (as for "", "/" and "/.").  It is a leading
      part of the path's text, as `Components::as_path` returns it. */
  function Parent(p: Path): (r: Path)
    ensures r.comps <= p.comps
    ensures r.comps != [] ==> r.absolute == p.absolute
  {
    var t := TrimDots(p.absolute, p.comps);
    if t == [] then Path(false, []) else Path(p.absolute, TrimDots(p.absolute, t[..|t| - 1]))
  }

  /** The parent's components are all of the path's but the last, and it
      ends in no skipped dot; a path without components has the empty
      relative path as parent. */
  lemma ParentComponents(p: Path)
    ensures Components(p.absolute, p.comps) == [] ==> Parent(p) == Path(false, [])
    ensures Components(p.absolute, p.comps) != [] ==>
              && Parent(p).absolute == p.absolute
              && Components(p.absolute, p.comps)
                 == Components(p.absolute, Parent(p).comps) + [Components(p.absolute, p.comps)[|Components(p.absolute, p.comps)| - 1]]
              && (Parent(p).comps != [] ==> !SkippedDot(p.absolute, Parent(p).comps, |Parent(p).comps| - 1))
  {
    var t := TrimDots(p.absolute, p.comps);
    if t != [] {
      assert Components(p.absolute, t) == Components(p.absolute, t[..|t| - 1]) + [t[|t| - 1]];
    }
  }

  /** `Path::join`: an absolute right operand replaces the left one. */
  function Join(base: Path, q: Path): (r: Path)
    ensures q.absolute ==> r == q
    ensures !q.absolute ==> r.absolute == base.absolute && r.comps == base.comps + q.comps
  {
    if q.absolute then q else Path(base.absolute, base.comps + q.comps)
  }

  /** `Path::starts_with`: `base` is a whole-component prefix of `p`. */
  predicate StartsWith(p: Path, base: Path) {
    p.absolute == base.absolute && |base.comps| <= |p.comps| && p.comps[..|base.comps|] == base.comps
  }

  /** The result of `cleanname` on a component sequence: no "." or empty
      components, no ".." in a rooted path, and in a relative path ".." only
      as a leading run. */
  predicate IsClean(absolute: bool, cs: seq<string>) {
    && (forall i :: 0 <= i < |cs| ==> cs[i] != "." && cs[i] != "")
    && (absolute ==> forall i :: 0 <= i < |cs| ==> cs[i] != "..")
    && (forall i, j :: 0 <= i < j < |cs| && cs[j] == ".." ==> cs[i] == "..")
  }

  /** One step of `cleanname`: append component `c` to the cleaned prefix `prev`. */
  function CleanStep(absolute: bool, prev: seq<string>, c: string): seq<string> {
    if c == "." || c == "" then prev
    else if c == ".." then
      if |prev| > 0 && prev[|prev| - 1] != ".." then prev[..|prev| - 1]
      else if absolute then prev
      else prev + [".."]
    else prev + [c]
  }

  /** `cleanname` on the components, read left to right. */
  function CleanComps(absolute: bool, cs: seq<string>): (r: seq<string>)
    ensures IsClean(absolute, r)
    ensures |r| <= |cs|
  {
    if cs == [] then []
    else CleanStep(absolute, CleanComps(absolute, cs[..|cs| - 1]), cs[|cs| - 1])
  }

  /** `path_clean::clean`.  An empty result stands for "." (or "/"), which
      `Path::join` and `Path::starts_with` treat as no component at all. */
  function Clean(p: Path): (r: Path)
    ensures r.absolute == p.absolute && IsClean(r.absolute, r.comps)
  {
    Path(p.absolute, CleanComps(p.absolute, p.comps))
  }

  /** A path that is already clean is left unchanged; hence cleaning is
      idempotent. */
  lemma {:induction false} CleanFixesClean(absolute: bool, cs: seq<string>)
    requires IsClean(absolute, cs)
    ensures CleanComps(absolute, cs) == cs
  {
    if cs != [] {
      var init := cs[..|cs| - 1];
      var c := cs[|cs| - 1];
      assert init + [c] == cs;
      CleanInit(absolute, cs);
      CleanFixesClean(absolute, init);
      assert CleanComps(absolute, cs) == CleanStep(absolute, init, c);
    }
  }

  /** Dropping the last component of a clean sequence leaves it clean; when
      that component is "..", every component before it is "..". */
  lemma CleanInit(absolute: bool, cs: seq<string>)
    requires cs != [] && IsClean(absolute, cs)
    ensures IsClean(absolute, cs[..|cs| - 1])
    ensures cs[|cs| - 1] == ".." ==> forall i :: 0 <= i < |cs| - 1 ==> cs[i] == ".."
  {
  }

  lemma CleanIdempotent(p: Path)
    ensures Clean(Clean(p)) == Clean(p)
  {
    CleanFixesClean(p.absolute, Clean(p).comps);
  }

  /** The path-traversal check of the include preprocessor:
      `project_root.join(clean(include_path)).starts_with(project_root)`.
      Because `join` keeps an absolute right operand and appends a relative
      one, only an absolute include path can fail it. */
  predicate SandboxCheck(root: Path, includePath: Path)
    ensures SandboxCheck(root, includePath) <==> (!includePath.absolute || StartsWith(Clean(includePath), root))
  {
    StartsWith(Join(root, Clean(includePath)), root)
  }

  /** A rooted path whose cleaned form has a component has a component of
      its own: only skipped dots clean away to nothing. */
  lemma {:induction false} CleanedHasComponents(cs: seq<string>)
    ensures CleanComps(true, cs) != [] ==> Components(true, cs) != []
  {
    if cs != [] && Components(true, cs) == [] {
      var init := cs[..|cs| - 1];
      assert cs[|cs| - 1] == ".";
      CleanedHasComponents(init);
      assert CleanComps(true, cs) == CleanStep(true, CleanComps(true, init), ".");
    }
  }

  lemma CleanCompsSnoc(absolute: bool, cs: seq<string>, c: string)
    ensures CleanComps(absolute, cs + [c]) == CleanStep(absolute, CleanComps(absolute, cs), c)
  {
    assert (cs + [c])[..|cs|] == cs;
  }

  /** A component other than "", "." and "..". */
  predicate PlainName(c: string) {
    c != "" && c != "." && c != ".."
  }

  /** Cleaning keeps a plain name that follows. */
  lemma CleanName(absolute: bool, cs: seq<string>, a: string)
    requires PlainName(a)
    ensures CleanComps(absolute, cs + [a]) == CleanComps(absolute, cs) + [a]
  {
    CleanCompsSnoc(absolute, cs, a);
  }

  /** A ".." cancels the plain name it follows once cleaned, however that
      name was reached: when `ds` cleans like `cs` followed by `a`, then `ds`
      followed by ".." cleans like `cs`. */
  lemma CleanCancel(absolute: bool, cs: seq<string>, a: string, ds: seq<string>)
    requires PlainName(a)
    requires CleanComps(absolute, ds) == CleanComps(absolute, cs + [a])
    ensures CleanComps(absolute, ds + [".."]) == CleanComps(absolute, cs)
  {
    CleanCompsSnoc(absolute, ds, "..");
    CleanName(absolute, cs, a);
    var prev := CleanComps(absolute, cs) + [a];
    assert prev[..|prev| - 1] == CleanComps(absolute, cs);
  }

  /** Cleaning drops a "." (and an empty component). */
  lemma CleanDot(absolute: bool, cs: seq<string>, c: string)
    requires c == "." || c == ""
    ensures CleanComps(absolute, cs + [c]) == CleanComps(absolute, cs)
  {
    CleanCompsSnoc(absolute, cs, c);
  }

  /** In a rooted path, a ".." at the root is dropped: `/..` is `/`. */
  lemma CleanRootUp(cs: seq<string>)
    requires CleanComps(true, cs) == []
    ensures CleanComps(true, cs + [".."]) == []
  {
    CleanCompsSnoc(true, cs, "..");
  }

  /** In a relative path that cleans to nothing but "..", a further ".."
      is kept: `../..` stays as it is. */
  lemma CleanLeadingUp(cs: seq<string>)
    requires forall k :: 0 <= k < |CleanComps(false, cs)| ==> CleanComps(false, cs)[k] == ".."
    ensures CleanComps(false, cs + [".."]) == CleanComps(false, cs) + [".."]
  {
    CleanCompsSnoc(false, cs, "..");
  }

  /** A ".." after a plain name of the cleaned prefix cancels it:
      `a/b/..` is `a`. */
  lemma CleanUpCancels(absolute: bool, cs: seq<string>)
    requires CleanComps(absolute, cs) != [] && PlainName(CleanComps(absolute, cs)[|CleanComps(absolute, cs)| - 1])
    ensures CleanComps(absolute, cs + [".."]) == CleanComps(absolute, cs)[..|CleanComps(absolute, cs)| - 1]
  {
    CleanCompsSnoc(absolute, cs, "..");
  }

  /** The rules for ".." cover every cleaned prefix: it ends in a plain
      name (`CleanUpCancels`), or it is empty in a rooted path
      (`CleanRootUp`), or it is a run of ".." in a relative one
      (`CleanLeadingUp`).  With `CleanDot` and `CleanName` for the other
      components, these rules fix `CleanComps` on every input. */
  lemma CleanUpCases(absolute: bool, cs: seq<string>)
    ensures var prev := CleanComps(absolute, cs);
            || (prev != [] && PlainName(prev[|prev| - 1]))
            || (absolute && prev == [])
            || (!absolute && forall k :: 0 <= k < |prev| ==> prev[k] == "..")
  {
    var prev := CleanComps(absolute, cs);
    if prev != [] && !PlainName(prev[|prev| - 1]) {
      CleanInit(absolute, prev);
    }
  }

  /** A "." inside an absolute include does not reset what came before it:
      `/etc/./x` cleans to `/etc/x`, which fails the check under `/x`. */
  lemma DotInsideKept(etc: string, x: string)
    requires PlainName(etc) && PlainName(x) && etc != x
    ensures Clean(Path(true, [etc, ".", x])) == Path(true, [etc, x])
    ensures !SandboxCheck(Path(true, [x]), Path(true, [etc, ".", x]))
  {
    CleanName(true, [], etc);
    assert [] + [etc] == [etc];
    CleanDot(true, [etc], ".");
    assert [etc] + ["."] == [etc, "."];
    CleanName(true, [etc, "."], x);
    assert [etc, "."] + [x] == [etc, ".", x];
  }

  lemma SnocThree<T>(a: seq<T>, x: T, y: T, z: T)
    ensures a + [x, y, z] == a + [x] + [y] + [z]
  {
  }

  /** A relative include that climbs out of the root is accepted: the
      check never rejects a relative path, although the file it names lies
      outside the project (`/home/book` and `../secret.md`, say). */
  lemma RelativeEscapeAccepted(home: string, book: string, secret: string)
    requires PlainName(home) && PlainName(book) && PlainName(secret) && secret != book
    ensures var root := Path(true, [home, book]);
            var inc := Path(false, ["..", secret]);
            SandboxCheck(root, inc) && !StartsWith(Clean(Join(root, inc)), root)
  {
    var c1 := [] + [home];
    var c2 := c1 + [book];
    var c3 := c2 + [".."];
    var c4 := c3 + [secret];
    CleanName(true, [], home);
    assert CleanComps(true, c1) == [home];
    CleanCancel(true, c1, book, c2);
    CleanName(true, c3, secret);
    assert CleanComps(true, c4) == [home, secret];
    assert Join(Path(true, [home, book]), Path(false, ["..", secret])).comps == c4;
  }

  /** Two ".." after three plain names climb back to the first. */
  lemma CleanClimbTwo(absolute: bool, a: string, b: string, c: string, x: string)
    requires PlainName(a) && PlainName(b) && PlainName(c) && PlainName(x)
    ensures CleanComps(absolute, [a, b, c] + ["..", "..", x]) == [a, x]
  {
    var c1 := [] + [a];
    var c2 := c1 + [b];
    var c3 := c2 + [c];
    var c4 := c3 + [".."];
    var c5 := c4 + [".."];
    CleanName(absolute, [], a);
    assert CleanComps(absolute, c1) == [a];
    CleanCancel(absolute, c2, c, c3);
    CleanCancel(absolute, c1, b, c4);
    CleanName(absolute, c5, x);
    SnocThree(c3, "..", "..", x);
    assert c3 == [a, b, c];
  }

  /** An absolute include that climbs out of the root is rejected: from
      `/tmp/tests/traversal/main.md`, say, with the root
      `/tmp/tests/traversal`, `../../secret.txt` is refused (the situation of
      an including file given by its absolute path). */
  lemma AbsoluteEscapeRejected(tmp: string, tests: string, traversal: string, main: string, secret: string)
    requires PlainName(tmp) && PlainName(tests) && PlainName(traversal) && PlainName(main) && PlainName(secret)
    ensures var root := Path(true, [tmp, tests, traversal]);
            var inc := Join(Parent(Path(true, [tmp, tests, traversal, main])), Path(false, ["..", "..", secret]));
            !SandboxCheck(root, inc)
  {
    var file := Path(true, [tmp, tests, traversal, main]);
    assert Parent(file).comps == [tmp, tests, traversal];
    var inc := Join(Parent(file), Path(false, ["..", "..", secret]));
    CleanClimbTwo(true, tmp, tests, traversal, secret);
    assert |Clean(inc).comps| == 2;
  }

  /** The parent of `sub/./a` is `sub`, not `sub/.`: from `sub/main`, the
      include `./a` names `sub/./a`, and from there the include `main`
      names `sub/main` again. */
  lemma DotParent(sub: string, a: string, main: string)
    requires PlainName(sub) && PlainName(a) && PlainName(main)
    ensures Parent(Path(false, [sub, ".", a])) == Path(false, [sub])
    ensures Join(Parent(Path(false, [sub, main])), Path(false, [".", a])) == Path(false, [sub, ".", a])
    ensures Join(Parent(Path(false, [sub, ".", a])), Path(false, [main])) == Path(false, [sub, main])
  {
    var cs := [sub, ".", a];
    assert TrimDots(false, cs) == cs;
    assert cs[..2] == [sub, "."] && [sub, "."][..1] == [sub];
    assert TrimDots(false, [sub, "."]) == TrimDots(false, [sub]) == [sub];
    assert Parent(Path(false, [sub, main])) == Path(false, [sub]) by {
      assert TrimDots(false, [sub, main]) == [sub, main];
      assert [sub, main][..1] == [sub];
    }
    assert [sub] + [".", a] == cs;
    assert [sub] + [main] == [sub, main];
  }
}
