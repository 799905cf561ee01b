/** What the include preprocessor computes, stated without its visited set:
    the depth-first, pre-order expansion of the include tree, together with
    the files it opens in the order it opens them.  A build succeeds exactly
    when that expansion exists and opens no file twice (so a file that
    includes itself, an include cycle and a diamond all fail), and its text
    is then the expansion's text.  Also here: which paths the sandbox check
    lets through, and what each error names. */
module IncludeExpansion {
  import opened Text
  import opened Paths
  import opened Errors
  import opened Preprocessor

  /** A successful expansion: the merged text and the files read, in the
      order they were opened. */
  datatype Unfolding = Unfolding(text: string, files: seq<Path>)

  /** The pre-order expansion of `file`, nesting at most `fuel` files deep;
      `None` when a file is missing, an include is rejected, or the nesting
      is deeper than `fuel`. */
  function Expand(fs: FileSystem, root: Path, file: Path, fuel: nat): (x: Option<Unfolding>)
    ensures x.Some? ==> file in fs && |x.value.files| > 0 && x.value.files[0] == file
    decreases fuel, 0, 0, 0
  {
    if fuel == 0 || file !in fs then None
    else Opened(file, ExpandLines(fs, root, file, fs[file], 0, fuel - 1))
  }

  /** The expansion of a file whose lines expand to `u`: the same text, with
      the file itself opened before everything its lines open. */
  function Opened(file: Path, u: Option<Unfolding>): (x: Option<Unfolding>)
    ensures x.Some? <==> u.Some?
    ensures x.Some? ==> |x.value.files| > 0 && x.value.files[0] == file
  {
    if u.None? then None else Some(Unfolding(u.value.text, [file] + u.value.files))
  }

  /** The expansion of `lines[i..]`, the lines of `file`. */
  function ExpandLines(fs: FileSystem, root: Path, file: Path, lines: seq<string>, i: nat, fuel: nat): Option<Unfolding>
    requires i <= |lines|
    decreases fuel, 1, |lines| - i, 1
  {
    if i == |lines| then Some(Unfolding("", []))
    else
      match LineOutput(lines[i], FenceOpen(lines[..i + 1]))
      case Some(text) =>
        var rest := ExpandLines(fs, root, file, lines, i + 1, fuel);
        if rest.None? then None else Some(Unfolding(text + rest.value.text, rest.value.files))
      case None => ExpandInclude(fs, root, file, lines, i, fuel, IncludeTarget(file, lines[i]))
  }

  /** The expansion of `lines[i..]` when `lines[i]` includes `target`. */
  function ExpandInclude(fs: FileSystem, root: Path, file: Path, lines: seq<string>, i: nat, fuel: nat, target: Path): Option<Unfolding>
    requires i < |lines|
    decreases fuel, 1, |lines| - i, 0
  {
    if !SandboxCheck(root, target) then None
    else
      var c := Expand(fs, root, target, fuel);
      var rest := ExpandLines(fs, root, file, lines, i + 1, fuel);
      if c.None? || rest.None? then None
      else Some(Unfolding(c.value.text + "\n" + rest.value.text, c.value.files + rest.value.files))
  }

  function Elems(s: seq<Path>): set<Path> {
    if s == [] then {} else {s[0]} + Elems(s[1..])
  }

  /** Opening the files of `s` in order, starting from `visited`, never meets
      a path twice. */
  predicate Fresh(s: seq<Path>, visited: set<Path>) {
    s == [] || (s[0] !in visited && Fresh(s[1..], visited + {s[0]}))
  }

  lemma {:induction false} FreshAppend(a: seq<Path>, b: seq<Path>, visited: set<Path>)
    ensures Fresh(a + b, visited) <==> Fresh(a, visited) && Fresh(b, visited + Elems(a))
    ensures Elems(a + b) == Elems(a) + Elems(b)
  {
    if a == [] {
      assert a + b == b;
      assert visited + Elems(a) == visited;
    } else {
      assert (a + b)[0] == a[0];
      assert (a + b)[1..] == a[1..] + b;
      FreshAppend(a[1..], b, visited + {a[0]});
      assert visited + {a[0]} + Elems(a[1..]) == visited + Elems(a);
    }
  }

  /** `e` is the preprocessor's outcome and `x` the expansion of the same
      text: the first succeeds exactly when the second exists and opens no
      file twice nor one in `visited`, and then they agree on the text and
      the visited set grows by exactly the opened files. */
  predicate Agree(e: Expansion, x: Option<Unfolding>, visited: set<Path>) {
    && (e.out.Ok? <==> x.Some? && Fresh(x.value.files, visited))
    && (e.out.Ok? ==> e.out.value == x.value.text && e.visited == visited + Elems(x.value.files))
  }

  /** The preprocessor agrees with the pre-order expansion.  `fuel` bounds
      the nesting depth; the number of readable files not yet visited is
      always enough. */
  lemma {:induction false} PreprocessIsExpansion(fs: FileSystem, root: Path, file: Path, visited: set<Path>, fuel: nat)
    requires fuel >= |fs.Keys - visited|
    ensures Agree(Preprocess(fs, root, file, visited), Expand(fs, root, file, fuel), visited)
    decreases |fs.Keys - visited|, 0, 0, 1
  {
    if file in visited {
      VisitedAgree(fs, root, file, visited, fuel);
    } else if file !in fs {
      assert Expand(fs, root, file, fuel).None? && Preprocess(fs, root, file, visited).out.Err?;
    } else {
      ReadableAgree(fs, root, file, visited, fuel);
    }
  }

  /** A path already visited fails, and its expansion, which opens it first,
      is not fresh. */
  lemma VisitedAgree(fs: FileSystem, root: Path, file: Path, visited: set<Path>, fuel: nat)
    requires file in visited
    ensures Agree(Preprocess(fs, root, file, visited), Expand(fs, root, file, fuel), visited)
  {
    var x := Expand(fs, root, file, fuel);
    if x.Some? {
      assert x.value.files[0] == file;
    }
  }

  /** A readable file not yet visited: agreement for its lines, read with the
      file added to the visited set, gives agreement for the file. */
  lemma ReadableAgree(fs: FileSystem, root: Path, file: Path, visited: set<Path>, fuel: nat)
    requires file !in visited && file in fs
    requires fuel >= |fs.Keys - visited|
    ensures Agree(Preprocess(fs, root, file, visited), Expand(fs, root, file, fuel), visited)
    decreases |fs.Keys - visited|, 0, 0, 0
  {
    assert |fs.Keys - (visited + {file})| < |fs.Keys - visited| <= fuel by {
      FewerUnread(fs.Keys, visited, file);
    }
    var e := ProcessLines(fs, root, file, fs[file], 0, visited + {file});
    var u := ExpandLines(fs, root, file, fs[file], 0, fuel - 1);
    assert Agree(e, u, visited + {file}) by {
      LinesAreExpansion(fs, root, file, fs[file], 0, visited + {file}, fuel - 1);
    }
    AgreeOpened(file, e, u, visited);
    UnfoldReadable(fs, root, file, visited, fuel);
  }

  /** Both sides of the agreement, one step down, for a readable file not yet
      visited. */
  lemma UnfoldReadable(fs: FileSystem, root: Path, file: Path, visited: set<Path>, fuel: nat)
    requires file !in visited && file in fs && fuel > 0
    ensures Preprocess(fs, root, file, visited) == ProcessLines(fs, root, file, fs[file], 0, visited + {file})
    ensures Expand(fs, root, file, fuel) == Opened(file, ExpandLines(fs, root, file, fs[file], 0, fuel - 1))
  {
  }

  /** Opening `file` first: agreement for its lines from `visited + {file}`
      gives agreement for the file from `visited`. */
  lemma AgreeOpened(file: Path, e: Expansion, u: Option<Unfolding>, visited: set<Path>)
    requires file !in visited && Agree(e, u, visited + {file})
    ensures Agree(e, Opened(file, u), visited)
  {
    if u.Some? {
      var files := [file] + u.value.files;
      assert files[1..] == u.value.files;
      assert Elems(files) == {file} + Elems(u.value.files);
    }
  }

  lemma {:induction false} LinesAreExpansion(fs: FileSystem, root: Path, file: Path, lines: seq<string>, i: nat, visited: set<Path>, fuel: nat)
    requires i <= |lines|
    requires fuel >= |fs.Keys - visited|
    ensures Agree(ProcessLines(fs, root, file, lines, i, visited), ExpandLines(fs, root, file, lines, i, fuel), visited)
    decreases |fs.Keys - visited|, 1, |lines| - i, 1
  {
    if i == |lines| {
      assert visited + Elems([]) == visited;
    } else {
      match LineOutput(lines[i], FenceOpen(lines[..i + 1]))
      case Some(text) =>
        LinesAreExpansion(fs, root, file, lines, i + 1, visited, fuel);
      case None =>
        IncludeIsExpansion(fs, root, file, lines, i, visited, fuel, IncludeTarget(file, lines[i]));
    }
  }

  lemma {:induction false} IncludeIsExpansion(fs: FileSystem, root: Path, file: Path, lines: seq<string>, i: nat, visited: set<Path>, fuel: nat, target: Path)
    requires i < |lines|
    requires fuel >= |fs.Keys - visited|
    ensures Agree(IncludeLine(fs, root, file, lines, i, visited, target), ExpandInclude(fs, root, file, lines, i, fuel, target), visited)
    decreases |fs.Keys - visited|, 1, |lines| - i, 0
  {
    if SandboxCheck(root, target) {
      PreprocessIsExpansion(fs, root, target, visited, fuel);
      var child := Preprocess(fs, root, target, visited);
      var c := Expand(fs, root, target, fuel);
      var r := ExpandLines(fs, root, file, lines, i + 1, fuel);
      if child.out.Ok? {
        NoMoreUnread(fs.Keys, visited, child.visited);
        LinesAreExpansion(fs, root, file, lines, i + 1, child.visited, fuel);
      }
      if c.Some? && r.Some? {
        FreshAppend(c.value.files, r.value.files, visited);
      }
    }
  }

  /** Every path a build adds to the visited set, other than the file it
      starts from, passed the sandbox check: a rejected include is never
      read. */
  lemma {:induction false} IncludedPathsPassCheck(fs: FileSystem, root: Path, file: Path, visited: set<Path>)
    ensures forall q :: q in Preprocess(fs, root, file, visited).visited - visited ==> q == file || SandboxCheck(root, q)
    decreases |fs.Keys - visited|, 0, 0, 0
  {
    if file !in visited && file in fs {
      FewerUnread(fs.Keys, visited, file);
      LinePathsPassCheck(fs, root, file, fs[file], 0, visited + {file});
    }
  }

  lemma {:induction false} LinePathsPassCheck(fs: FileSystem, root: Path, file: Path, lines: seq<string>, i: nat, visited: set<Path>)
    requires i <= |lines|
    ensures forall q :: q in ProcessLines(fs, root, file, lines, i, visited).visited - visited ==> SandboxCheck(root, q)
    decreases |fs.Keys - visited|, 1, |lines| - i, 1
  {
    if i < |lines| {
      match LineOutput(lines[i], FenceOpen(lines[..i + 1]))
      case Some(text) =>
        LinePathsPassCheck(fs, root, file, lines, i + 1, visited);
      case None =>
        IncludePathsPassCheck(fs, root, file, lines, i, visited, IncludeTarget(file, lines[i]));
    }
  }

  lemma {:induction false} IncludePathsPassCheck(fs: FileSystem, root: Path, file: Path, lines: seq<string>, i: nat, visited: set<Path>, target: Path)
    requires i < |lines|
    ensures forall q :: q in IncludeLine(fs, root, file, lines, i, visited, target).visited - visited ==> SandboxCheck(root, q)
    decreases |fs.Keys - visited|, 1, |lines| - i, 0
  {
    if SandboxCheck(root, target) {
      IncludedPathsPassCheck(fs, root, target, visited);
      var child := Preprocess(fs, root, target, visited);
      if child.out.Ok? {
        NoMoreUnread(fs.Keys, visited, child.visited);
        LinePathsPassCheck(fs, root, file, lines, i + 1, child.visited);
      }
    }
  }

  /** A path that lies under the project root once cleaned. */
  predicate Confined(root: Path, q: Path) {
    q.absolute && q.comps != [] && StartsWith(Clean(q), root)
  }

  /** When the build starts from an absolute file path, every file it goes
      on to read lies under the project root once cleaned. */
  lemma {:induction false} AbsoluteBuildConfined(fs: FileSystem, root: Path, file: Path, visited: set<Path>)
    requires file.absolute && Components(true, file.comps) != [] && root.comps != []
    ensures forall q :: q in Preprocess(fs, root, file, visited).visited - visited ==> q == file || Confined(root, q)
    decreases |fs.Keys - visited|, 0, 0, 0
  {
    if file !in visited && file in fs {
      FewerUnread(fs.Keys, visited, file);
      AbsoluteLinesConfined(fs, root, file, fs[file], 0, visited + {file});
    }
  }

  lemma {:induction false} AbsoluteLinesConfined(fs: FileSystem, root: Path, file: Path, lines: seq<string>, i: nat, visited: set<Path>)
    requires i <= |lines|
    requires file.absolute && Components(true, file.comps) != [] && root.comps != []
    ensures forall q :: q in ProcessLines(fs, root, file, lines, i, visited).visited - visited ==> Confined(root, q)
    decreases |fs.Keys - visited|, 1, |lines| - i, 1
  {
    if i < |lines| {
      match LineOutput(lines[i], FenceOpen(lines[..i + 1]))
      case Some(text) =>
        AbsoluteLinesConfined(fs, root, file, lines, i + 1, visited);
      case None =>
        var target := IncludeTarget(file, lines[i]);
        ParentComponents(file);
        assert target.absolute;
        AbsoluteIncludeConfined(fs, root, file, lines, i, visited, target);
    }
  }

  lemma {:induction false} AbsoluteIncludeConfined(fs: FileSystem, root: Path, file: Path, lines: seq<string>, i: nat, visited: set<Path>, target: Path)
    requires i < |lines|
    requires file.absolute && Components(true, file.comps) != [] && root.comps != [] && target.absolute
    ensures forall q :: q in IncludeLine(fs, root, file, lines, i, visited, target).visited - visited ==> Confined(root, q)
    decreases |fs.Keys - visited|, 1, |lines| - i, 0
  {
    if SandboxCheck(root, target) {
      CleanedHasComponents(target.comps);
      AbsoluteBuildConfined(fs, root, target, visited);
      var child := Preprocess(fs, root, target, visited);
      if child.out.Ok? {
        NoMoreUnread(fs.Keys, visited, child.visited);
        AbsoluteLinesConfined(fs, root, file, lines, i + 1, child.visited);
      }
    }
  }

  /** Each error names its cause: a missing file that was visited, a path
      visited twice, or an include path the sandbox check rejected. */
  ghost predicate Explained(fs: FileSystem, root: Path, e: Expansion) {
    match e.out
    case Ok(_) => true
    case Err(SourceNotFound(s)) => exists q :: q in e.visited && q !in fs && s == PathString(q)
    case Err(BuildError(m)) =>
      (exists q :: q in e.visited && m == CircularMessage(q)) ||
      (exists q :: !SandboxCheck(root, q) && m == UnauthorizedMessage(q))
  }

  lemma {:induction false} ErrorsExplained(fs: FileSystem, root: Path, file: Path, visited: set<Path>)
    ensures Explained(fs, root, Preprocess(fs, root, file, visited))
    decreases |fs.Keys - visited|, 0, 0, 0
  {
    var e := Preprocess(fs, root, file, visited);
    if file in visited || file !in fs {
      assert file in e.visited;
    } else {
      FewerUnread(fs.Keys, visited, file);
      LineErrorsExplained(fs, root, file, fs[file], 0, visited + {file});
    }
  }

  lemma {:induction false} LineErrorsExplained(fs: FileSystem, root: Path, file: Path, lines: seq<string>, i: nat, visited: set<Path>)
    requires i <= |lines|
    ensures Explained(fs, root, ProcessLines(fs, root, file, lines, i, visited))
    decreases |fs.Keys - visited|, 1, |lines| - i, 1
  {
    if i < |lines| {
      match LineOutput(lines[i], FenceOpen(lines[..i + 1]))
      case Some(text) =>
        LineErrorsExplained(fs, root, file, lines, i + 1, visited);
      case None =>
        IncludeErrorsExplained(fs, root, file, lines, i, visited, IncludeTarget(file, lines[i]));
    }
  }

  lemma {:induction false} IncludeErrorsExplained(fs: FileSystem, root: Path, file: Path, lines: seq<string>, i: nat, visited: set<Path>, target: Path)
    requires i < |lines|
    ensures Explained(fs, root, IncludeLine(fs, root, file, lines, i, visited, target))
    decreases |fs.Keys - visited|, 1, |lines| - i, 0
  {
    if SandboxCheck(root, target) {
      ErrorsExplained(fs, root, target, visited);
      var child := Preprocess(fs, root, target, visited);
      if child.out.Ok? {
        NoMoreUnread(fs.Keys, visited, child.visited);
        LineErrorsExplained(fs, root, file, lines, i + 1, child.visited);
      }
    }
  }

  /** Each line from `i` up to `k` contributes text of its own: none is an
      include outside a fence. */
  predicate TextLines(lines: seq<string>, i: nat, k: nat)
    requires i <= k <= |lines|
  {
    forall m :: i <= m < k ==> TextLine(lines, m)
  }

  /** Line `m` contributes text of its own. */
  predicate TextLine(lines: seq<string>, m: nat)
    requires m < |lines|
  {
    LineOutput(lines[m], FenceOpen(lines[..m + 1])).Some?
  }

  /** Lines that only contribute text neither fail nor visit anything: when
      the remaining lines from `k` fail, those from `i` fail with the same
      error and visited set. */
  lemma {:induction false} TextLinesPassErrorsUp(fs: FileSystem, root: Path, file: Path, lines: seq<string>, i: nat, k: nat, visited: set<Path>)
    requires i <= k <= |lines| && TextLines(lines, i, k)
    ensures ProcessLines(fs, root, file, lines, k, visited).out.Err? ==>
              ProcessLines(fs, root, file, lines, i, visited) == ProcessLines(fs, root, file, lines, k, visited)
    decreases k - i
  {
    if i < k {
      TextLinesSplit(lines, i, k);
      TextLinesPassErrorsUp(fs, root, file, lines, i + 1, k, visited);
      TextLineKeepsError(fs, root, file, lines, i, visited);
    }
  }

  /** The first of a run of text lines, and the rest of the run. */
  lemma TextLinesSplit(lines: seq<string>, i: nat, k: nat)
    requires i < k <= |lines| && TextLines(lines, i, k)
    ensures TextLine(lines, i) && TextLines(lines, i + 1, k)
  {
  }

  lemma TextLineKeepsError(fs: FileSystem, root: Path, file: Path, lines: seq<string>, i: nat, visited: set<Path>)
    requires i < |lines| && TextLine(lines, i)
    ensures ProcessLines(fs, root, file, lines, i + 1, visited).out.Err? ==>
              ProcessLines(fs, root, file, lines, i, visited) == ProcessLines(fs, root, file, lines, i + 1, visited)
  {
    TextLineStep(fs, root, file, lines, i, visited, FenceOpen(lines[..i + 1]));
  }

  /** How an include line fails: a target the sandbox check rejects gives
      the unauthorized-access error and visits nothing; a target already
      visited gives the circular-dependency error naming it; an unreadable
      one is visited and gives `SourceNotFound` with its text; and any error
      from the included file comes up unchanged. */
  lemma IncludeFails(fs: FileSystem, root: Path, file: Path, lines: seq<string>, i: nat, visited: set<Path>, target: Path)
    requires i < |lines|
    ensures !SandboxCheck(root, target) ==>
              IncludeLine(fs, root, file, lines, i, visited, target) == Expansion(Err(BuildError(UnauthorizedMessage(target))), visited)
    ensures SandboxCheck(root, target) && target in visited ==>
              IncludeLine(fs, root, file, lines, i, visited, target) == Expansion(Err(BuildError(CircularMessage(target))), visited)
    ensures SandboxCheck(root, target) && target !in visited && target !in fs ==>
              IncludeLine(fs, root, file, lines, i, visited, target) == Expansion(Err(SourceNotFound(PathString(target))), visited + {target})
    ensures SandboxCheck(root, target) && Preprocess(fs, root, target, visited).out.Err? ==>
              IncludeLine(fs, root, file, lines, i, visited, target) == Preprocess(fs, root, target, visited)
  {
  }

  /** A build decided by the first include of its file: when that include
      fails, the build fails with the include's error (as `IncludeFails`
      gives it, with the file itself now visited). */
  lemma FirstIncludeFails(fs: FileSystem, root: Path, file: Path, k: nat, visited: set<Path>)
    requires file in fs && file !in visited && k < |fs[file]|
    requires TextLines(fs[file], 0, k) && LineOutput(fs[file][k], FenceOpen(fs[file][..k + 1])).None?
    ensures var e := IncludeLine(fs, root, file, fs[file], k, visited + {file}, IncludeTarget(file, fs[file][k]));
            e.out.Err? ==> Preprocess(fs, root, file, visited) == e
  {
    var lines := fs[file];
    TextLinesPassErrorsUp(fs, root, file, lines, 0, k, visited + {file});
    IncludeLineStep(fs, root, file, lines, k, visited + {file}, FenceOpen(lines[..k + 1]));
  }

  /** Opening the files of a fresh sequence meets each path once, and none
      that was visited before. */
  lemma {:induction false} FreshDistinct(s: seq<Path>, visited: set<Path>)
    requires Fresh(s, visited)
    ensures forall k :: 0 <= k < |s| ==> s[k] !in visited
    ensures forall j, k :: 0 <= j < k < |s| ==> s[j] != s[k]
  {
    if s != [] {
      FreshDistinct(s[1..], visited + {s[0]});
      assert forall k :: 0 < k < |s| ==> s[k] == s[1..][k - 1];
    }
  }

  /** A build whose pre-order expansion exists but would open some file
      twice fails: two files that include the same third file, or one file
      that includes another twice.  (A file that includes itself and an
      include cycle have no expansion at all: `CycleFails`.) */
  lemma RepeatedFileFails(fs: FileSystem, root: Path, file: Path, visited: set<Path>, fuel: nat, j: nat, k: nat)
    requires fuel >= |fs.Keys - visited|
    requires Expand(fs, root, file, fuel).Some?
    requires j < k < |Expand(fs, root, file, fuel).value.files|
    requires Expand(fs, root, file, fuel).value.files[j] == Expand(fs, root, file, fuel).value.files[k]
    ensures Preprocess(fs, root, file, visited).out.Err?
  {
    PreprocessIsExpansion(fs, root, file, visited, fuel);
    if Fresh(Expand(fs, root, file, fuel).value.files, visited) {
      FreshDistinct(Expand(fs, root, file, fuel).value.files, visited);
    }
  }

  /** Line `k` of `f` is an include outside a fence whose target, `g`,
      passes the sandbox check. */
  predicate IncludeEdge(fs: FileSystem, root: Path, f: Path, k: nat, g: Path) {
    && f in fs && k < |fs[f]|
    && !FenceOpen(fs[f][..k + 1]) && IncludeCapture(fs[f][k]).Some?
    && IncludeTarget(f, fs[f][k]) == g && SandboxCheck(root, g)
  }

  /** The files `c[0]`, ..., `c[|c| - 1]`, each including the next at line
      `ks[j]`, and the last including the first. */
  predicate IncludeCycle(fs: FileSystem, root: Path, c: seq<Path>, ks: seq<nat>) {
    |c| > 0 && |ks| == |c| && forall j :: 0 <= j < |c| ==> CycleEdge(fs, root, c, ks, j)
  }

  /** The `j`-th file of `c` includes the next one, at line `ks[j]`. */
  predicate CycleEdge(fs: FileSystem, root: Path, c: seq<Path>, ks: seq<nat>, j: nat)
    requires j < |c| == |ks|
  {
    IncludeEdge(fs, root, c[j], ks[j], c[Next(j, |c|)])
  }

  /** The position after `j` on a cycle of length `n`. */
  function Next(j: nat, n: nat): (r: nat)
    requires j < n
    ensures r < n && (r == 0 <==> j == n - 1)
  {
    if j + 1 < n then j + 1 else 0
  }

  /** A build that starts from a file on an include cycle fails, whatever
      was visited before: following the cycle's includes it must come back
      to a visited path, unless something else fails first. */
  lemma CycleFails(fs: FileSystem, root: Path, c: seq<Path>, ks: seq<nat>, visited: set<Path>)
    requires IncludeCycle(fs, root, c, ks)
    ensures forall j :: 0 <= j < |c| ==> Preprocess(fs, root, c[j], visited).out.Err?
  {
    forall j | 0 <= j < |c|
      ensures Preprocess(fs, root, c[j], visited).out.Err?
    {
      CycleFileFails(fs, root, c, ks, j, visited);
    }
  }

  lemma {:induction false} CycleFileFails(fs: FileSystem, root: Path, c: seq<Path>, ks: seq<nat>, j: nat, visited: set<Path>)
    requires IncludeCycle(fs, root, c, ks) && j < |c|
    ensures Preprocess(fs, root, c[j], visited).out.Err?
    decreases |fs.Keys - visited|, 0, 0, 0
  {
    if c[j] !in visited {
      assert CycleEdge(fs, root, c, ks, j);
      FewerUnread(fs.Keys, visited, c[j]);
      CycleLinesFail(fs, root, c, ks, j, 0, visited + {c[j]});
    }
  }

  /** The lines of the `j`-th file of a cycle, from `i` on, fail when `i`
      has not passed the line that includes the next file. */
  lemma {:induction false} CycleLinesFail(fs: FileSystem, root: Path, c: seq<Path>, ks: seq<nat>, j: nat, i: nat, visited: set<Path>)
    requires IncludeCycle(fs, root, c, ks) && j < |c| && CycleEdge(fs, root, c, ks, j) && i <= ks[j]
    ensures ProcessLines(fs, root, c[j], fs[c[j]], i, visited).out.Err?
    decreases |fs.Keys - visited|, 1, ks[j] - i, 2
  {
    var lines := fs[c[j]];
    var fenced := FenceOpen(lines[..i + 1]);
    if i == ks[j] {
      IncludeLineStep(fs, root, c[j], lines, i, visited, fenced);
      CycleEdgeFails(fs, root, c, ks, j, visited);
    } else if LineOutput(lines[i], fenced).Some? {
      TextLineStep(fs, root, c[j], lines, i, visited, fenced);
      CycleLinesFail(fs, root, c, ks, j, i + 1, visited);
    } else {
      IncludeLineStep(fs, root, c[j], lines, i, visited, fenced);
      CycleIncludeFails(fs, root, c, ks, j, i, visited);
    }
  }

  /** The include line of the `j`-th file of a cycle fails: the next file
      does. */
  lemma {:induction false} CycleEdgeFails(fs: FileSystem, root: Path, c: seq<Path>, ks: seq<nat>, j: nat, visited: set<Path>)
    requires IncludeCycle(fs, root, c, ks) && j < |c| && CycleEdge(fs, root, c, ks, j)
    ensures IncludeLine(fs, root, c[j], fs[c[j]], ks[j], visited, c[Next(j, |c|)]).out.Err?
    decreases |fs.Keys - visited|, 0, 1, 0
  {
    CycleFileFails(fs, root, c, ks, Next(j, |c|), visited);
    IncludeFails(fs, root, c[j], fs[c[j]], ks[j], visited, c[Next(j, |c|)]);
  }

  /** An include line before the cycle's one either fails or leaves the
      rest of the lines to fail. */
  lemma {:induction false} CycleIncludeFails(fs: FileSystem, root: Path, c: seq<Path>, ks: seq<nat>, j: nat, i: nat, visited: set<Path>)
    requires IncludeCycle(fs, root, c, ks) && j < |c| && CycleEdge(fs, root, c, ks, j) && i < ks[j]
    requires IncludeCapture(fs[c[j]][i]).Some?
    ensures IncludeLine(fs, root, c[j], fs[c[j]], i, visited, IncludeTarget(c[j], fs[c[j]][i])).out.Err?
    decreases |fs.Keys - visited|, 1, ks[j] - i, 1
  {
    var t := IncludeTarget(c[j], fs[c[j]][i]);
    if SandboxCheck(root, t) {
      var child := Preprocess(fs, root, t, visited);
      if child.out.Ok? {
        NoMoreUnread(fs.Keys, visited, child.visited);
        CycleLinesFail(fs, root, c, ks, j, i + 1, child.visited);
      }
    }
  }

  /** A file that includes itself fails to build. */
  lemma SelfIncludeFails(fs: FileSystem, root: Path, file: Path, k: nat, visited: set<Path>)
    requires IncludeEdge(fs, root, file, k, file)
    ensures Preprocess(fs, root, file, visited).out.Err?
  {
    var c, ks := [file], [k];
    assert c[Next(0, 1)] == file;
    assert CycleEdge(fs, root, c, ks, 0);
    CycleFileFails(fs, root, c, ks, 0, visited);
  }

  lemma {:induction false} ElemsMembers(s: seq<Path>)
    ensures forall q :: q in Elems(s) <==> q in s
  {
    if s != [] {
      ElemsMembers(s[1..]);
      assert s == [s[0]] + s[1..];
    }
  }

  /** An include cycle in which no line before each file's include is
      itself an include. */
  predicate FirstIncludeCycle(fs: FileSystem, root: Path, c: seq<Path>, ks: seq<nat>) {
    |c| > 0 && |ks| == |c| && forall j :: 0 <= j < |c| ==> FirstCycleEdge(fs, root, c, ks, j)
  }

  /** The first include of the `j`-th file of `c`, at line `ks[j]`, names
      the next one. */
  predicate FirstCycleEdge(fs: FileSystem, root: Path, c: seq<Path>, ks: seq<nat>, j: nat)
    requires j < |c| == |ks|
  {
    CycleEdge(fs, root, c, ks, j) && TextLines(fs[c[j]], 0, ks[j])
  }

  /** A file not yet visited whose first include names `g`, which passes the
      check: when building `g` with the file visited fails, the file's build
      fails in the same way. */
  lemma FirstIncludePassesUp(fs: FileSystem, root: Path, f: Path, k: nat, g: Path, visited: set<Path>)
    requires IncludeEdge(fs, root, f, k, g) && TextLines(fs[f], 0, k) && f !in visited
    requires Preprocess(fs, root, g, visited + {f}).out.Err?
    ensures Preprocess(fs, root, f, visited) == Preprocess(fs, root, g, visited + {f})
  {
    FirstIncludeFails(fs, root, f, k, visited);
    assert IncludeLine(fs, root, f, fs[f], k, visited + {f}, g) == Preprocess(fs, root, g, visited + {f});
  }

  /** Along such a cycle of distinct files, none visited yet, the build of
      the first file goes once round the cycle and fails on coming back,
      with the circular-dependency error naming the first file. */
  lemma CycleCircular(fs: FileSystem, root: Path, c: seq<Path>, ks: seq<nat>, visited: set<Path>)
    requires FirstIncludeCycle(fs, root, c, ks)
    requires forall j, m :: 0 <= j < m < |c| ==> c[j] != c[m]
    requires forall j :: 0 <= j < |c| ==> c[j] !in visited
    ensures Preprocess(fs, root, c[0], visited).out == Err(BuildError(CircularMessage(c[0])))
  {
    CycleWalk(fs, root, c, ks, visited, 0);
    assert c[..0] == [];
    assert visited + Elems([]) == visited;
  }

  /** `CycleCircular` from the `j`-th file on, with the files before it
      visited. */
  lemma {:induction false} CycleWalk(fs: FileSystem, root: Path, c: seq<Path>, ks: seq<nat>, visited: set<Path>, j: nat)
    requires FirstIncludeCycle(fs, root, c, ks)
    requires forall j, m :: 0 <= j < m < |c| ==> c[j] != c[m]
    requires forall j :: 0 <= j < |c| ==> c[j] !in visited
    requires j <= |c|
    ensures Preprocess(fs, root, c[if j < |c| then j else 0], visited + Elems(c[..j])).out == Err(BuildError(CircularMessage(c[0])))
    decreases |c| - j
  {
    var v := visited + Elems(c[..j]);
    if j == |c| {
      ElemsPrefix(c, j, visited);
    } else {
      ElemsPrefix(c, j, visited);
      CycleWalk(fs, root, c, ks, visited, j + 1);
      assert FirstCycleEdge(fs, root, c, ks, j);
      FirstIncludePassesUp(fs, root, c[j], ks[j], c[Next(j, |c|)], v);
    }
  }

  /** The files before the `j`-th, added to `visited`: they hold the first
      file, and, when the files are distinct and none was visited, not the
      `j`-th; adding the `j`-th gives the files before the next. */
  lemma ElemsPrefix(c: seq<Path>, j: nat, visited: set<Path>)
    requires 0 < |c| && j <= |c|
    requires forall j, m :: 0 <= j < m < |c| ==> c[j] != c[m]
    requires forall j :: 0 <= j < |c| ==> c[j] !in visited
    ensures 0 < j ==> c[0] in visited + Elems(c[..j])
    ensures j < |c| ==> c[j] !in visited + Elems(c[..j])
    ensures j < |c| ==> visited + Elems(c[..j]) + {c[j]} == visited + Elems(c[..j + 1])
  {
    ElemsMembers(c[..j]);
    if 0 < j {
      assert c[..j][0] == c[0];
    }
    if j < |c| {
      assert forall m :: 0 <= m < j ==> c[..j][m] == c[m];
      assert c[..j + 1] == c[..j] + [c[j]];
      FreshAppend(c[..j], [c[j]], visited);
      assert Elems([c[j]]) == {c[j]};
    }
  }

  /** The first line of a file, when it matches the include pattern, is an
      include: no fence is open yet. */
  lemma FirstLineInclude(lines: seq<string>)
    requires lines != [] && IncludeCapture(lines[0]).Some?
    ensures !FenceOpen(lines[..1])
  {
    DirectivesDisjoint(lines[0]);
    assert lines[..1][..0] == [];
    assert lines[..1][0] == lines[0];
  }

  /** `sub/main` includes `./a` on its first line, and `a` includes `main`
      on its first: the second include names `sub/main` again, so the build
      fails with the circular-dependency error naming `sub/main`. */
  lemma DotCycleCircular(fs: FileSystem, root: Path, sub: string, main: string, a: string)
    requires PlainName(sub) && PlainName(main) && PlainName(a)
    requires Path(false, [sub, main]) in fs && fs[Path(false, [sub, main])] != []
    requires Path(false, [sub, ".", a]) in fs && fs[Path(false, [sub, ".", a])] != []
    requires var l := fs[Path(false, [sub, main])][0];
             IncludeCapture(l).Some? && ParsePath(IncludeCapture(l).value) == Path(false, [".", a])
    requires var l := fs[Path(false, [sub, ".", a])][0];
             IncludeCapture(l).Some? && ParsePath(IncludeCapture(l).value) == Path(false, [main])
    ensures Preprocess(fs, root, Path(false, [sub, main]), {}).out
            == Err(BuildError(CircularMessage(Path(false, [sub, main]))))
  {
    var f0, f1 := Path(false, [sub, main]), Path(false, [sub, ".", a]);
    DotTargets(fs, sub, main, a);
    TwoFileCycle(fs, root, f0, f1);
    CycleCircular(fs, root, [f0, f1], [0, 0], {});
  }

  /** Where the two first-line includes of `DotCycleCircular` lead:
      `sub/main` names `sub/./a`, whose parent is `sub` again. */
  lemma DotTargets(fs: FileSystem, sub: string, main: string, a: string)
    requires PlainName(sub) && PlainName(main) && PlainName(a)
    requires Path(false, [sub, main]) in fs && fs[Path(false, [sub, main])] != []
    requires Path(false, [sub, ".", a]) in fs && fs[Path(false, [sub, ".", a])] != []
    requires var l := fs[Path(false, [sub, main])][0];
             IncludeCapture(l).Some? && ParsePath(IncludeCapture(l).value) == Path(false, [".", a])
    requires var l := fs[Path(false, [sub, ".", a])][0];
             IncludeCapture(l).Some? && ParsePath(IncludeCapture(l).value) == Path(false, [main])
    ensures IncludeTarget(Path(false, [sub, main]), fs[Path(false, [sub, main])][0]) == Path(false, [sub, ".", a])
    ensures IncludeTarget(Path(false, [sub, ".", a]), fs[Path(false, [sub, ".", a])][0]) == Path(false, [sub, main])
  {
    DotParent(sub, a, main);
  }

  /** Two distinct relative files, each including the other on its first
      line, form a cycle of first-line includes. */
  lemma TwoFileCycle(fs: FileSystem, root: Path, f0: Path, f1: Path)
    requires f0 != f1 && !f0.absolute && !f1.absolute
    requires f0 in fs && fs[f0] != [] && IncludeCapture(fs[f0][0]).Some? && IncludeTarget(f0, fs[f0][0]) == f1
    requires f1 in fs && fs[f1] != [] && IncludeCapture(fs[f1][0]).Some? && IncludeTarget(f1, fs[f1][0]) == f0
    ensures FirstIncludeCycle(fs, root, [f0, f1], [0, 0])
  {
    var c, ks := [f0, f1], [0, 0];
    FirstLineEdge(fs, root, c, ks, 0);
    assert c[Next(1, 2)] == f0;
    FirstLineEdge(fs, root, c, ks, 1);
    forall j | 0 <= j < |c|
      ensures FirstCycleEdge(fs, root, c, ks, j)
    {
      if j == 1 {
      }
    }
  }

  /** A relative include on the first line of `c[j]` naming the next file of
      the cycle is an edge of it that no earlier line precedes. */
  lemma FirstLineEdge(fs: FileSystem, root: Path, c: seq<Path>, ks: seq<nat>, j: nat)
    requires j < |c| == |ks| && ks[j] == 0
    requires c[j] in fs && fs[c[j]] != [] && IncludeCapture(fs[c[j]][0]).Some?
    requires IncludeTarget(c[j], fs[c[j]][0]) == c[Next(j, |c|)] && !c[Next(j, |c|)].absolute
    ensures FirstCycleEdge(fs, root, c, ks, j)
  {
    FirstLineInclude(fs[c[j]]);
  }

  /** A directive outside a fence: an include, `!newpage` or `!toc`. */
  predicate IsDirective(line: string) {
    IncludeCapture(line).Some? || Trim(line) == "!newpage" || Trim(line) == "!toc"
  }

  /** Each line followed by a newline, as `content.lines()` and the copying
      branches of the preprocessor produce them. */
  function Unlines(lines: seq<string>): string {
    if lines == [] then "" else lines[0] + "\n" + Unlines(lines[1..])
  }

  /** A file without directives comes out line for line, each line ended by
      a newline, and visits nothing further. */
  lemma {:induction false} PlainLinesVerbatim(fs: FileSystem, root: Path, file: Path, lines: seq<string>, i: nat, visited: set<Path>)
    requires i <= |lines|
    requires forall k :: i <= k < |lines| ==> !IsDirective(lines[k])
    ensures ProcessLines(fs, root, file, lines, i, visited) == Expansion(Ok(Unlines(lines[i..])), visited)
    decreases |lines| - i
  {
    if i < |lines| {
      PlainLinesVerbatim(fs, root, file, lines, i + 1, visited);
      assert lines[i..][1..] == lines[i + 1..];
    }
  }
}
