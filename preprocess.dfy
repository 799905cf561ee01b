/** The include preprocessor `preprocess_markdown`: merges a tree of Markdown
    files into one text.  Line by line, outside fenced code blocks, it
    replaces `!include(p)` by the expansion of the file `p` names (relative to
    the including file's directory), `!newpage` by a page-break element and
    `!toc` by the table-of-contents placeholder.  A set of visited paths,
    shared by every call of one build, rejects any path reached twice.

    The file system is a map from path to the file's lines; a path that is
    not a key cannot be read. */
module Preprocessor {
  import opened Text
  import opened Paths
  import opened Errors

  type FileSystem = map<Path, seq<string>>

  const FenceMarker: string := "```"
  const PageBreakHtml: string := "<div class=\"page-break\"></div>\n"
  const TocPlaceholderHtml: string := "<!--TOC_PLACEHOLDER-->\n"

  /** A line that opens or closes a fenced code block. */
  predicate IsFence(line: string) {
    HasPrefix(Trim(line), FenceMarker)
  }

  /** Whether a fenced code block is open after `lines`: an odd number of them
      are fence lines.  Each file starts outside any fence. */
  function FenceOpen(lines: seq<string>): bool {
    if lines == [] then false
    else FenceOpen(lines[..|lines| - 1]) != IsFence(lines[|lines| - 1])
  }

  /** What a line outside a fence is, tested in the source's order. */
  datatype Directive = Include(target: string) | NewPage | Toc | PlainLine

  function Classify(line: string): (d: Directive)
    ensures d.Include? <==> IncludeCapture(line).Some?
    ensures d.Include? ==> IncludeCapture(line) == Some(d.target)
    ensures d.NewPage? <==> Trim(line) == "!newpage"
    ensures d.Toc? <==> Trim(line) == "!toc"
    ensures IsFence(line) ==> d == PlainLine
  {
    DirectivesDisjoint(line);
    var c := IncludeCapture(line);
    if c.Some? then Include(c.value)
    else if Trim(line) == "!newpage" then NewPage
    else if Trim(line) == "!toc" then Toc
    else PlainLine
  }

  /** The trimmed text of an include line starts with "!i", that of a fence
      with a backtick: no line is two of these things at once. */
  lemma DirectivesDisjoint(line: string)
    ensures IncludeCapture(line).Some? ==> Trim(line)[0] == '!' && Trim(line) != "!newpage" && Trim(line) != "!toc"
    ensures IsFence(line) ==> Trim(line)[0] == '`' && Trim(line) != "!newpage" && Trim(line) != "!toc"
  {
    if IncludeCapture(line).Some? {
      IncludeLineTrim(line);
      IncludeTextDiffers(Trim(line), IncludeCapture(line).value);
    }
    if IsFence(line) {
      assert Trim(line)[0] == FenceMarker[0];
    }
  }

  lemma IncludeTextDiffers(t: string, c: string)
    requires t == IncludeOpen + c + ")"
    ensures t[0] == '!' && t != "!newpage" && t != "!toc"
  {
    assert t[1] == 'i';
    assert "!newpage"[1] == 'n';
    assert "!toc"[1] == 't';
  }

  /** The text a line contributes, given whether a fence is open once the line
      has been read; `None` for an include line, whose text is the included
      file's. */
  function LineOutput(line: string, fenced: bool): (r: Option<string>)
    ensures fenced || IsFence(line) ==> r == Some(line + "\n")
    ensures r.None? <==> !fenced && IncludeCapture(line).Some?
    ensures !fenced && Trim(line) == "!newpage" ==> r == Some(PageBreakHtml)
    ensures !fenced && Trim(line) == "!toc" ==> r == Some(TocPlaceholderHtml)
    ensures r.Some? && r.value != line + "\n" ==> !fenced && Trim(line) in {"!newpage", "!toc"}
  {
    if fenced then Some(line + "\n")
    else match Classify(line)
      case Include(_) => None
      case NewPage => Some(PageBreakHtml)
      case Toc => Some(TocPlaceholderHtml)
      case PlainLine => Some(line + "\n")
  }

  /** The path an include line names: its capture, joined to the directory of
      the including file.  The read and the visited set use this path as it
      is; only the sandbox check cleans it. */
  function IncludeTarget(file: Path, line: string): Path
    requires IncludeCapture(line).Some?
  {
    Join(Parent(file), ParsePath(IncludeCapture(line).value))
  }

  function CircularMessage(p: Path): string {
    "Circular dependency detected: '" + PathString(p) + "'"
  }

  function UnauthorizedMessage(p: Path): string {
    "Unauthorized file access attempt: " + PathString(p)
  }

  /** The outcome of expanding a file, with the visited set as it stands
      afterwards. */
  datatype Expansion = Expansion(out: Result<string>, visited: set<Path>)

  /** `text` put in front of a successful expansion; a failure is kept. */
  function Prepend(text: string, e: Expansion): (r: Expansion)
    ensures r.visited == e.visited && r.out.Ok? == e.out.Ok?
  {
    if e.out.Ok? then Expansion(Ok(text + e.out.value), e.visited) else e
  }

  lemma FewerUnread(keys: set<Path>, visited: set<Path>, file: Path)
    requires file in keys && file !in visited
    ensures |keys - (visited + {file})| < |keys - visited|
  {
    assert keys - (visited + {file}) == (keys - visited) - {file};
  }

  lemma NoMoreUnread(keys: set<Path>, visited: set<Path>, later: set<Path>)
    requires visited <= later
    ensures |keys - later| <= |keys - visited|
  {
    SubsetSize(keys - later, keys - visited);
  }

  lemma {:induction false} SubsetSize<T>(a: set<T>, b: set<T>)
    requires a <= b
    ensures |a| <= |b|
    decreases a
  {
    if a != {} {
      var x :| x in a;
      SubsetSize(a - {x}, b - {x});
    }
  }

  /** `preprocess_markdown(project_root, file, visited)`, as a function of the
      file system.  It terminates because each call that reads a file first
      adds to `visited` a readable path not yet in it. */
  function Preprocess(fs: FileSystem, root: Path, file: Path, visited: set<Path>): (e: Expansion)
    ensures visited + {file} <= e.visited
    ensures e.out.Ok? ==> file !in visited && e.visited - visited <= fs.Keys
    decreases |fs.Keys - visited|, 0, 0, 0
  {
    if file in visited then Expansion(Err(BuildError(CircularMessage(file))), visited)
    else if file !in fs then Expansion(Err(SourceNotFound(PathString(file))), visited + {file})
    else
      FewerUnread(fs.Keys, visited, file);
      ProcessLines(fs, root, file, fs[file], 0, visited + {file})
  }

  /** The expansion of `lines[i..]`, the lines of `file`, with `visited` the
      paths visited so far. */
  function ProcessLines(fs: FileSystem, root: Path, file: Path, lines: seq<string>, i: nat, visited: set<Path>): (e: Expansion)
    requires i <= |lines|
    ensures visited <= e.visited
    ensures e.out.Ok? ==> e.visited - visited <= fs.Keys
    decreases |fs.Keys - visited|, 1, |lines| - i, 1
  {
    if i == |lines| then Expansion(Ok(""), visited)
    else
      match LineOutput(lines[i], FenceOpen(lines[..i + 1]))
      case Some(text) => Prepend(text, ProcessLines(fs, root, file, lines, i + 1, visited))
      case None => IncludeLine(fs, root, file, lines, i, visited, IncludeTarget(file, lines[i]))
  }

  /** The expansion of `lines[i..]` when `lines[i]` is an include line naming
      `target`: the sandbox check, the included file's expansion, then the
      remaining lines with the visited set the inclusion left. */
  function IncludeLine(fs: FileSystem, root: Path, file: Path, lines: seq<string>, i: nat, visited: set<Path>, target: Path): (e: Expansion)
    requires i < |lines|
    ensures visited <= e.visited
    ensures e.out.Ok? ==> e.visited - visited <= fs.Keys
    decreases |fs.Keys - visited|, 1, |lines| - i, 0
  {
    if !SandboxCheck(root, target) then Expansion(Err(BuildError(UnauthorizedMessage(target))), visited)
    else
      var child := Preprocess(fs, root, target, visited);
      if child.out.Err? then child
      else
        NoMoreUnread(fs.Keys, visited, child.visited);
        Prepend(child.out.value + "\n", ProcessLines(fs, root, file, lines, i + 1, child.visited))
  }

  lemma PrependEmpty(e: Expansion)
    ensures Prepend("", e) == e
  {
    if e.out.Ok? {
      assert "" + e.out.value == e.out.value;
    }
  }

  lemma PrependPrepend(a: string, b: string, e: Expansion)
    ensures Prepend(a, Prepend(b, e)) == Prepend(a + b, e)
  {
    if e.out.Ok? {
      assert a + (b + e.out.value) == (a + b) + e.out.value;
    }
  }

  /** One line of `ProcessLines` that contributes text of its own. */
  lemma TextLineStep(fs: FileSystem, root: Path, file: Path, lines: seq<string>, i: nat, visited: set<Path>, fenced: bool)
    requires i < |lines| && fenced == FenceOpen(lines[..i + 1])
    requires LineOutput(lines[i], fenced).Some?
    ensures ProcessLines(fs, root, file, lines, i, visited)
            == Prepend(LineOutput(lines[i], fenced).value, ProcessLines(fs, root, file, lines, i + 1, visited))
  {
  }

  /** One line of `ProcessLines` that is an include. */
  lemma IncludeLineStep(fs: FileSystem, root: Path, file: Path, lines: seq<string>, i: nat, visited: set<Path>, fenced: bool)
    requires i < |lines| && fenced == FenceOpen(lines[..i + 1])
    ensures LineOutput(lines[i], fenced).None? ==>
              ProcessLines(fs, root, file, lines, i, visited)
              == IncludeLine(fs, root, file, lines, i, visited, IncludeTarget(file, lines[i]))
  {
  }

  /** The preprocessor as the source runs it: a loop over the lines that
      flips a fence flag, appends to a buffer, and recurses on includes with
      the shared visited set, which is passed in and handed back.  The body
      of the loop is `ProcessLine`. */
  method PreprocessMarkdown(fs: FileSystem, root: Path, file: Path, visited: set<Path>)
    returns (r: Result<string>, visitedOut: set<Path>)
    ensures Expansion(r, visitedOut) == Preprocess(fs, root, file, visited)
    decreases |fs.Keys - visited|, 0
  {
    if file in visited {
      return Err(BuildError(CircularMessage(file))), visited;
    }
    visitedOut := visited + {file};
    if file !in fs {
      return Err(SourceNotFound(PathString(file))), visitedOut;
    }
    FewerUnread(fs.Keys, visited, file);
    var content := fs[file];
    var fullContent := "";
    var inCodeBlock := false;
    var i := 0;
    ghost var goal := ProcessLines(fs, root, file, content, 0, visitedOut);
    assert Preprocess(fs, root, file, visited) == goal;
    PrependEmpty(goal);
    while i < |content|
      invariant i <= |content|
      invariant inCodeBlock == FenceOpen(content[..i])
      invariant visited + {file} <= visitedOut
      invariant goal == Prepend(fullContent, ProcessLines(fs, root, file, content, i, visitedOut))
    {
      NoMoreUnread(fs.Keys, visited + {file}, visitedOut);
      ghost var v := visitedOut;
      var piece;
      piece, inCodeBlock, visitedOut := ProcessLine(fs, root, file, content, i, inCodeBlock, visitedOut);
      if piece.Err? {
        return piece, visitedOut;
      }
      PrependPrepend(fullContent, piece.value, ProcessLines(fs, root, file, content, i + 1, visitedOut));
      fullContent := fullContent + piece.value;
      i := i + 1;
    }
    assert fullContent + "" == fullContent;
    r := Ok(fullContent);
  }

  /** The body of the loop in `PreprocessMarkdown`, for line `i`: flip the
      fence flag on a fence line, then produce the line's text, or the
      included file's, or the error that ends the loop.  It does what
      `ProcessLines` does with that line. */
  method ProcessLine(fs: FileSystem, root: Path, file: Path, lines: seq<string>, i: nat, wasFenced: bool, visited: set<Path>)
    returns (r: Result<string>, fenced: bool, visitedOut: set<Path>)
    requires i < |lines| && wasFenced == FenceOpen(lines[..i])
    ensures fenced == FenceOpen(lines[..i + 1])
    ensures visited <= visitedOut
    ensures r.Err? ==> Expansion(r, visitedOut) == ProcessLines(fs, root, file, lines, i, visited)
    ensures r.Ok? ==> ProcessLines(fs, root, file, lines, i, visited)
                      == Prepend(r.value, ProcessLines(fs, root, file, lines, i + 1, visitedOut))
    decreases |fs.Keys - visited|, 2
  {
    var line := lines[i];
    fenced := wasFenced;
    if IsFence(line) {
      fenced := !fenced;
    }
    assert fenced == FenceOpen(lines[..i + 1]) by {
      assert lines[..i + 1][..i] == lines[..i];
    }
    if !fenced && IncludeCapture(line).Some? {
      IncludeLineStep(fs, root, file, lines, i, visited, fenced);
      r, visitedOut := IncludeFile(fs, root, file, lines, i, visited);
    } else {
      var text := LineText(line, fenced);
      TextLineStep(fs, root, file, lines, i, visited, fenced);
      r, visitedOut := Ok(text), visited;
    }
  }

  /** The text of a line that is not an include outside a fence: inside a
      fence the line itself; outside, the page-break element for `!newpage`,
      the placeholder for `!toc`, and otherwise the line itself, each ended
      by a newline. */
  method LineText(line: string, fenced: bool) returns (text: string)
    requires fenced || IncludeCapture(line).None?
    ensures LineOutput(line, fenced) == Some(text)
  {
    if fenced {
      text := line + "\n";
    } else if Trim(line) == "!newpage" {
      text := PageBreakHtml;
    } else if Trim(line) == "!toc" {
      text := TocPlaceholderHtml;
    } else {
      text := line + "\n";
    }
  }

  /** The include branch of the loop body, for line `i`: join the capture to
      the including file's directory, apply the path-traversal check, then
      expand the included file with the shared visited set and end its text
      with a newline.  It does what `IncludeLine` does with that line. */
  method IncludeFile(fs: FileSystem, root: Path, file: Path, lines: seq<string>, i: nat, visited: set<Path>)
    returns (r: Result<string>, visitedOut: set<Path>)
    requires i < |lines| && IncludeCapture(lines[i]).Some?
    ensures visited <= visitedOut
    ensures r.Err? ==> Expansion(r, visitedOut) == IncludeLine(fs, root, file, lines, i, visited, IncludeTarget(file, lines[i]))
    ensures r.Ok? ==> IncludeLine(fs, root, file, lines, i, visited, IncludeTarget(file, lines[i]))
                      == Prepend(r.value, ProcessLines(fs, root, file, lines, i + 1, visitedOut))
    decreases |fs.Keys - visited|, 1
  {
    var capture := IncludeCapture(lines[i]);
    var includePath := Join(Parent(file), ParsePath(capture.value));
    if !SandboxCheck(root, includePath) {
      return Err(BuildError(UnauthorizedMessage(includePath))), visited;
    }
    var included;
    included, visitedOut := PreprocessMarkdown(fs, root, includePath, visited);
    if included.Err? {
      return included, visitedOut;
    }
    r := Ok(included.value + "\n");
  }
}
