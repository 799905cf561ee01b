# PdfBuilder document assembly, modelled in Dafny

PdfBuilder turns a Markdown book into HTML and PDF. This project models the
part of `src/builder.rs` that assembles the document. It has two pieces:

- **The include preprocessor** (`preprocess_markdown`). It merges a tree of
  Markdown files into one text. Outside fenced code blocks it replaces
  `!include(path)` by the included file's expansion, `!newpage` by a
  page-break element and `!toc` by a placeholder comment. It applies a path
  traversal check to every include. It rejects any path it visits twice
  within one build.
- **The table of contents** (`build_toc_hierarchy`, `generate_toc_html`,
  `generate_toc_entry_html`). A stack algorithm nests the document's headings
  into a forest, and a renderer writes the forest out as markup.

Files:

| file | module | what it holds |
|---|---|---|
| `text.dfy` | `Text` | whitespace, trimming, and the include regex as a capture function |
| `paths.dfy` | `Paths` | lexical paths: parse, parent, join, `starts_with`, `path_clean::clean`, the sandbox check |
| `errors.dfy` | `Errors` | the two `AppError` variants the preprocessor returns, and `Result` |
| `preprocess.dfy` | `Preprocessor` | the preprocessor as a specification function, and the loop that implements it |
| `expansion.dfy` | `IncludeExpansion` | what the preprocessor computes, stated without its visited set; the sandbox and error properties |
| `toc_outline.dfy` | `TocOutline` | the outline builder, its specification by pre-order and validity, and uniqueness |
| `toc_html.dfy` | `TocHtml` | the renderer |

The file system is a map from path to the file's lines. A path that is not
a key cannot be read. The visited set is passed in and handed back, where the
source passes a `&mut HashSet`.

Two behaviours of the code are worth stating outright:

- Headings at levels 3, 3, 2 give three roots, not two
  (`TocOutline.ShallowerLaterExample`). The builder pops every open entry at
  least as deep as the new one, so the second level-3 heading closes the
  first, and the level-2 heading closes the second.
- Diamond-shaped include graphs, where two files include the same third
  file, are not allowed. The code never removes a path from the visited set,
  so a file included twice fails the second time, in a diamond as well
  (`IncludeExpansion.RepeatedFileFails`).

## Model

| member | source | states |
|---|---|---|
| `Text.TrimStart` | src/builder.rs:230 | the result is a suffix of the input; everything removed is whitespace; it does not start with whitespace |
| `Text.TrimEnd` | src/builder.rs:230 | the result is a prefix of the input; everything removed is whitespace; it does not end with whitespace |
| `Text.Trim` | src/builder.rs:255 | the trimmed line neither starts nor ends with whitespace and is no longer than the line |
| `Text.TrimSlice` | src/builder.rs:230 | the trimmed line is a slice of the line with only whitespace before and after it, so with `Text.Trim` it is the line with exactly its leading and trailing whitespace cut off |
| `Text.FindFrom` | src/builder.rs:224 | the index of the first occurrence of the character at or after the start position, or the length when there is none |
| `Text.IncludeCapture` | src/builder.rs:224 | a capture is non-empty and has no `)`, and the line is whitespace, `!include(`, the capture, `)`, whitespace |
| `Text.IncludeCaptureComplete` | src/builder.rs:235-237 | every line of that shape matches, and the capture is exactly the text between the parentheses |
| `Text.IncludeLineTrim` | src/builder.rs:235-237 | a matched include line trims to the directive itself |
| `Paths.Segments` | src/builder.rs:239 | the components of a path's text are non-empty and contain no separator |
| `Paths.ParsePath` | src/builder.rs:239 | a parsed path is well formed and is absolute exactly when its text starts with `/` |
| `Paths.ParsePathString` | src/builder.rs:243 | printing a well-formed path and parsing the text back gives the same path |
| `Paths.Parent` | src/builder.rs:239 | the parent is a leading part of the path's components, and it is absolute when the path is and the parent is not empty |
| `Paths.ParentComponents` | src/builder.rs:239 | the parent's components, as `Path::components` yields them (every `.` skipped except a leading one of a relative path), are the path's without its last one, and the parent ends in no skipped `.`; a path with no component, such as ``, `/` or `/.`, has the empty relative parent |
| `Paths.DotParent` | src/builder.rs:239-240 | for any plain names, the parent of `sub/./a` is `sub`, not `sub/.`; so from `sub/main` the include `./a` names `sub/./a`, and from `sub/./a` the include `main` names `sub/main` again |
| `Paths.Join` | src/builder.rs:240 | an absolute right operand replaces the base; a relative one is appended to it |
| `Paths.CleanComps` | src/builder.rs:243 | the cleaned components contain no `.` or empty part, no `..` under the root, `..` only as a leading run, and are no more than the input; what cleaning does to each next component is fixed by the rule lemmas below |
| `Paths.Clean` | src/builder.rs:243 | cleaning keeps whether the path is absolute and yields a clean path, whose components are those `CleanComps` gives |
| `Paths.CleanIdempotent` | src/builder.rs:243 | cleaning a cleaned path changes nothing |
| `Paths.CleanFixesClean` | src/builder.rs:243 | a path that is already clean is left unchanged |
| `Paths.SandboxCheck` | src/builder.rs:243-246 | the check passes exactly when the include path is relative, or it is absolute and under the root once cleaned |
| `Paths.CleanName` | src/builder.rs:243 | cleaning keeps a plain name (not empty, `.` or `..`) that follows |
| `Paths.CleanCancel` | src/builder.rs:243 | a `..` cancels the plain name it follows once cleaned |
| `Paths.CleanDot` | src/builder.rs:243 | a `.` (or an empty component) is dropped and changes nothing of what was cleaned before it |
| `Paths.CleanUpCancels` | src/builder.rs:243 | a `..` after a cleaned prefix that ends in a plain name removes that name |
| `Paths.CleanRootUp` | src/builder.rs:243 | a `..` at the root of a rooted path is dropped: `/..` cleans to `/` |
| `Paths.CleanLeadingUp` | src/builder.rs:243 | a `..` after a relative prefix that cleans to nothing but `..` is kept: `../..` stays as it is |
| `Paths.CleanUpCases` | src/builder.rs:243 | every cleaned prefix ends in a plain name, or is empty in a rooted path, or is a run of `..` in a relative path; so with `CleanName` and `CleanDot` the rules above give the cleaned result for every next component, and fix cleaning on every input |
| `Paths.DotInsideKept` | src/builder.rs:243-246 | for any two different plain names, `/etc/./x` cleans to `/etc/x` and so fails the check under the root `/x` |
| `Paths.CleanClimbTwo` | src/builder.rs:243 | three plain names followed by `..`, `..` and a plain name clean to the first name and the last |
| `Paths.RelativeEscapeAccepted` | src/builder.rs:243-246 | for any plain names, the relative `../secret` passes the check under the root `/home/book` although the file it names lies outside that root |
| `Paths.AbsoluteEscapeRejected` | src/builder.rs:723-742 | for any plain names, `../../secret` included from `/tmp/tests/traversal/main.md` fails the check under the root `/tmp/tests/traversal` |
| `Preprocessor.Classify` | src/builder.rs:235-264 | a line is an include exactly when the regex matches, `!newpage` or `!toc` exactly when it trims to that, and a fence line is never a directive |
| `Preprocessor.DirectivesDisjoint` | src/builder.rs:230-258 | an include line, `!newpage`, `!toc` and a fence line are four different kinds of line |
| `Preprocessor.LineOutput` | src/builder.rs:234-268 | a fenced line or a fence line is copied with a newline; `!newpage` and `!toc` give the page break and the placeholder; only an include line has no text of its own |
| `Preprocessor.Preprocess` | src/builder.rs:215-223 | the file is added to the visited set, which only grows; success means the file was not visited before and every newly visited path is readable |
| `Preprocessor.ProcessLines` | src/builder.rs:229-270 | the visited set only grows, and on success every newly visited path is readable |
| `Preprocessor.IncludeLine` | src/builder.rs:237-253 | an include line's expansion only adds to the visited set, and on success every newly visited path is readable |
| `Preprocessor.ProcessLine` | src/builder.rs:229-268 | one pass of the loop body flips the fence flag on a fence line, and its text followed by the remaining lines' expansion is the expansion from this line on; an error is the specification's error |
| `Preprocessor.LineText` | src/builder.rs:254-268 | a line inside a fence, or one that is not an include, gives the text the line classification assigns it: the line and a newline inside a fence, the page break for `!newpage`, the placeholder for `!toc`, otherwise the line and a newline |
| `Preprocessor.IncludeFile` | src/builder.rs:235-253 | the include branch joins the capture to the file's directory, applies the sandbox check and expands the file; its text followed by the remaining lines' expansion, or its error, is what the specification gives for the include line |
| `Preprocessor.PreprocessMarkdown` | src/builder.rs:215-271 | the loop with its fence flag and buffer returns the same result and visited set as the specification function |
| `IncludeExpansion.Expand` | src/builder.rs:251-253 | an expansion exists only for a readable file, and it opens that file first |
| `IncludeExpansion.Opened` | src/builder.rs:216-223 | a file's expansion exists exactly when its lines' does, and opens the file first |
| `IncludeExpansion.VisitedAgree` | src/builder.rs:216-218 | a path already visited fails, and its expansion, which opens it again, is not fresh |
| `IncludeExpansion.ReadableAgree` | src/builder.rs:216-271 | for a readable file not yet visited, the build agrees with the pre-order expansion |
| `IncludeExpansion.PreprocessIsExpansion` | src/builder.rs:215-271 | the build succeeds exactly when the pre-order expansion exists and opens no file twice nor one visited before; its text is then the expansion's, and exactly the opened files are added to the visited set |
| `IncludeExpansion.LinesAreExpansion` | src/builder.rs:229-270 | the same correspondence for the remaining lines of one file |
| `IncludeExpansion.IncludeIsExpansion` | src/builder.rs:235-253 | the same correspondence for a remaining run that starts with an include line |
| `IncludeExpansion.RepeatedFileFails` | src/builder.rs:216-218 | a build whose pre-order expansion exists but opens some file twice fails: two files that include the same third file (a diamond), or one file included twice |
| `IncludeExpansion.CycleFails` | src/builder.rs:216-218 | a build started from any file on an include cycle, each of whose includes is outside a fence and passes the sandbox check, fails, whatever was visited before |
| `IncludeExpansion.SelfIncludeFails` | src/builder.rs:216-218 | a file with an include of itself outside a fence fails to build |
| `IncludeExpansion.CycleCircular` | src/builder.rs:700-710 | along a cycle of distinct files, none visited, in which each file's first include names the next, the build of the first file fails with exactly the circular-dependency error naming that file |
| `IncludeExpansion.DotCycleCircular` | src/builder.rs:216-218 | for any plain names, when `sub/main` starts with `!include(./a)` and `sub/./a` starts with `!include(main)`, building `sub/main` fails with exactly `Circular dependency detected: 'sub/main'` |
| `IncludeExpansion.FirstIncludePassesUp` | src/builder.rs:237-253 | when the build of the file named by a file's first include fails, with that file visited, the file's own build fails with the same error and visited set |
| `IncludeExpansion.IncludedPathsPassCheck` | src/builder.rs:243-251 | every path a build visits, apart from the file it starts from, passed the sandbox check |
| `IncludeExpansion.LinePathsPassCheck` | src/builder.rs:243-251 | every path visited while expanding the remaining lines passed the sandbox check |
| `IncludeExpansion.IncludePathsPassCheck` | src/builder.rs:243-251 | every path visited through one include line passed the sandbox check |
| `IncludeExpansion.AbsoluteBuildConfined` | src/builder.rs:239-251 | in a build started from an absolute file path that has a component other than `.`, under a root other than `/`, every file read after the starting one lies under the root once cleaned |
| `IncludeExpansion.AbsoluteLinesConfined` | src/builder.rs:239-251 | the same for the remaining lines of an absolute file |
| `IncludeExpansion.AbsoluteIncludeConfined` | src/builder.rs:239-251 | an absolute include from an absolute file only reads files under the root once cleaned |
| `IncludeExpansion.ErrorsExplained` | src/builder.rs:216-251 | every error names its cause: a `SourceNotFound` carries the text of an unreadable visited path; a `BuildError` is the circular-dependency message for a visited path or the unauthorized-access message for an include path the sandbox check rejects |
| `IncludeExpansion.LineErrorsExplained` | src/builder.rs:229-253 | the same for the errors of the remaining lines of a file |
| `IncludeExpansion.IncludeErrorsExplained` | src/builder.rs:243-253 | the error of an include line is explained in the same way: a `SourceNotFound` carries the text of an unreadable visited path, a `BuildError` names a visited path or a rejected include |
| `IncludeExpansion.IncludeFails` | src/builder.rs:216-253 | the converse, for one include line: a target the sandbox check rejects gives the unauthorized-access error naming it and leaves the visited set as it was; a visited target gives the circular-dependency error naming it; an unreadable one is added to the visited set and gives `SourceNotFound` with its text; an error of the included file comes up unchanged |
| `IncludeExpansion.TextLinesPassErrorsUp` | src/builder.rs:229-268 | lines that only contribute text neither fail nor visit anything: when the lines after such a run fail, the lines from its start fail with the same error and visited set |
| `IncludeExpansion.FirstIncludeFails` | src/builder.rs:229-253 | when the first include of a file not yet visited fails, the file's build fails with that include's error and visited set; so, with `IncludeFails`, a file whose first include names a missing file or a path the check rejects fails with `SourceNotFound` or the unauthorized-access error, the outcomes the tests at src/builder.rs:713-720 and src/builder.rs:723-742 expect |
| `IncludeExpansion.PlainLinesVerbatim` | src/builder.rs:261-267 | lines without directives come out one by one, each ended by a newline, and visit nothing |
| `TocOutline.FlattenEntry` | src/builder.rs:188-192 | an entry's pre-order starts with its own heading |
| `TocOutline.FlattenForest` | src/builder.rs:188-192 | a forest has at least as many headings as roots |
| `TocOutline.FirstSubtreeIsRun` | src/builder.rs:343-351 | in a valid forest the first tree is the first heading and the longest run of deeper headings after it |
| `TocOutline.OutlineUnique` | src/builder.rs:337-369 | two valid forests with the same pre-order are equal, so pre-order and validity fix the builder's result |
| `TocOutline.PopShape` | src/builder.rs:347-353 | a pop keeps the stack's shape, and the popped entry bounds the level of the next sibling |
| `TocOutline.PushShape` | src/builder.rs:356 | pushing a childless entry deeper than the top keeps the stack's shape |
| `TocOutline.Pop` | src/builder.rs:347-353 | one pop takes exactly one entry off the stack |
| `TocOutline.PopFlatten` | src/builder.rs:347-353 | a pop moves an entry without changing the pre-order of finished roots followed by the stack |
| `TocOutline.PopOnto` | src/builder.rs:347-353 | one pop hangs the top entry under the entry below it, or makes it the last root when it was alone |
| `TocOutline.PushStep` | src/builder.rs:356 | pushing the next entry extends the pre-order by that entry and keeps the stack's shape |
| `TocOutline.BuildTocHierarchy` | src/builder.rs:337-369 | the forest's pre-order is the input's; for childless input every child is deeper than its parent and sibling and root levels never increase |
| `TocOutline.NestedExample` | src/builder.rs:794-810 | levels 1, 2, 3, 2 give one root with two children, the first of which has one child |
| `TocOutline.ShallowerLaterExample` | src/builder.rs:343-346 | levels 3, 3, 2 give three roots |
| `TocHtml.LevelDigits` | src/builder.rs:389 | the level is written as decimal digits without a leading zero |
| `TocHtml.LevelDigitsValue` | src/builder.rs:389 | reading the digits back gives the level |
| `TocHtml.BlocksSplit` | src/builder.rs:399-402 | each heading's block stands between the blocks of the headings before it and those after it |
| `TocHtml.GenerateTocEntryHtml` | src/builder.rs:388-403 | appends to the buffer the blocks of the entry and its descendants in pre-order, and keeps the earlier text |
| `TocHtml.GenerateTocHtml` | src/builder.rs:371-386 | nothing for no entries; otherwise the header, the blocks of every entry in pre-order, and the footer |
| `TocHtml.GenerateToc` | src/builder.rs:330-334 | the markup is empty exactly when there are no headings, and otherwise lists every heading once, in document order |

## Left out

- I/O: reading a file is a lookup in a map from path to lines. `content.lines()` is taken as already done, so line endings and `\r` are not modelled.
- Real path resolution: a relative path and an absolute path naming the same file are different keys. The current directory, symbolic links and `..` resolved by the operating system are not modelled. Windows paths are not modelled. The project root, which the source takes from `env::current_dir`, is taken as already absolute and normalized: `Paths.StartsWith` compares its components as written, where `Path::starts_with` would also skip a `.` inside it.
- The visited set holds parsed paths. The source holds the path's text. A parsed path keeps every component of its text, `.` included, and `Paths.Parent` returns a leading part of it as `Path::parent` does, so each included path is built the same way in both. Texts that differ only in repeated separators or a trailing separator, such as `a//b.md` and `a/b.md`, parse to one path: the model treats them as one visited path where the source treats them as two. For the same reason the `SourceNotFound`, circular-dependency and unauthorized-access messages carry the printed parsed path (`a/b.md`) where the source prints the text as joined (`a//b.md`), and an include with a trailing separator such as `a.md/` reads `a.md` in the model, where the operating system's read of `a.md/` fails.
- `IncludeExpansion.AbsoluteBuildConfined`: promised only for a starting file with a component other than `.` and a root other than `/`. Every absolute path lies under the root `/`, so the second condition leaves out no case where the sandbox check could matter. The parent of `/` or `/.` is the empty relative path, so the includes of such a file are relative and the source confines them no more than the model does.
- The progress message printed for each file, and the regex compilation error, which cannot occur for the fixed pattern.
- `path_clean::clean` returns `.` or `/` for an empty result. The model keeps the empty component list, which `join` and `starts_with` treat the same way.
- The error type keeps only the two error variants the preprocessor can return.
- `run_build`, `build_html`, `generate_toc_from_html` (HTML parsing, heading extraction, section renaming), the PDF and browser code, `init_project`, `copy_assets_optimized`, the built-in theme CSS and `src/main.rs` are not part of this model.
- `TocOutline.BuildTocHierarchy`: validity is promised only for entries without children, which is what the only caller passes.
- `TocHtml.GenerateTocEntryHtml`: the buffer is a value passed in and handed back, where the source appends to a `&mut String`.
- Titles are inserted into the markup without escaping, as in the source. The model states nothing about HTML well-formedness.
