/** The outline renderer `generate_toc_html` / `generate_toc_entry_html`:
    one block of markup per entry, entries in pre-order, all inside a
    wrapper with a title; nothing at all for an empty outline.  Nesting
    shows only through the per-level class of each block. */
module TocHtml {
  import opened TocOutline

  const TocHeader: string := "<div class=\"toc\">\n<div class=\"toc-title\">Table des mati\U{E8}res</div>\n<div class=\"toc-content\">"
  const TocFooter: string := "</div>\n</div>"

  predicate IsDigit(c: char) {
    '0' <= c <= '9'
  }

  /** The decimal text of `n`, as `format!("{}", n)` writes it. */
  function LevelDigits(n: nat): (r: string)
    ensures |r| > 0 && forall k :: 0 <= k < |r| ==> IsDigit(r[k])
    ensures r[0] == '0' ==> n == 0
  {
    if n < 10 then [('0' as int + n) as char]
    else LevelDigits(n / 10) + [('0' as int + n % 10) as char]
  }

  /** The number a string of decimal digits denotes. */
  function DigitsValue(s: string): nat
    requires forall k :: 0 <= k < |s| ==> IsDigit(s[k])
  {
    if s == [] then 0
    else
      var d := s[|s| - 1];
      assert IsDigit(d);
      DigitsValue(s[..|s| - 1]) * 10 + (d as int - '0' as int)
  }

  /** Reading the digits back gives the level: distinct levels get distinct
      classes. */
  lemma {:induction false} LevelDigitsValue(n: nat)
    ensures DigitsValue(LevelDigits(n)) == n
  {
    if n >= 10 {
      LevelDigitsValue(n / 10);
      var r := LevelDigits(n);
      assert r[..|r| - 1] == LevelDigits(n / 10);
    }
  }

  function ClassName(level: Level): string {
    "toc-entry toc-entry-h" + LevelDigits(level)
  }

  /** The markup of one entry, without its children. */
  function EntryBlock(h: Heading): string {
    "<div class=\"" + ClassName(h.level) + "\">\n    <span class=\"toc-entry-title\">" + h.title +
    "</span>\n    <span class=\"toc-entry-dots\"></span>\n</div>"
  }

  /** The blocks `block` gives for `xs`, one after the other. */
  function Concat<T>(block: T -> string, xs: seq<T>): string {
    if xs == [] then "" else block(xs[0]) + Concat(block, xs[1..])
  }

  /** The blocks of `hs`, one after the other. */
  function BlocksHtml(hs: seq<Heading>): string {
    Concat(EntryBlock, hs)
  }

  lemma {:induction false} ConcatAppend<T>(block: T -> string, a: seq<T>, b: seq<T>)
    ensures Concat(block, a + b) == Concat(block, a) + Concat(block, b)
  {
    if a == [] {
      assert a + b == b;
    } else {
      assert (a + b)[1..] == a[1..] + b;
      ConcatAppend(block, a[1..], b);
    }
  }

  lemma BlocksAppend(a: seq<Heading>, b: seq<Heading>)
    ensures BlocksHtml(a + b) == BlocksHtml(a) + BlocksHtml(b)
  {
    ConcatAppend(EntryBlock, a, b);
  }

  /** The block of the k-th heading stands between the blocks of the
      headings before it and those of the headings after it. */
  lemma BlocksSplit(hs: seq<Heading>, k: nat)
    requires k < |hs|
    ensures BlocksHtml(hs) == BlocksHtml(hs[..k]) + EntryBlock(hs[k]) + BlocksHtml(hs[k + 1..])
  {
    var before := hs[..k];
    var rest := hs[k..];
    assert hs == before + rest;
    BlocksAppend(before, rest);
    assert rest[0] == hs[k];
    assert rest[1..] == hs[k + 1..];
  }

  /** Rendering one more entry of a forest appends that entry's markup. */
  lemma RenderStep(prefix: seq<TocEntry>, entry: TocEntry)
    ensures BlocksHtml(FlattenForest(prefix)) + BlocksHtml(FlattenEntry(entry))
            == BlocksHtml(FlattenForest(prefix + [entry]))
  {
    FlattenAppend(prefix, [entry]);
    FlattenSingle(entry);
    BlocksAppend(FlattenForest(prefix), FlattenForest([entry]));
  }

  /** An entry's markup is its own block followed by its children's. */
  lemma EntryBlocks(entry: TocEntry)
    ensures BlocksHtml(FlattenEntry(entry))
            == EntryBlock(Heading(entry.level, entry.title)) + BlocksHtml(FlattenForest(entry.children))
  {
    var s := FlattenEntry(entry);
    assert s[0] == Heading(entry.level, entry.title);
    assert s[1..] == FlattenForest(entry.children);
  }

  /** `generate_toc_entry_html`: appends the entry's block and then, one
      child after the other, the children's markup; the buffer's earlier
      text is kept. */
  method GenerateTocEntryHtml(html: string, entry: TocEntry) returns (out: string)
    ensures out == html + BlocksHtml(FlattenEntry(entry))
    decreases entry
  {
    var block := EntryBlock(Heading(entry.level, entry.title));
    out := html + block;
    for k := 0 to |entry.children|
      invariant out == html + block + BlocksHtml(FlattenForest(entry.children[..k]))
    {
      var child := entry.children[k];
      out := GenerateTocEntryHtml(out, child);
      assert entry.children[..k + 1] == entry.children[..k] + [child];
      RenderStep(entry.children[..k], child);
      AppendAssoc(html + block, BlocksHtml(FlattenForest(entry.children[..k])), BlocksHtml(FlattenEntry(child)));
    }
    assert entry.children[..|entry.children|] == entry.children;
    EntryBlocks(entry);
    AppendAssoc(html, block, BlocksHtml(FlattenForest(entry.children)));
  }

  /** `generate_toc_html`: the empty string for no entries, otherwise the
      wrapper around the blocks of every entry in pre-order. */
  method GenerateTocHtml(entries: seq<TocEntry>) returns (html: string)
    ensures entries == [] ==> html == ""
    ensures entries != [] ==> html == TocHeader + BlocksHtml(FlattenForest(entries)) + TocFooter
  {
    if entries == [] {
      return "";
    }
    html := TocHeader;
    for k := 0 to |entries|
      invariant html == TocHeader + BlocksHtml(FlattenForest(entries[..k]))
    {
      var entry := entries[k];
      html := GenerateTocEntryHtml(html, entry);
      assert entries[..k + 1] == entries[..k] + [entry];
      RenderStep(entries[..k], entry);
      AppendAssoc(TocHeader, BlocksHtml(FlattenForest(entries[..k])), BlocksHtml(FlattenEntry(entry)));
    }
    assert entries[..|entries|] == entries;
    html := html + TocFooter;
  }

  /** The last two steps of `generate_toc_from_html`: nest the headings,
      then render the outline.  The markup lists every heading once, in
      document order, and is empty exactly when there are no headings. */
  method GenerateToc(entries: seq<TocEntry>) returns (html: string)
    ensures html == "" <==> entries == []
    ensures entries != [] ==> html == TocHeader + BlocksHtml(FlattenForest(entries)) + TocFooter
  {
    var hierarchy := BuildTocHierarchy(entries);
    assert hierarchy == [] <==> entries == [];
    html := GenerateTocHtml(hierarchy);
  }
}
