/** The outline builder `build_toc_hierarchy`: turns the headings of the
    rendered document, in document order, into a forest of nested entries
    with a stack of open entries.

    Its specification has two halves.  Reading the forest back in pre-order
    (`FlattenForest`) gives the input again, and for input entries without
    children the forest is valid: every child is deeper than its parent and
    the levels of consecutive siblings, and of consecutive roots, never
    increase.  `OutlineUnique` shows that these two facts fix the forest
    completely. */
module TocOutline {

  /** A heading level, kept in a `u8` by the source. */
  type Level = x: int | 0 <= x < 256

  /** `TocEntry`: a heading and the entries nested under it. */
  datatype TocEntry = TocEntry(level: Level, title: string, children: seq<TocEntry>)

  /** A heading without its nesting. */
  datatype Heading = Heading(level: Level, title: string)

  function Last<T>(s: seq<T>): T
    requires |s| > 0
  {
    s[|s| - 1]
  }

  /** The headings of an entry and its descendants, in pre-order. */
  function FlattenEntry(e: TocEntry): (r: seq<Heading>)
    ensures |r| > 0 && r[0] == Heading(e.level, e.title)
    decreases e, 1
  {
    [Heading(e.level, e.title)] + FlattenForest(e.children)
  }

  /** The headings of a forest, in pre-order. */
  function FlattenForest(f: seq<TocEntry>): (r: seq<Heading>)
    ensures |r| >= |f|
    decreases f, 0
  {
    if f == [] then [] else FlattenEntry(f[0]) + FlattenForest(f[1..])
  }

  lemma {:induction false} FlattenAppend(a: seq<TocEntry>, b: seq<TocEntry>)
    ensures FlattenForest(a + b) == FlattenForest(a) + FlattenForest(b)
  {
    if a == [] {
      assert a + b == b;
    } else {
      assert (a + b)[0] == a[0];
      assert (a + b)[1..] == a[1..] + b;
      FlattenAppend(a[1..], b);
    }
  }

  lemma FlattenSingle(e: TocEntry)
    ensures FlattenForest([e]) == FlattenEntry(e)
  {
    assert [e][1..] == [];
  }

  /** Appending a child to an entry appends its headings to the entry's. */
  lemma FlattenAddChild(e: TocEntry, c: TocEntry)
    ensures FlattenEntry(e.(children := e.children + [c])) == FlattenEntry(e) + FlattenEntry(c)
  {
    FlattenAppend(e.children, [c]);
    FlattenSingle(c);
  }

  /** Entries as the heading extractor produces them: without children. */
  predicate Flat(entries: seq<TocEntry>) {
    forall k :: 0 <= k < |entries| ==> entries[k].children == []
  }

  /** Every child is deeper than its parent, and the children form a valid
      forest. */
  predicate ValidEntry(e: TocEntry)
    decreases e, 1
  {
    && (forall k :: 0 <= k < |e.children| ==> e.children[k].level > e.level)
    && ValidForest(e.children)
  }

  /** Valid entries whose levels never increase from one to the next. */
  predicate ValidForest(f: seq<TocEntry>)
    decreases f, 0
  {
    && (forall k :: 0 <= k < |f| ==> ValidEntry(f[k]))
    && (forall k :: 0 < k < |f| ==> f[k].level <= f[k - 1].level)
  }

  /** In a valid entry every descendant is deeper than the entry. */
  lemma {:induction false} DescendantsDeeper(f: seq<TocEntry>, level: int)
    requires forall k :: 0 <= k < |f| ==> ValidEntry(f[k]) && f[k].level > level
    ensures forall k :: 0 <= k < |FlattenForest(f)| ==> FlattenForest(f)[k].level > level
    decreases f
  {
    if f != [] {
      assert ValidForest(f[0].children);
      DescendantsDeeper(f[0].children, f[0].level);
      DescendantsDeeper(f[1..], level);
      var head := FlattenEntry(f[0]);
      forall k | 0 <= k < |FlattenForest(f)|
        ensures FlattenForest(f)[k].level > level
      {
        if k >= |head| {
          assert FlattenForest(f)[k] == FlattenForest(f[1..])[k - |head|];
        } else if k > 0 {
          assert FlattenForest(f)[k] == FlattenForest(f[0].children)[k - 1];
        }
      }
    }
  }

  /** In the pre-order of a valid forest the first tree is the first heading
      followed by the longest run of deeper headings. */
  lemma FirstSubtreeIsRun(f: seq<TocEntry>)
    requires ValidForest(f) && f != []
    ensures var s := FlattenForest(f);
            var n := |FlattenEntry(f[0])|;
            && s[..n] == FlattenEntry(f[0])
            && (forall k :: 0 < k < n ==> s[k].level > s[0].level)
            && (n < |s| ==> s[n].level <= s[0].level)
  {
    var s := FlattenForest(f);
    var head := FlattenEntry(f[0]);
    assert ValidEntry(f[0]) && ValidForest(f[0].children);
    DescendantsDeeper(f[0].children, f[0].level);
    forall k | 0 < k < |head|
      ensures s[k].level > s[0].level
    {
      assert s[k] == FlattenForest(f[0].children)[k - 1];
    }
    if |head| < |s| {
      assert s[|head|] == FlattenForest(f[1..])[0];
      assert f[1..][0] == f[1];
    }
  }

  /** Two valid forests with the same pre-order are the same forest. */
  lemma {:induction false} OutlineUnique(f: seq<TocEntry>, g: seq<TocEntry>)
    requires ValidForest(f) && ValidForest(g)
    requires FlattenForest(f) == FlattenForest(g)
    ensures f == g
    decreases |FlattenForest(f)|
  {
    if f != [] && g != [] {
      var s := FlattenForest(f);
      FirstSubtreeIsRun(f);
      FirstSubtreeIsRun(g);
      var n := |FlattenEntry(f[0])|;
      assert n == |FlattenEntry(g[0])|;
      assert FlattenEntry(f[0]) == FlattenEntry(g[0]);
      assert FlattenEntry(f[0])[1..] == FlattenForest(f[0].children);
      assert FlattenEntry(g[0])[1..] == FlattenForest(g[0].children);
      OutlineUnique(f[0].children, g[0].children);
      assert s[n..] == FlattenForest(f[1..]) == FlattenForest(g[1..]);
      assert ValidForest(f[1..]) && ValidForest(g[1..]);
      OutlineUnique(f[1..], g[1..]);
      assert f == [f[0]] + f[1..] && g == [g[0]] + g[1..];
    }
  }

  /** What holds of the finished roots and the stack of open entries between
      two steps of the builder: the finished roots form a valid forest, each
      open entry is valid, the stack deepens strictly from bottom to top, the
      last finished root is no deeper than the bottom of the stack, and the
      last child of an open entry is no shallower than the open entry above
      it. */
  predicate StackShape(result: seq<TocEntry>, stack: seq<TocEntry>) {
    && ValidForest(result)
    && (forall k :: 0 <= k < |stack| ==> ValidEntry(stack[k]))
    && (forall k :: 0 < k < |stack| ==> stack[k - 1].level < stack[k].level)
    && (result != [] && stack != [] ==> Last(result).level >= stack[0].level)
    && (forall k :: 0 < k < |stack| && stack[k - 1].children != [] ==> Last(stack[k - 1].children).level >= stack[k].level)
  }

  /** The entry that would become a sibling of a node placed at the top (the
      top's last child, or the last root when the stack is empty) is no
      shallower than `level`. */
  predicate Bound(result: seq<TocEntry>, stack: seq<TocEntry>, level: int) {
    if stack != [] then Last(stack).children != [] ==> Last(Last(stack).children).level >= level
    else result != [] ==> Last(result).level >= level
  }

  /** The state between two input entries: the top was pushed last and has
      no children yet, and nothing is finished before the first push. */
  predicate Settled(result: seq<TocEntry>, stack: seq<TocEntry>) {
    && (stack != [] ==> Last(stack).children == [])
    && (stack == [] ==> result == [])
  }

  /** One pop of the builder: the top leaves the stack and becomes the last
      child of the entry below it, or the last finished root. */
  function Pop(result: seq<TocEntry>, stack: seq<TocEntry>): (r: (seq<TocEntry>, seq<TocEntry>))
    requires stack != []
    ensures |r.1| == |stack| - 1
  {
    var parent := Last(stack);
    var rest := stack[..|stack| - 1];
    if rest == [] then (result + [parent], rest)
    else
      var grandparent := Last(rest);
      (result, rest[..|rest| - 1] + [grandparent.(children := grandparent.children + [parent])])
  }

  lemma PopFlatten(result: seq<TocEntry>, stack: seq<TocEntry>)
    requires stack != []
    ensures FlattenForest(Pop(result, stack).0) + FlattenForest(Pop(result, stack).1) == FlattenForest(result) + FlattenForest(stack)
  {
    var parent := Last(stack);
    var rest := stack[..|stack| - 1];
    assert stack == rest + [parent];
    FlattenAppend(rest, [parent]);
    if rest == [] {
      FlattenAppend(result, [parent]);
    } else {
      var grandparent := Last(rest);
      var below := rest[..|rest| - 1];
      assert rest == below + [grandparent];
      HangFlatten(below, grandparent, parent);
      AppendAssoc(FlattenForest(result), FlattenForest(rest), FlattenForest([parent]));
    }
  }

  /** Hanging `parent` under the last open entry moves its headings to the
      end of that entry's. */
  lemma HangFlatten(below: seq<TocEntry>, grandparent: TocEntry, parent: TocEntry)
    ensures FlattenForest(below + [grandparent.(children := grandparent.children + [parent])])
            == FlattenForest(below + [grandparent]) + FlattenForest([parent])
  {
    var grown := grandparent.(children := grandparent.children + [parent]);
    FlattenAppend(below, [grown]);
    FlattenSingle(grown);
    FlattenAddChild(grandparent, parent);
    FlattenAppend(below, [grandparent]);
    FlattenSingle(grandparent);
    FlattenSingle(parent);
    AppendAssoc(FlattenForest(below), FlattenEntry(grandparent), FlattenEntry(parent));
  }

  /** A valid entry no deeper than the last root extends a valid forest. */
  lemma AppendRootValid(f: seq<TocEntry>, e: TocEntry)
    requires ValidForest(f) && ValidEntry(e)
    requires f != [] ==> Last(f).level >= e.level
    ensures ValidForest(f + [e])
  {
    var g := f + [e];
    assert forall k :: 0 <= k < |f| ==> g[k] == f[k];
    assert g[|f|] == e;
  }

  /** A valid child deeper than the entry and no deeper than its last child
      keeps the entry valid. */
  lemma AppendChildValid(parent: TocEntry, e: TocEntry)
    requires ValidEntry(parent) && ValidEntry(e) && e.level > parent.level
    requires parent.children != [] ==> Last(parent.children).level >= e.level
    ensures ValidEntry(parent.(children := parent.children + [e]))
  {
    AppendRootValid(parent.children, e);
    var cs := parent.children + [e];
    assert forall k :: 0 <= k < |parent.children| ==> cs[k] == parent.children[k];
  }

  /** A pop keeps the shape, and whatever is popped bounds the next sibling. */
  lemma PopShape(result: seq<TocEntry>, stack: seq<TocEntry>)
    requires stack != [] && StackShape(result, stack)
    ensures StackShape(Pop(result, stack).0, Pop(result, stack).1)
    ensures Bound(Pop(result, stack).0, Pop(result, stack).1, Last(stack).level)
  {
    var parent := Last(stack);
    var rest := stack[..|stack| - 1];
    if rest == [] {
      AppendRootValid(result, parent);
    } else {
      PopIntoParentShape(result, stack);
    }
  }

  lemma PopIntoParentShape(result: seq<TocEntry>, stack: seq<TocEntry>)
    requires |stack| >= 2 && StackShape(result, stack)
    ensures StackShape(Pop(result, stack).0, Pop(result, stack).1)
  {
    var n := |stack|;
    var parent := stack[n - 1];
    var grandparent := stack[n - 2];
    assert ValidEntry(parent) && ValidEntry(grandparent);
    assert grandparent.level < parent.level;
    AppendChildValid(grandparent, parent);
    var grown := grandparent.(children := grandparent.children + [parent]);
    var s := stack[..n - 2] + [grown];
    assert Pop(result, stack).1 == s;
    assert forall k :: 0 <= k < n - 2 ==> s[k] == stack[k];
    assert s[n - 2].level == stack[n - 2].level;
  }

  /** Pushing a childless entry deeper than the top keeps the shape, when the
      would-be sibling is no shallower than it. */
  lemma PushShape(result: seq<TocEntry>, stack: seq<TocEntry>, e: TocEntry)
    requires e.children == []
    requires stack == [] || Last(stack).level < e.level
    requires StackShape(result, stack) && Bound(result, stack, e.level)
    ensures StackShape(result, stack + [e])
  {
    var s := stack + [e];
    var n := |stack|;
    assert forall k :: 0 <= k < n ==> s[k] == stack[k];
    assert s[n] == e && Last(s) == e;
    assert ValidEntry(e) by {
      assert ValidForest(e.children);
    }
    assert forall k :: 0 <= k < |s| ==> ValidEntry(s[k]);
    forall k | 0 < k < |s|
      ensures s[k - 1].level < s[k].level
    {
      if k == n {
        assert s[k - 1] == Last(stack);
      } else {
        assert s[k - 1] == stack[k - 1] && s[k] == stack[k];
      }
    }
    assert result != [] ==> Last(result).level >= s[0].level by {
      if n == 0 {
        assert s[0] == e;
      } else {
        assert s[0] == stack[0];
      }
    }
    forall k | 0 < k < |s| && s[k - 1].children != []
      ensures Last(s[k - 1].children).level >= s[k].level
    {
      if k == n {
        assert s[k - 1] == Last(stack);
      } else {
        assert s[k - 1] == stack[k - 1] && s[k] == stack[k];
      }
    }
  }

  /** The push that ends each step of the builder keeps both invariants. */
  lemma PushStep(result: seq<TocEntry>, stack: seq<TocEntry>, entries: seq<TocEntry>, i: nat)
    requires i < |entries|
    requires FlattenForest(result) + FlattenForest(stack) == FlattenForest(entries[..i])
    requires stack == [] || Last(stack).level < entries[i].level
    requires Flat(entries) ==> StackShape(result, stack) && Bound(result, stack, entries[i].level)
    ensures FlattenForest(result) + FlattenForest(stack + [entries[i]]) == FlattenForest(entries[..i + 1])
    ensures Flat(entries) ==> StackShape(result, stack + [entries[i]]) && Settled(result, stack + [entries[i]])
  {
    var entry := entries[i];
    if Flat(entries) {
      assert entry.children == [];
      PushShape(result, stack, entry);
    }
    PushFlatten(FlattenForest(result), stack, entries[..i], entry);
    assert entries[..i + 1] == entries[..i] + [entry];
  }

  lemma PushFlatten(done: seq<Heading>, stack: seq<TocEntry>, prefix: seq<TocEntry>, entry: TocEntry)
    requires done + FlattenForest(stack) == FlattenForest(prefix)
    ensures done + FlattenForest(stack + [entry]) == FlattenForest(prefix + [entry])
  {
    FlattenAppend(stack, [entry]);
    FlattenAppend(prefix, [entry]);
    AppendAssoc(done, FlattenForest(stack), FlattenForest([entry]));
  }

  lemma AppendAssoc<T>(a: seq<T>, b: seq<T>, c: seq<T>)
    ensures a + (b + c) == (a + b) + c
  {
  }

  /** One pop, as both loops of the builder perform it. */
  method PopOnto(result: seq<TocEntry>, stack: seq<TocEntry>) returns (result': seq<TocEntry>, stack': seq<TocEntry>)
    requires stack != []
    ensures (result', stack') == Pop(result, stack)
  {
    result', stack' := result, stack;
    var parent := stack'[|stack'| - 1];
    stack' := stack'[..|stack'| - 1];
    if stack' != [] {
      var grandparent := stack'[|stack'| - 1];
      stack' := stack'[..|stack'| - 1] + [grandparent.(children := grandparent.children + [parent])];
    } else {
      result' := result' + [parent];
    }
  }

  /** `build_toc_hierarchy`: for each entry, pop every open entry at least as
      deep as it, hanging each popped entry under the one below it (or making
      it a root), then push the entry; finally pop everything. */
  method BuildTocHierarchy(entries: seq<TocEntry>) returns (result: seq<TocEntry>)
    ensures FlattenForest(result) == FlattenForest(entries)
    ensures Flat(entries) ==> ValidForest(result)
  {
    result := [];
    var stack: seq<TocEntry> := [];
    for i := 0 to |entries|
      invariant FlattenForest(result) + FlattenForest(stack) == FlattenForest(entries[..i])
      invariant Flat(entries) ==> StackShape(result, stack) && Settled(result, stack)
    {
      var entry := entries[i];
      while stack != [] && Last(stack).level >= entry.level
        invariant FlattenForest(result) + FlattenForest(stack) == FlattenForest(entries[..i])
        invariant Flat(entries) ==> StackShape(result, stack) && Bound(result, stack, entry.level)
        decreases |stack|
      {
        PopFlatten(result, stack);
        if Flat(entries) {
          PopShape(result, stack);
        }
        result, stack := PopOnto(result, stack);
      }
      PushStep(result, stack, entries, i);
      stack := stack + [entry];
    }
    assert entries[..|entries|] == entries;
    while stack != []
      invariant FlattenForest(result) + FlattenForest(stack) == FlattenForest(entries)
      invariant Flat(entries) ==> StackShape(result, stack)
      decreases |stack|
    {
      PopFlatten(result, stack);
      if Flat(entries) {
        PopShape(result, stack);
      }
      result, stack := PopOnto(result, stack);
    }
    assert result + [] == result;
  }

  /** The headings of childless entries are the entries' own, in order. */
  lemma {:induction false} FlattenOfFlat(entries: seq<TocEntry>)
    requires Flat(entries)
    ensures |FlattenForest(entries)| == |entries|
    ensures forall k :: 0 <= k < |entries| ==> FlattenForest(entries)[k] == Heading(entries[k].level, entries[k].title)
  {
    if entries != [] {
      FlattenOfFlat(entries[1..]);
      assert FlattenEntry(entries[0]) == [Heading(entries[0].level, entries[0].title)];
    }
  }

  /** Levels 1, 2, 3, 2 give one root with two children, the first of which
      has one child. */
  lemma NestedExample(t1: string, t2: string, t3: string, t4: string, r: seq<TocEntry>)
    requires ValidForest(r)
    requires FlattenForest(r) == FlattenForest([TocEntry(1, t1, []), TocEntry(2, t2, []), TocEntry(3, t3, []), TocEntry(2, t4, [])])
    ensures r == [TocEntry(1, t1, [TocEntry(2, t2, [TocEntry(3, t3, [])]), TocEntry(2, t4, [])])]
  {
    NestedInputFlatten(t1, t2, t3, t4);
    NestedOutlineFlatten(t1, t2, t3, t4);
    NestedOutlineValid(t1, t2, t3, t4);
    OutlineUnique(r, [TocEntry(1, t1, [TocEntry(2, t2, [TocEntry(3, t3, [])]), TocEntry(2, t4, [])])]);
  }

  lemma NestedInputFlatten(t1: string, t2: string, t3: string, t4: string)
    ensures FlattenForest([TocEntry(1, t1, []), TocEntry(2, t2, []), TocEntry(3, t3, []), TocEntry(2, t4, [])])
            == [Heading(1, t1), Heading(2, t2), Heading(3, t3), Heading(2, t4)]
  {
    var input := [TocEntry(1, t1, []), TocEntry(2, t2, []), TocEntry(3, t3, []), TocEntry(2, t4, [])];
    FlattenOfFlat(input);
  }

  lemma NestedOutlineFlatten(t1: string, t2: string, t3: string, t4: string)
    ensures FlattenForest([TocEntry(1, t1, [TocEntry(2, t2, [TocEntry(3, t3, [])]), TocEntry(2, t4, [])])])
            == [Heading(1, t1), Heading(2, t2), Heading(3, t3), Heading(2, t4)]
  {
    var c := TocEntry(3, t3, []);
    var b := TocEntry(2, t2, [c]);
    var d := TocEntry(2, t4, []);
    var a := TocEntry(1, t1, [b, d]);
    FlattenOfFlat([c]);
    FlattenOfFlat([d]);
    assert FlattenEntry(b) == [Heading(2, t2), Heading(3, t3)];
    assert [b, d][1..] == [d];
    assert FlattenForest([b, d]) == [Heading(2, t2), Heading(3, t3), Heading(2, t4)];
    FlattenSingle(a);
  }

  lemma NestedOutlineValid(t1: string, t2: string, t3: string, t4: string)
    ensures ValidForest([TocEntry(1, t1, [TocEntry(2, t2, [TocEntry(3, t3, [])]), TocEntry(2, t4, [])])])
  {
    var c := TocEntry(3, t3, []);
    var b := TocEntry(2, t2, [c]);
    var d := TocEntry(2, t4, []);
    var a := TocEntry(1, t1, [b, d]);
    assert ValidEntry(c) && ValidEntry(d);
    assert ValidForest([c]);
    assert ValidEntry(b);
    assert ValidForest([b, d]);
    assert ValidEntry(a);
  }

  /** Levels 3, 3, 2 give three roots: the builder never hangs an entry under
      a deeper one, so without a shallower heading first nothing nests. */
  lemma ShallowerLaterExample(t1: string, t2: string, t3: string, r: seq<TocEntry>)
    requires ValidForest(r)
    requires FlattenForest(r) == FlattenForest([TocEntry(3, t1, []), TocEntry(3, t2, []), TocEntry(2, t3, [])])
    ensures r == [TocEntry(3, t1, []), TocEntry(3, t2, []), TocEntry(2, t3, [])]
  {
    var input := [TocEntry(3, t1, []), TocEntry(3, t2, []), TocEntry(2, t3, [])];
    FlattenOfFlat(input);
    assert ValidEntry(input[0]) && ValidEntry(input[1]) && ValidEntry(input[2]);
    assert ValidForest(input);
    OutlineUnique(r, input);
  }
}
