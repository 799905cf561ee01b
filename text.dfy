/** Character-level text handling used by the include preprocessor: the
    whitespace class shared by `str::trim` and the regex class `\s`,
    trimming, prefix tests, and the include-directive regex
    `^\s*!include\(([^)]+)\)\s*$` written out as a capture function. */
module Text {

  datatype Option<T> = None | Some(value: T)

  /** The Unicode White_Space property, which both `char::is_whitespace`
      (behind `str::trim`) and the Unicode-mode regex class `\s` use. */
  predicate IsSpace(c: char) {
    ('\t' <= c <= '\r') || c == ' ' || c == '\U{85}' || c == '\U{A0}' ||
    c == '\U{1680}' || ('\U{2000}' <= c <= '\U{200A}') ||
    c == '\U{2028}' || c == '\U{2029}' || c == '\U{202F}' || c == '\U{205F}' ||
    c == '\U{3000}'
  }

  predicate AllSpace(s: string) {
    forall i {:trigger IsSpace(s[i])} :: 0 <= i < |s| ==> IsSpace(s[i])
  }

  /** The index of the first character of `s` at or after `i` that is not
      whitespace, or `|s|` when there is none. */
  function SkipSpace(s: string, i: nat): (k: nat)
    requires i <= |s|
    ensures i <= k <= |s|
    ensures forall j {:trigger IsSpace(s[j])} :: i <= j < k ==> IsSpace(s[j])
    ensures k < |s| ==> !IsSpace(s[k])
    decreases |s| - i
  {
    if i < |s| && IsSpace(s[i]) then SkipSpace(s, i + 1) else i
  }

  /** The index just past the last character of `s[..j]` that is not
      whitespace, or 0 when there is none. */
  function SkipSpaceBack(s: string, j: nat): (k: nat)
    requires j <= |s|
    ensures k <= j
    ensures forall m {:trigger IsSpace(s[m])} :: k <= m < j ==> IsSpace(s[m])
    ensures 0 < k ==> !IsSpace(s[k - 1])
  {
    if 0 < j && IsSpace(s[j - 1]) then SkipSpaceBack(s, j - 1) else j
  }

  /** `s` with its leading whitespace removed (`str::trim_start`): a suffix
      of `s`, everything before it whitespace. */
  function TrimStart(s: string): (r: string)
    ensures |r| <= |s|
    ensures forall j :: 0 <= j < |r| ==> r[j] == s[|s| - |r| + j]
    ensures forall j {:trigger IsSpace(s[j])} :: 0 <= j < |s| - |r| ==> IsSpace(s[j])
    ensures r == [] || !IsSpace(r[0])
  {
    s[SkipSpace(s, 0)..]
  }

  /** `s` with its trailing whitespace removed (`str::trim_end`): a prefix
      of `s`, everything after it whitespace. */
  function TrimEnd(s: string): (r: string)
    ensures |r| <= |s| && r == s[..|r|]
    ensures forall j {:trigger IsSpace(s[j])} :: |r| <= j < |s| ==> IsSpace(s[j])
    ensures r == [] || !IsSpace(r[|r| - 1])
  {
    s[..SkipSpaceBack(s, |s|)]
  }

  /** `str::trim`: the slice of `s` between its leading and its trailing
      whitespace. */
  function Trim(s: string): (r: string)
    ensures |r| <= |s|
    ensures r == [] || (!IsSpace(r[0]) && !IsSpace(r[|r| - 1]))
  {
    TrimEnd(TrimStart(s))
  }

  /** `r` is the slice of `s` starting at `k`, and everything before `k`
      and everything after the slice is whitespace. */
  predicate SpaceAround(s: string, k: nat, r: string) {
    && k + |r| <= |s| && r == s[k..k + |r|]
    && (forall j :: 0 <= j < k ==> IsSpace(s[j]))
    && (forall j :: k + |r| <= j < |s| ==> IsSpace(s[j]))
  }

  /** `Trim` cuts off only whitespace, and only at the two ends. */
  lemma TrimSlice(s: string)
    ensures exists k :: SpaceAround(s, k, Trim(s))
  {
    var t := TrimStart(s);
    var r := Trim(s);
    var k := |s| - |t|;
    assert t == s[k..];
    assert r == t[..|r|];
    assert r == s[k..k + |r|];
    assert forall j :: k + |r| <= j < |s| ==> s[j] == t[j - k];
    assert SpaceAround(s, k, r);
  }

  /** `str::starts_with`. */
  predicate HasPrefix(s: string, prefix: string) {
    |prefix| <= |s| && s[..|prefix|] == prefix
  }

  /** The index of the first occurrence of `c` in `s` at or after `i`, or
      `|s|` when there is none. */
  function FindFrom(s: string, c: char, i: nat): (k: nat)
    requires i <= |s|
    ensures i <= k <= |s|
    ensures forall j :: i <= j < k ==> s[j] != c
    ensures k < |s| ==> s[k] == c
    decreases |s| - i
  {
    if i == |s| || s[i] == c then i else FindFrom(s, c, i + 1)
  }

  const IncludeOpen: string := "!include("

  /** `pat` occurs in `s` at position `i`. */
  predicate MatchesAt(s: string, i: nat, pat: string) {
    i + |pat| <= |s| && forall j :: 0 <= j < |pat| ==> s[i + j] == pat[j]
  }

  /** `line` is `a`, the directive opening, `c`, a closing parenthesis and `b`,
      with `a` and `b` whitespace only. */
  predicate IncludeShape(line: string, a: string, c: string, b: string) {
    AllSpace(a) && AllSpace(b) && line == a + IncludeOpen + c + ")" + b
  }

  /** The first capture group of `^\s*!include\(([^)]+)\)\s*$` when the whole
      line matches, and `None` otherwise.  The capture is whatever stands
      between the parentheses, untrimmed. */
  function IncludeCapture(line: string): (r: Option<string>)
    ensures r.Some? ==> |r.value| > 0 && ')' !in r.value
    ensures r.Some? ==> exists a, b :: IncludeShape(line, a, r.value, b)
  {
    var start := SkipSpace(line, 0);
    if !MatchesAt(line, start, IncludeOpen) then None
    else
      var open := start + |IncludeOpen|;
      var close := FindFrom(line, ')', open);
      if open < close < |line| && SkipSpace(line, close + 1) == |line| then
        CaptureShape(line, start, close);
        Some(line[open..close])
      else None
  }

  lemma CaptureShape(line: string, start: nat, close: nat)
    requires start <= |line| && forall j :: 0 <= j < start ==> IsSpace(line[j])
    requires MatchesAt(line, start, IncludeOpen)
    requires start + |IncludeOpen| < close < |line| && line[close] == ')'
    requires forall j :: start + |IncludeOpen| <= j < close ==> line[j] != ')'
    requires forall j :: close < j < |line| ==> IsSpace(line[j])
    ensures ')' !in line[start + |IncludeOpen|..close]
    ensures IncludeShape(line, line[..start], line[start + |IncludeOpen|..close], line[close + 1..])
  {
    var open := start + |IncludeOpen|;
    SliceAvoids(line, open, close, ')');
    SliceAllSpace(line, 0, start);
    SliceAllSpace(line, close + 1, |line|);
    assert line[start..open] == IncludeOpen;
    assert line[close..close + 1] == ")";
    SplitAt(line, start, open, close);
  }

  /** A slice holds none of the characters its range avoids. */
  lemma SliceAvoids(s: string, i: nat, j: nat, c: char)
    requires i <= j <= |s| && forall k :: i <= k < j ==> s[k] != c
    ensures c !in s[i..j]
  {
    assert forall k :: 0 <= k < j - i ==> s[i..j][k] == s[i + k];
  }

  /** A slice whose range is whitespace is whitespace. */
  lemma SliceAllSpace(s: string, i: nat, j: nat)
    requires i <= j <= |s| && forall k :: i <= k < j ==> IsSpace(s[k])
    ensures AllSpace(s[i..j])
  {
    assert forall k :: 0 <= k < j - i ==> s[i..j][k] == s[i + k];
  }

  /** A sequence is the concatenation of its slices at four cut points. */
  lemma SplitAt<T>(s: seq<T>, i: nat, j: nat, k: nat)
    requires i <= j <= k < |s|
    ensures s == s[..i] + s[i..j] + s[j..k] + s[k..k + 1] + s[k + 1..]
  {
  }

  /** The converse of `IncludeCapture`'s postcondition: every line of the shape
      the regex describes is matched, and the capture is exactly the text
      between the parentheses. */
  lemma IncludeCaptureComplete(line: string, a: string, c: string, b: string)
    requires IncludeShape(line, a, c, b) && |c| > 0 && ')' !in c
    ensures IncludeCapture(line) == Some(c)
  {
    var open := |a| + |IncludeOpen|;
    var close := open + |c|;
    ShapeIndices(line, a, c, b);
    SkipSpacePast(line, 0, |a|);
    FindFromPast(line, ')', open, close);
    SkipSpacePast(line, close + 1, |line|);
    assert line[open..close] == c;
  }

  /** The characters of a line of the include shape, position by position. */
  lemma ShapeIndices(line: string, a: string, c: string, b: string)
    requires IncludeShape(line, a, c, b)
    ensures |line| == |a| + |IncludeOpen| + |c| + 1 + |b|
    ensures forall j :: 0 <= j < |a| ==> line[j] == a[j]
    ensures MatchesAt(line, |a|, IncludeOpen) && line[|a|] == '!'
    ensures forall j :: 0 <= j < |c| ==> line[|a| + |IncludeOpen| + j] == c[j]
    ensures line[|a| + |IncludeOpen| + |c|] == ')'
    ensures forall j :: 0 <= j < |b| ==> line[|a| + |IncludeOpen| + |c| + 1 + j] == b[j]
  {
  }

  /** `SkipSpace` stops at the first non-space. */
  lemma SkipSpacePast(s: string, i: nat, k: nat)
    requires i <= k <= |s|
    requires forall j {:trigger IsSpace(s[j])} :: i <= j < k ==> IsSpace(s[j])
    requires k < |s| ==> !IsSpace(s[k])
    ensures SkipSpace(s, i) == k
  {
  }

  /** Leading whitespace is all that `TrimStart` removes before a non-space. */
  lemma TrimStartSkipsSpace(a: string, t: string)
    requires AllSpace(a) && t != [] && !IsSpace(t[0])
    ensures TrimStart(a + t) == t
  {
    var s := a + t;
    assert forall j :: 0 <= j < |a| ==> s[j] == a[j];
    assert s[|a|] == t[0];
    SkipSpacePast(s, 0, |a|);
    assert s[|a|..] == t;
  }

  /** Trailing whitespace is all that `TrimEnd` removes after a non-space. */
  lemma TrimEndSkipsSpace(t: string, b: string)
    requires AllSpace(b) && t != [] && !IsSpace(t[|t| - 1])
    ensures TrimEnd(t + b) == t
  {
    var s := t + b;
    var k := SkipSpaceBack(s, |s|);
    assert s[|t| - 1] == t[|t| - 1];
    assert forall j :: |t| <= j < |s| ==> s[j] == b[j - |t|];
    assert k == |t|;
    assert s[..|t|] == t;
  }

  /** A matched include line trims to the directive itself. */
  lemma IncludeLineTrim(line: string)
    requires IncludeCapture(line).Some?
    ensures Trim(line) == IncludeOpen + IncludeCapture(line).value + ")"
  {
    var c := IncludeCapture(line).value;
    var a, b :| IncludeShape(line, a, c, b);
    ShapeTrim(line, a, c, b);
  }

  lemma ShapeTrim(line: string, a: string, c: string, b: string)
    requires IncludeShape(line, a, c, b)
    ensures Trim(line) == IncludeOpen + c + ")"
  {
    var d := IncludeOpen + c + ")";
    var t := d + b;
    assert line == a + t;
    assert t[0] == d[0] == IncludeOpen[0] == '!';
    TrimStartSkipsSpace(a, t);
    assert d[|d| - 1] == ')';
    TrimEndSkipsSpace(d, b);
  }

  /** `FindFrom` stops at the first occurrence. */
  lemma FindFromPast(s: string, c: char, i: nat, k: nat)
    requires i <= k <= |s|
    requires forall j :: i <= j < k ==> s[j] != c
    requires k < |s| ==> s[k] == c
    ensures FindFrom(s, c, i) == k
  {
  }
}
