/**
 * `short_project_description`: a blank description becomes the empty
 * string; otherwise the substitution `\A(.{N}[^\n\r]*).*\z` with flag `m`
 * (so `.` also matches line breaks) keeps the first N characters and the
 * rest of the line they end on, appends "...", and the result is stripped.
 * A description shorter than N characters does not match and is only
 * stripped.
 */
module ProjectDescription {
  import opened Wrappers

  /** The helper's default `length`. */
  const DefaultLength: nat := 255

  /** Unicode White_Space, the class `[[:space:]]` that ActiveSupport's `blank?` matches. */
  predicate IsBlankChar(c: char)
  {
    || ('\t' <= c <= '\r')
    || c == ' '
    || c == '\U{85}'
    || c == '\U{A0}'
    || c == '\U{1680}'
    || ('\U{2000}' <= c <= '\U{200A}')
    || c == '\U{2028}'
    || c == '\U{2029}'
    || c == '\U{202F}'
    || c == '\U{205F}'
    || c == '\U{3000}'
  }

  /** `blank?` on a string: empty or made of blank characters only. */
  predicate IsBlank(s: string)
  {
    forall i :: 0 <= i < |s| ==> IsBlankChar(s[i])
  }

  /** What `String#strip` removes: NUL, tab, line feed, vertical tab, form feed, carriage return, space. */
  predicate IsStripSpace(c: char)
  {
    c == '\0' || ('\t' <= c <= '\r') || c == ' '
  }

  predicate AllStripSpace(s: string)
  {
    forall i :: 0 <= i < |s| ==> IsStripSpace(s[i])
  }

  /** The characters excluded by `[^\n\r]`. */
  predicate IsLineBreak(c: char)
  {
    c == '\n' || c == '\r'
  }

  /**
   * `k` is where the captured group of the substitution ends for `s` and
   * `n`: at least `n` characters in, no line break between `n` and `k`, and
   * `k` is the end of `s` or sits on a line break.
   */
  predicate IsLineCut(s: string, n: nat, k: nat)
  {
    && n <= k <= |s|
    && (forall j :: n <= j < k ==> !IsLineBreak(s[j]))
    && (k == |s| || IsLineBreak(s[k]))
  }

  /** There is only one place to cut. */
  lemma LineCutIsUnique(s: string, n: nat, k1: nat, k2: nat)
    requires IsLineCut(s, n, k1) && IsLineCut(s, n, k2)
    ensures k1 == k2
  {
  }

  /** Length of the longest prefix of `t` without a line break: the greedy `[^\n\r]*`. */
  function LineRun(t: string): (k: nat)
    ensures k <= |t|
    ensures forall j :: 0 <= j < k ==> !IsLineBreak(t[j])
    ensures k == |t| || IsLineBreak(t[k])
    decreases |t|
  {
    if t == [] || IsLineBreak(t[0]) then 0 else 1 + LineRun(t[1..])
  }

  /**
   * The substitution `gsub(/\A(.{n}[^\n\r]*).*\z/m, '\1...')`: a text of at
   * least `n` characters is cut at its line cut and gets "..." appended; a
   * shorter text does not match and is left as it is.
   */
  function EllipsizeAfter(s: string, n: nat): (r: string)
    ensures |s| < n ==> r == s
    ensures |s| >= n ==> |r| >= 3 && IsLineCut(s, n, |r| - 3) && r == s[..|r| - 3] + "..."
  {
    if |s| < n then s else s[..n + LineRun(s[n..])] + "..."
  }

  /** `lstrip`: drops the leading strip-space characters, and only those. */
  function LStrip(s: string): (r: string)
    ensures |r| <= |s| && r == s[|s| - |r|..]
    ensures AllStripSpace(s[..|s| - |r|])
    ensures r == [] || !IsStripSpace(r[0])
    decreases |s|
  {
    if s != [] && IsStripSpace(s[0]) then
      var r := LStrip(s[1..]);
      assert s[..|s| - |r|] == [s[0]] + s[1..][..|s| - 1 - |r|];
      r
    else
      s
  }

  /** `rstrip`: drops the trailing strip-space characters, and only those. */
  function RStrip(s: string): (r: string)
    ensures |r| <= |s| && r == s[..|r|]
    ensures AllStripSpace(s[|r|..])
    ensures r == [] || !IsStripSpace(r[|r| - 1])
    decreases |s|
  {
    if s != [] && IsStripSpace(s[|s| - 1]) then
      var r := RStrip(s[..|s| - 1]);
      assert s[|r|..] == s[..|s| - 1][|r|..] + [s[|s| - 1]];
      r
    else
      s
  }

  /**
   * `strip`: the result is a stretch of `s` with only strip-space outside
   * it, and it neither starts nor ends with strip-space.
   */
  function Strip(s: string): (r: string)
    ensures |r| <= |s|
    ensures exists i :: (0 <= i <= |s| - |r| && s[i..i + |r|] == r
                         && AllStripSpace(s[..i]) && AllStripSpace(s[i + |r|..]))
    ensures r == [] || (!IsStripSpace(r[0]) && !IsStripSpace(r[|r| - 1]))
  {
    var l := LStrip(s);
    var r := RStrip(l);
    StripStretch(s, l, r);
    r
  }

  /** The stretch kept by `rstrip` after `lstrip` has only strip-space around it. */
  lemma StripStretch(s: string, l: string, r: string)
    requires |l| <= |s| && l == s[|s| - |l|..] && AllStripSpace(s[..|s| - |l|])
    requires |r| <= |l| && r == l[..|r|] && AllStripSpace(l[|r|..])
    ensures var i := |s| - |l|;
      && 0 <= i <= |s| - |r| && s[i..i + |r|] == r
      && AllStripSpace(s[..i]) && AllStripSpace(s[i + |r|..])
  {
    var i := |s| - |l|;
    assert s[i + |r|..] == l[|r|..];
  }

  /**
   * short_project_description: "" for a missing or blank description;
   * otherwise the stripped result of the substitution, which for a text of
   * at least `length` characters ends in "..." and for a shorter text is
   * the text stripped.
   */
  function ShortProjectDescription(description: Option<string>, length: nat): (r: string)
    ensures description.None? || IsBlank(description.value) ==> r == ""
    ensures description.Some? && !IsBlank(description.value) && |description.value| < length
      ==> r == Strip(description.value)
    ensures description.Some? && !IsBlank(description.value) && |description.value| >= length
      ==> |r| >= 3 && r[|r| - 3..] == "..."
    ensures description.Some? ==> |r| <= |description.value| + 3
    ensures r == [] || (!IsStripSpace(r[0]) && !IsStripSpace(r[|r| - 1]))
  {
    if description.None? || IsBlank(description.value) then ""
    else
      var s := description.value;
      var e := EllipsizeAfter(s, length);
      if |s| >= length then
        var kept := e[..|e| - 3];
        assert e == kept + "...";
        StripEllipsized(kept);
        var r := Strip(e);
        assert r == LStrip(kept) + "...";
        assert r[|r| - 3..] == "...";
        r
      else
        Strip(e)
  }

  /**
   * With the default `length` of 255: a non-blank description shorter than
   * that is only stripped, and a longer one is cut at its line cut.
   */
  lemma DefaultLengthDescription(s: string, k: nat)
    requires !IsBlank(s)
    ensures |s| < DefaultLength ==> ShortProjectDescription(Some(s), DefaultLength) == Strip(s)
    ensures IsLineCut(s, DefaultLength, k)
      ==> ShortProjectDescription(Some(s), DefaultLength) == LStrip(s[..k]) + "..."
  {
    if IsLineCut(s, DefaultLength, k) {
      ShortDescriptionOfLong(s, DefaultLength, k);
    }
  }

  /** Stripping a text that ends in "..." only strips its front. */
  lemma StripEllipsized(x: string)
    ensures Strip(x + "...") == LStrip(x) + "..."
  {
    LStripEllipsized(x);
    var y := LStrip(x) + "...";
    assert !IsStripSpace(y[|y| - 1]);
  }

  lemma {:induction false} LStripEllipsized(x: string)
    ensures LStrip(x + "...") == LStrip(x) + "..."
    decreases |x|
  {
    if x == [] {
      assert !IsStripSpace(("" + "...")[0]);
    } else if IsStripSpace(x[0]) {
      assert (x + "...")[1..] == x[1..] + "...";
      LStripEllipsized(x[1..]);
    } else {
      assert (x + "...")[0] == x[0];
    }
  }

  /**
   * A non-blank description of at least `length` characters gives the text
   * up to its line cut, leading strip-space removed, followed by "...".
   */
  lemma ShortDescriptionOfLong(s: string, length: nat, k: nat)
    requires !IsBlank(s)
    requires IsLineCut(s, length, k)
    ensures ShortProjectDescription(Some(s), length) == LStrip(s[..k]) + "..."
  {
    var e := EllipsizeAfter(s, length);
    LineCutIsUnique(s, length, k, |e| - 3);
    assert e == s[..k] + "...";
    StripEllipsized(s[..k]);
  }
}
