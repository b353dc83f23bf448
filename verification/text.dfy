/** White space and trimming. The API trims with .NET's `string.Trim` and
    tests names with `string.IsNullOrWhiteSpace`, both built on
    `char.IsWhiteSpace`; the browser client trims with ECMAScript's
    `String.prototype.trim`. The two runtimes disagree on two characters,
    so the dialect is explicit. */
module Text {
  import opened Optional

  /** Whose notion of white space applies. */
  datatype Dialect = DotNet | EcmaScript

  /** Unicode general category Zs (space separators). */
  predicate IsSpaceSeparator(c: char) {
    var n := c as int;
    n == 0x20 || n == 0xA0 || n == 0x1680 || 0x2000 <= n <= 0x200A
    || n == 0x202F || n == 0x205F || n == 0x3000
  }

  /** .NET: Zs, Zl, Zp, U+0009..U+000D and U+0085.
      ECMAScript: Zs, U+0009..U+000D, U+2028, U+2029 and U+FEFF. */
  predicate IsSpace(d: Dialect, c: char) {
    var n := c as int;
    || IsSpaceSeparator(c)
    || 0x09 <= n <= 0x0D
    || n == 0x2028
    || n == 0x2029
    || (if d == DotNet then n == 0x85 else n == 0xFEFF)
  }

  /** Every character of `s` at an index in `[lo, hi)` is white space. */
  predicate SpaceBetween(d: Dialect, s: string, lo: int, hi: int)
    requires 0 <= lo && hi <= |s|
  {
    forall k :: lo <= k < hi ==> IsSpace(d, s[k])
  }

  predicate AllSpace(d: Dialect, s: string) {
    SpaceBetween(d, s, 0, |s|)
  }

  /** `string.IsNullOrWhiteSpace`: absent, empty, or white space only. */
  predicate IsNullOrWhiteSpace(s: Option<string>) {
    s.None? || AllSpace(DotNet, s.value)
  }

  /** `s[i..j]` is what remains of `s` once white space is stripped from
      both ends: everything cut off is white space, and a non-empty
      remainder neither starts nor ends with white space. */
  ghost predicate StripBounds(d: Dialect, s: string, i: int, j: int) {
    && 0 <= i <= j <= |s|
    && SpaceBetween(d, s, 0, i)
    && SpaceBetween(d, s, j, |s|)
    && (i < j ==> !IsSpace(d, s[i]) && !IsSpace(d, s[j - 1]))
  }

  /** `r` is `s` stripped of white space at both ends. This is the
      reference against which `Trim` is proved. */
  ghost predicate StrippedTo(d: Dialect, s: string, r: string) {
    exists i, j :: StripBounds(d, s, i, j) && r == s[i..j]
  }

  /** Strips leading white space. */
  function TrimStart(d: Dialect, s: string): (r: string)
    ensures |r| <= |s| && r == s[|s| - |r|..]
    ensures SpaceBetween(d, s, 0, |s| - |r|)
    ensures r == [] || !IsSpace(d, r[0])
  {
    if |s| > 0 && IsSpace(d, s[0]) then
      var r := TrimStart(d, s[1..]);
      assert s[1..][|s| - 1 - |r|..] == s[|s| - |r|..];
      assert forall k :: 1 <= k < |s| ==> s[k] == s[1..][k - 1];
      r
    else s
  }

  /** Strips trailing white space. */
  function TrimEnd(d: Dialect, s: string): (r: string)
    ensures |r| <= |s| && r == s[..|r|]
    ensures SpaceBetween(d, s, |r|, |s|)
    ensures r == [] || !IsSpace(d, r[|r| - 1])
  {
    if |s| > 0 && IsSpace(d, s[|s| - 1]) then
      var r := TrimEnd(d, s[..|s| - 1]);
      assert forall k :: 0 <= k < |s| - 1 ==> s[k] == s[..|s| - 1][k];
      r
    else s
  }

  /** `string.Trim()` / `String.prototype.trim()`. */
  function Trim(d: Dialect, s: string): (r: string)
    ensures StrippedTo(d, s, r)
    ensures r == [] <==> AllSpace(d, s)
  {
    var a := TrimStart(d, s);
    var r := TrimEnd(d, a);
    TrimSlices(d, s, a, r);
    StripBoundsEmpty(d, s, |s| - |a|, |s| - |a| + |r|);
    r
  }

  /** The two halves of `Trim` compose: given what `TrimStart` promises of
      `a` and `TrimEnd` of `r`, `r` is the slice of `s` between the two
      stripped runs of white space. */
  lemma TrimSlices(d: Dialect, s: string, a: string, r: string)
    requires |a| <= |s| && a == s[|s| - |a|..] && SpaceBetween(d, s, 0, |s| - |a|)
    requires a == [] || !IsSpace(d, a[0])
    requires |r| <= |a| && r == a[..|r|] && SpaceBetween(d, a, |r|, |a|)
    requires r == [] || !IsSpace(d, r[|r| - 1])
    ensures StripBounds(d, s, |s| - |a|, |s| - |a| + |r|)
    ensures r == s[|s| - |a|..|s| - |a| + |r|]
  {
    var i := |s| - |a|;
    var j := i + |r|;
    assert a == s[i..];
    assert r == s[i..j];
    forall k | j <= k < |s| ensures IsSpace(d, s[k]) {
      assert s[k] == a[k - i];
    }
    if i < j {
      assert s[i] == r[0] && s[j - 1] == r[|r| - 1];
    }
  }

  /** A stripping leaves nothing exactly when the string is all white
      space. */
  lemma StripBoundsEmpty(d: Dialect, s: string, i: int, j: int)
    requires StripBounds(d, s, i, j)
    ensures i == j <==> AllSpace(d, s)
  {
    if i == j {
      forall k | 0 <= k < |s| ensures IsSpace(d, s[k]) {
        if k < i { assert SpaceBetween(d, s, 0, i); } else { assert SpaceBetween(d, s, j, |s|); }
      }
    }
  }

  /** Two ways of stripping the same string cut at the same places. */
  lemma {:induction false} StripBoundsAgree(d: Dialect, s: string, i: int, j: int, i': int, j': int)
    requires StripBounds(d, s, i, j) && StripBounds(d, s, i', j')
    ensures s[i..j] == s[i'..j']
  {
  }

  /** Stripping has one answer: anything meeting `StrippedTo` is `Trim`'s
      result, so `Trim` is exactly the specified operation. */
  lemma {:induction false} StrippedToUnique(d: Dialect, s: string, r: string)
    requires StrippedTo(d, s, r)
    ensures r == Trim(d, s)
  {
    var t := Trim(d, s);
    var i, j :| StripBounds(d, s, i, j) && r == s[i..j];
    var i', j' :| StripBounds(d, s, i', j') && t == s[i'..j'];
    StripBoundsAgree(d, s, i, j, i', j');
  }

  /** Trimming twice is trimming once. */
  lemma {:induction false} TrimIdempotent(d: Dialect, s: string)
    ensures Trim(d, Trim(d, s)) == Trim(d, s)
  {
    var t := Trim(d, s);
    var i, j :| StripBounds(d, s, i, j) && t == s[i..j];
    assert StripBounds(d, t, 0, |t|);
    assert t == t[0..|t|];
    StrippedToUnique(d, t, t);
  }

  /** `IsNullOrWhiteSpace` holds of a present string exactly when trimming
      it leaves nothing. */
  lemma BlankIffTrimsToEmpty(s: string)
    ensures IsNullOrWhiteSpace(Some(s)) <==> Trim(DotNet, s) == []
  {
  }
}
