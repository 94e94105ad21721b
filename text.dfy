/** Python's `str.strip()` with no argument, on strings of Unicode code points.
    The registration form and the language detector both use it to decide
    whether an input is empty. */
module Text {

  /** The code points for which Python's `str.isspace()` holds: the ASCII
      controls TAB..CR and FS..US, SPACE, NEL, NO-BREAK SPACE and the
      Unicode space separators and line/paragraph separators. */
  predicate IsSpace(c: char) {
    || '\U{09}' <= c <= '\U{0D}'
    || '\U{1C}' <= c <= '\U{20}'
    || c == '\U{85}'
    || c == '\U{A0}'
    || c == '\U{1680}'
    || '\U{2000}' <= c <= '\U{200A}'
    || c == '\U{2028}'
    || c == '\U{2029}'
    || c == '\U{202F}'
    || c == '\U{205F}'
    || c == '\U{3000}'
  }

  /** Below U+0080 the whitespace characters are exactly the ten ASCII ones:
      space, TAB, LF, CR, VT, FF and the four separators FS, GS, RS, US. */
  lemma AsciiSpaces(c: char)
    requires c < '\U{80}'
    ensures IsSpace(c) <==> c in " \t\n\r\U{0B}\U{0C}\U{1C}\U{1D}\U{1E}\U{1F}"
  {
  }

  /** Every character of `s` is whitespace (so "" is blank). */
  predicate IsBlank(s: string) {
    s == [] || (IsSpace(s[0]) && IsBlank(s[1..]))
  }

  /** `IsBlank` is "every character is whitespace". */
  lemma {:induction false} BlankIsAllSpace(s: string)
    ensures IsBlank(s) <==> forall k :: 0 <= k < |s| ==> IsSpace(s[k])
  {
    if s != [] {
      BlankIsAllSpace(s[1..]);
      assert forall k :: 1 <= k < |s| ==> s[k] == s[1..][k - 1];
    }
  }

  /** A concatenation is blank exactly when both parts are. */
  lemma {:induction false} BlankConcat(a: string, b: string)
    ensures IsBlank(a + b) <==> IsBlank(a) && IsBlank(b)
  {
    if a == [] {
      assert a + b == b;
    } else {
      assert (a + b)[1..] == a[1..] + b;
      BlankConcat(a[1..], b);
    }
  }

  /** `s` neither starts nor ends with whitespace. */
  predicate Unpadded(s: string) {
    s == [] || (!IsSpace(s[0]) && !IsSpace(s[|s| - 1]))
  }

  /** `s` without its leading whitespace (`str.lstrip()`): a suffix of `s`
      that does not start with whitespace; what was cut off is blank, and
      nothing is left exactly when `s` is blank. */
  function StripStart(s: string): (r: string)
    ensures |r| <= |s| && r == s[|s| - |r|..]
    ensures r == [] || !IsSpace(r[0])
    ensures IsBlank(s[..|s| - |r|])
    ensures r == [] <==> IsBlank(s)
  {
    if s != [] && IsSpace(s[0]) then
      var r := StripStart(s[1..]);
      var cut := s[..|s| - |r|];
      assert cut[0] == s[0] && cut[1..] == s[1..][..|s| - 1 - |r|];
      assert IsBlank(cut);
      assert IsBlank(s) == IsBlank(s[1..]);
      r
    else
      s
  }

  /** `s` without its trailing whitespace (`str.rstrip()`): a prefix of `s`
      that does not end with whitespace; what was cut off is blank, and
      nothing is left exactly when `s` is blank. */
  function StripEnd(s: string): (r: string)
    ensures |r| <= |s| && r == s[..|r|]
    ensures r == [] || !IsSpace(r[|r| - 1])
    ensures IsBlank(s[|r|..])
    ensures r == [] <==> IsBlank(s)
  {
    if s == [] then s
    else
      var init, last := s[..|s| - 1], s[|s| - 1];
      assert s == init + [last];
      BlankConcat(init, [last]);
      if IsSpace(last) then
        var r := StripEnd(init);
        assert s[|r|..] == init[|r|..] + [last];
        BlankConcat(init[|r|..], [last]);
        r
      else
        s
  }

  /** `str.strip()`: `s` without leading and trailing whitespace. The result is
      unpadded, and it is empty exactly when `s` is blank. */
  function Strip(s: string): (r: string)
    ensures |r| <= |s|
    ensures Unpadded(r)
    ensures r == [] <==> IsBlank(s)
  {
    var t := StripStart(s);
    var r := StripEnd(t);
    assert r != [] ==> r[0] == t[0];
    r
  }

  /** A blank prefix cut from `s`, then a blank suffix cut from what is left,
      leaves one slice of `s` with blank text on either side. */
  lemma CutBothEnds(s: string, t: string, r: string) returns (i: nat, j: nat)
    requires |t| <= |s| && t == s[|s| - |t|..] && IsBlank(s[..|s| - |t|])
    requires |r| <= |t| && r == t[..|r|] && IsBlank(t[|r|..])
    ensures i <= j <= |s| && r == s[i..j] && IsBlank(s[..i]) && IsBlank(s[j..])
  {
    i, j := |s| - |t|, |s| - |t| + |r|;
    assert t[|r|..] == s[j..];
  }

  /** `strip` removes a blank block at each end and nothing else: the result
      is one slice `s[i..j]` of the input, and what lies either side of it is
      blank. */
  lemma StripIsSlice(s: string) returns (i: nat, j: nat)
    ensures i <= j <= |s| && Strip(s) == s[i..j]
    ensures IsBlank(s[..i]) && IsBlank(s[j..])
  {
    i, j := CutBothEnds(s, StripStart(s), Strip(s));
  }

  /** An unpadded string is its own strip. */
  lemma StripUnpadded(s: string)
    requires Unpadded(s)
    ensures Strip(s) == s
  {
  }

  /** Stripping twice is stripping once. */
  lemma StripIdempotent(s: string)
    ensures Strip(Strip(s)) == Strip(s)
  {
    StripUnpadded(Strip(s));
  }
}
