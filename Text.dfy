/** Whitespace stripping as Python's `str.strip()` with no argument does it:
    every field the form reads is stripped before it is tested or stored. */
module Text {

  /** The characters for which Python's `str.isspace()` is true: the ASCII
      controls TAB..CR and FS..US, SPACE, NEL, NBSP and the Unicode space
      separators, line and paragraph separators. */
  predicate IsSpace(c: char)
  {
    ('\t' <= c <= '\r') || ('\U{1C}' <= c <= ' ') || c == '\U{85}' || c == '\U{A0}'
    || c == '\U{1680}' || ('\U{2000}' <= c <= '\U{200A}') || c == '\U{2028}' || c == '\U{2029}'
    || c == '\U{202F}' || c == '\U{205F}' || c == '\U{3000}'
  }

  predicate AllSpace(s: string)
  {
    forall k :: 0 <= k < |s| ==> IsSpace(s[k])
  }

  /** A string that strip() leaves as it is: empty, or not starting or ending in whitespace. */
  predicate IsStripped(s: string)
  {
    s == [] || (!IsSpace(s[0]) && !IsSpace(s[|s| - 1]))
  }

  /** `s.lstrip()`. */
  function TrimLeft(s: string): string
  {
    if s != [] && IsSpace(s[0]) then TrimLeft(s[1..]) else s
  }

  /** `s.rstrip()`. */
  function TrimRight(s: string): string
  {
    if s != [] && IsSpace(s[|s| - 1]) then TrimRight(s[..|s| - 1]) else s
  }

  /** `s.strip()`: drop the leading and the trailing whitespace. The result neither
      starts nor ends with whitespace and is no longer than `s`. */
  function Strip(s: string): (r: string)
    ensures IsStripped(r) && |r| <= |s|
  {
    var l := TrimLeft(s);
    TrimLeftRemovesSpacePrefix(s);
    TrimRightRemovesSpaceSuffix(l);
    if l == [] then TrimRight(l)
    else
      TrimRightKeepsFirst(l);
      TrimRight(l)
  }

  /** lstrip() removes a whitespace prefix, and the rest does not start with whitespace. */
  lemma {:induction false} TrimLeftRemovesSpacePrefix(s: string)
    ensures var n := |s| - |TrimLeft(s)|;
      0 <= n && TrimLeft(s) == s[n..] && AllSpace(s[..n])
    ensures TrimLeft(s) == [] || !IsSpace(TrimLeft(s)[0])
  {
    if s != [] && IsSpace(s[0]) {
      TrimLeftRemovesSpacePrefix(s[1..]);
      var n := |s| - |TrimLeft(s)|;
      assert s[1..][n - 1..] == s[n..];
      assert forall k :: 1 <= k < n ==> s[..n][k] == s[1..][..n - 1][k - 1];
    }
  }

  /** rstrip() removes a whitespace suffix, and the rest does not end in whitespace. */
  lemma {:induction false} TrimRightRemovesSpaceSuffix(s: string)
    ensures var m := |TrimRight(s)|;
      m <= |s| && TrimRight(s) == s[..m] && AllSpace(s[m..])
    ensures TrimRight(s) == [] || !IsSpace(TrimRight(s)[|TrimRight(s)| - 1])
  {
    if s != [] && IsSpace(s[|s| - 1]) {
      var init := s[..|s| - 1];
      TrimRightRemovesSpaceSuffix(init);
      var m := |TrimRight(s)|;
      assert init[..m] == s[..m];
      assert forall k :: 0 <= k < |s| - 1 - m ==> s[m..][k] == init[m..][k];
    }
  }

  /** rstrip() of a string that does not start with whitespace does not start with whitespace either. */
  lemma {:induction false} TrimRightKeepsFirst(s: string)
    requires s != [] && !IsSpace(s[0])
    ensures TrimRight(s) != [] && TrimRight(s)[0] == s[0]
  {
    if IsSpace(s[|s| - 1]) {
      TrimRightKeepsFirst(s[..|s| - 1]);
    }
  }

  /** strip() removes whitespace only, and only at the two ends. */
  lemma StripIsTrimmedSlice(s: string)
    ensures exists i, j :: 0 <= i <= j <= |s| && Strip(s) == s[i..j] && AllSpace(s[..i]) && AllSpace(s[j..])
  {
    var l := TrimLeft(s);
    TrimLeftRemovesSpacePrefix(s);
    TrimRightRemovesSpaceSuffix(l);
    var i := |s| - |l|;
    var j := i + |Strip(s)|;
    assert l[|Strip(s)|..] == s[j..];
    assert Strip(s) == s[i..j];
  }

  /** A string with no surrounding whitespace is its own strip(). */
  lemma StripOfStripped(s: string)
    requires IsStripped(s)
    ensures Strip(s) == s
  {
  }

  /** strip() is idempotent. */
  lemma StripIdempotent(s: string)
    ensures Strip(Strip(s)) == Strip(s)
  {
    StripOfStripped(Strip(s));
  }

  /** strip() yields the empty string exactly when the input is all whitespace. */
  lemma {:induction false} StripEmptyIff(s: string)
    ensures Strip(s) == [] <==> AllSpace(s)
  {
    var l := TrimLeft(s);
    TrimLeftRemovesSpacePrefix(s);
    if l != [] {
      TrimRightKeepsFirst(l);
      assert !IsSpace(s[|s| - |l|]);
    } else {
      assert s[..|s|] == s;
    }
  }
}
