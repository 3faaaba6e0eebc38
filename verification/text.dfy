/**
 * Character classes and the whitespace strip shared by the reader's text
 * operations. Text is a sequence of code points (`string`).
 */
module Text {

  /** Python 2's `unicode.isspace` for one character, written out as a table. */
  predicate IsSpace(c: char) {
    ('\t' <= c <= '\r') || ('\U{1c}' <= c <= ' ') || c == '\U{85}' || c == '\U{a0}'
    || c == '\U{1680}' || c == '\U{180e}' || ('\U{2000}' <= c <= '\U{200a}')
    || c == '\U{2028}' || c == '\U{2029}' || c == '\U{202f}' || c == '\U{205f}' || c == '\U{3000}'
  }

  /** What `\s` matches in a regular expression compiled without the Unicode flag. */
  predicate IsAsciiSpace(c: char) {
    c == ' ' || ('\t' <= c <= '\r')
  }

  /** The index of the first non-whitespace character of `s` at or after `i`, or `|s|`. */
  function SkipSpaces(s: string, i: nat): (k: nat)
    requires i <= |s|
    ensures i <= k <= |s|
    ensures forall m :: i <= m < k ==> IsSpace(s[m])
    ensures k == |s| || !IsSpace(s[k])
    decreases |s| - i
  {
    if i == |s| || !IsSpace(s[i]) then i else SkipSpaces(s, i + 1)
  }

  /** The index after the last non-whitespace character of `s[lo..j]`, or `lo`. */
  function SkipSpacesBack(s: string, lo: nat, j: nat): (k: nat)
    requires lo <= j <= |s|
    ensures lo <= k <= j
    ensures forall m :: k <= m < j ==> IsSpace(s[m])
    ensures k == lo || !IsSpace(s[k - 1])
    decreases j
  {
    if j == lo || !IsSpace(s[j - 1]) then j else SkipSpacesBack(s, lo, j - 1)
  }

  /** `s.lstrip()`: the suffix left after dropping leading whitespace. */
  function LStrip(s: string): (r: string)
    ensures |r| <= |s| && r == s[|s| - |r|..]
    ensures forall k :: 0 <= k < |s| - |r| ==> IsSpace(s[k])
    ensures r == [] || !IsSpace(r[0])
  {
    s[SkipSpaces(s, 0)..]
  }

  /** `s.rstrip()`: the prefix left after dropping trailing whitespace. */
  function RStrip(s: string): (r: string)
    ensures |r| <= |s| && r == s[..|r|]
    ensures forall k :: |r| <= k < |s| ==> IsSpace(s[k])
    ensures r == [] || !IsSpace(r[|r| - 1])
  {
    s[..SkipSpacesBack(s, 0, |s|)]
  }

  /** Where the stripped text starts inside `s`: the number of leading whitespace characters. */
  function StripStart(s: string): nat {
    SkipSpaces(s, 0)
  }

  /**
   * `s.strip()`, which is `s.lstrip().rstrip()`: the infix of `s` starting
   * at `StripStart(s)` with no whitespace at either end; everything cut off
   * on both sides is whitespace.
   */
  function Strip(s: string): (r: string)
    ensures StripStart(s) + |r| <= |s|
    ensures r == s[StripStart(s)..StripStart(s) + |r|]
    ensures forall k :: 0 <= k < StripStart(s) ==> IsSpace(s[k])
    ensures forall k :: StripStart(s) + |r| <= k < |s| ==> IsSpace(s[k])
    ensures r == [] || (!IsSpace(r[0]) && !IsSpace(r[|r| - 1]))
  {
    var start := SkipSpaces(s, 0);
    var end := SkipSpacesBack(s, start, |s|);
    assert start < end ==> !IsSpace(s[start]) && !IsSpace(s[end - 1]);
    s[start..end]
  }

  /** A string with no whitespace at either end is its own strip. */
  lemma StripTrimmed(s: string)
    requires s == [] || (!IsSpace(s[0]) && !IsSpace(s[|s| - 1]))
    ensures Strip(s) == s
  {
    assert SkipSpaces(s, 0) == 0;
    assert SkipSpacesBack(s, 0, |s|) == |s|;
  }

  /** Stripping twice is stripping once. */
  lemma StripIdempotent(s: string)
    ensures Strip(Strip(s)) == Strip(s)
  {
    StripTrimmed(Strip(s));
  }

  /** Scanning back over `s[a..j]` is scanning back over the same range of the suffix `s[a..]`. */
  lemma {:induction false} SkipBackShift(s: string, a: nat, j: nat)
    requires a <= j <= |s|
    ensures SkipSpacesBack(s, a, j) == a + SkipSpacesBack(s[a..], 0, j - a)
    decreases j
  {
    if j > a {
      assert s[a..][j - a - 1] == s[j - 1];
      if IsSpace(s[j - 1]) {
        SkipBackShift(s, a, j - 1);
      }
    }
  }

  /** `strip()` is `lstrip()` followed by `rstrip()`. */
  lemma StripIsRStripOfLStrip(s: string)
    ensures Strip(s) == RStrip(LStrip(s))
  {
    var start := SkipSpaces(s, 0);
    SkipBackShift(s, start, |s|);
  }

  /** A string that strips to nothing. */
  predicate IsBlank(s: string) {
    Strip(s) == []
  }

  /** A string is blank exactly when every one of its characters is whitespace. */
  lemma BlankIffAllSpace(s: string)
    ensures IsBlank(s) <==> forall k :: 0 <= k < |s| ==> IsSpace(s[k])
  {
    if !IsBlank(s) {
      var r := Strip(s);
      assert s[StripStart(s)] == r[0];
    }
  }
}
