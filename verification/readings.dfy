/**
 * `stripContentReadings`: the regular-expression substitution that deletes
 * furigana readings written as `《…》`. The pattern is `《[^》]+》`: an opening
 * bracket, at least one character other than the closing bracket, then the
 * closing bracket. Substitution takes the leftmost match, resumes after it,
 * and keeps every character that is not part of a match.
 */
module Readings {

  const Open: char := '《'
  const Close: char := '》'

  /** The index of the first closing bracket in `s`, or `|s|` when there is none. */
  function FirstClose(s: string): (k: nat)
    ensures k <= |s|
    ensures k < |s| ==> s[k] == Close
    ensures forall j :: 0 <= j < k ==> s[j] != Close
  {
    if s == [] then 0
    else if s[0] == Close then 0
    else 1 + FirstClose(s[1..])
  }

  /** Whether the pattern matches at the start of `s`; if so, the match is `s[..FirstClose(s[1..]) + 2]`. */
  predicate ReadingAtStart(s: string) {
    |s| > 0 && s[0] == Open && 1 <= FirstClose(s[1..]) < |s| - 1
  }

  /** `a` is a subsequence of `b`: `b` with some characters deleted. */
  predicate Subsequence(a: string, b: string)
    decreases |b|
  {
    a == [] || (b != [] && (Subsequence(a, b[1..]) || (a[0] == b[0] && Subsequence(a[1..], b[1..]))))
  }

  lemma {:induction false} SubsequenceMembership(a: string, b: string, c: char)
    requires Subsequence(a, b) && c in a
    ensures c in b
    decreases |b|
  {
    if Subsequence(a, b[1..]) {
      SubsequenceMembership(a, b[1..], c);
    } else if c != a[0] {
      SubsequenceMembership(a[1..], b[1..], c);
    }
  }

  lemma {:induction false} SubsequenceOfSuffix(a: string, b: string, j: nat)
    requires j <= |b| && Subsequence(a, b[j..])
    ensures Subsequence(a, b)
    decreases j
  {
    if j > 0 {
      assert b[j - 1..][1..] == b[j..];
      SubsequenceOfSuffix(a, b, j - 1);
    }
  }

  /**
   * `re.sub(u'《[^》]+》', u'', s)`. The result is a subsequence of `s`: only
   * characters of deleted readings are gone, the rest keep their order.
   */
  function StripContentReadings(s: string): (r: string)
    ensures Subsequence(r, s)
    decreases |s|
  {
    if s == [] then []
    else if ReadingAtStart(s) then
      var rest := s[FirstClose(s[1..]) + 2..];
      var r := StripContentReadings(rest);
      SubsequenceOfSuffix(r, s, FirstClose(s[1..]) + 2);
      r
    else
      var r := [s[0]] + StripContentReadings(s[1..]);
      assert r[1..] == StripContentReadings(s[1..]);
      r
  }

  /** Text without an opening bracket is left unchanged. */
  lemma {:induction false} NoOpenUnchanged(s: string)
    requires Open !in s
    ensures StripContentReadings(s) == s
  {
    if s != [] {
      NoOpenUnchanged(s[1..]);
    }
  }

  /** An empty reading `《》` is not a match and survives. */
  lemma EmptyReadingSurvives(t: string)
    ensures StripContentReadings([Open, Close] + t) == [Open, Close] + StripContentReadings(t)
  {
    var s := [Open, Close] + t;
    assert FirstClose(s[1..]) == 0;
    assert s[1..][1..] == t;
  }

  /**
   * A reading `《x》` (x non-empty, without `》`) after text with no opening
   * bracket is deleted, and the text before it is kept as is.
   */
  lemma {:induction false} ReadingRemoved(a: string, x: string, b: string)
    requires Open !in a
    requires x != [] && Close !in x
    ensures StripContentReadings(a + [Open] + x + [Close] + b) == a + StripContentReadings(b)
    decreases |a|
  {
    var s := a + [Open] + x + [Close] + b;
    if a == [] {
      assert s[1..] == x + [Close] + b;
      FirstCloseAfter(x, b);
      assert s[|x| + 2..] == b;
    } else {
      assert s[1..] == a[1..] + [Open] + x + [Close] + b;
      ReadingRemoved(a[1..], x, b);
    }
  }

  /** Text with no opening bracket in front of the rest is kept, whatever the rest holds. */
  lemma {:induction false} PrefixKept(a: string, t: string)
    requires Open !in a
    ensures StripContentReadings(a + t) == a + StripContentReadings(t)
    decreases |a|
  {
    if a == [] {
      assert a + t == t;
    } else {
      assert !ReadingAtStart(a + t);
      assert (a + t)[1..] == a[1..] + t;
      PrefixKept(a[1..], t);
    }
  }

  /**
   * An empty `《》` before a reading survives while the reading after it is
   * deleted: `a《》y《x》b` becomes `a《》y` followed by what is kept of `b`,
   * when `a` and `y` hold no opening bracket.
   */
  lemma EmptyBeforeReading(a: string, y: string, x: string, b: string)
    requires Open !in a && Open !in y
    requires x != [] && Close !in x
    ensures StripContentReadings(a + ([Open, Close] + (y + ([Open] + x + [Close] + b))))
         == a + ([Open, Close] + (y + StripContentReadings(b)))
  {
    var reading := [Open] + x + [Close] + b;
    assert StripContentReadings(reading) == StripContentReadings(b) by {
      assert [] + [Open] + x + [Close] + b == reading;
      ReadingRemoved([], x, b);
    }
    PrefixKept(y, reading);
    EmptyReadingSurvives(y + reading);
    PrefixKept(a, [Open, Close] + (y + reading));
  }

  lemma {:induction false} FirstCloseAfter(x: string, b: string)
    requires Close !in x
    ensures FirstClose(x + [Close] + b) == |x|
  {
    if x != [] {
      assert (x + [Close] + b)[1..] == x[1..] + [Close] + b;
      FirstCloseAfter(x[1..], b);
    }
  }

  /**
   * No match anywhere: every opening bracket is directly followed by a
   * closing one, or no closing bracket follows it at all.
   */
  predicate NoReading(s: string)
    decreases |s|
  {
    s == [] || (!ReadingAtStart(s) && NoReading(s[1..]))
  }

  lemma {:induction false} NoReadingUnchanged(s: string)
    requires NoReading(s)
    ensures StripContentReadings(s) == s
    decreases |s|
  {
    if s != [] {
      NoReadingUnchanged(s[1..]);
    }
  }

  lemma {:induction false} StripLeavesNoReading(s: string)
    ensures NoReading(StripContentReadings(s))
    decreases |s|
  {
    if s == [] {
    } else if ReadingAtStart(s) {
      StripLeavesNoReading(s[FirstClose(s[1..]) + 2..]);
    } else {
      var tail := StripContentReadings(s[1..]);
      var r := [s[0]] + tail;
      StripLeavesNoReading(s[1..]);
      assert r[1..] == tail;
      if s[0] == Open {
        var k := FirstClose(s[1..]);
        if |s| == 1 {
        } else if k == 0 {
          // s[1] is a closing bracket: it is kept and follows directly.
          assert s[1] == Close;
          assert !ReadingAtStart(s[1..]);
          assert tail == [Close] + StripContentReadings(s[2..]) by {
            assert s[1..][1..] == s[2..];
          }
          assert FirstClose(r[1..]) == 0;
        } else {
          // No closing bracket after s[0], so none in what is kept of the rest.
          assert Close !in s[1..];
          if Close in tail {
            SubsequenceMembership(tail, s[1..], Close);
          }
          var kr := FirstClose(r[1..]);
          assert kr == |r| - 1;
        }
      }
    }
  }

  /** Deleting readings twice deletes nothing more. */
  lemma StripIdempotent(s: string)
    ensures StripContentReadings(StripContentReadings(s)) == StripContentReadings(s)
  {
    StripLeavesNoReading(s);
    NoReadingUnchanged(StripContentReadings(s));
  }
}
