/**
 * The lookup window of `updateSampleFromPosition`: the text sample at the
 * scan position, the newline-free window handed to the dictionary matcher,
 * and the mapping of the matcher's length back to a selection in the text.
 *
 * The matcher (`findTerm`) is a separate component; only the length it
 * reports enters the model, as a function of the window.
 */
module Sample {
  import opened Text
  import Sentence

  function Min(a: int, b: int): int {
    if a <= b then a else b
  }

  /** `content[p : p + scanLength]`: up to `scanLength` characters from `p`, fewer at the end of the text. */
  function ContentSample(content: string, p: nat, scanLength: nat): (sample: string)
    ensures |sample| == if p >= |content| then 0 else Min(scanLength, |content| - p)
    ensures forall k :: 0 <= k < |sample| ==> sample[k] == content[p + k]
  {
    if p >= |content| then [] else content[p..p + Min(scanLength, |content| - p)]
  }

  /** `s.replace('\n', '')`: no newline left, and every other character kept with its multiplicity. */
  function Flatten(s: string): (flat: string)
    ensures '\n' !in flat
    ensures |flat| <= |s|
    decreases |s|
  {
    if s == [] then []
    else
      var rest := Flatten(s[1..]);
      if s[0] == '\n' then rest else [s[0]] + rest
  }

  /** Every character other than a newline is kept, as often as it occurs. */
  lemma {:induction false} FlattenContents(s: string)
    ensures multiset(Flatten(s)) == multiset(s)['\n' := 0]
    decreases |s|
  {
    if s != [] {
      FlattenContents(s[1..]);
      assert s == [s[0]] + s[1..];
    }
  }

  /** Flattening keeps the order: it distributes over concatenation. */
  lemma {:induction false} FlattenAppend(a: string, b: string)
    ensures Flatten(a + b) == Flatten(a) + Flatten(b)
    decreases |a|
  {
    if a == [] {
      assert a + b == b;
    } else {
      assert (a + b)[0] == a[0];
      assert (a + b)[1..] == a[1..] + b;
      FlattenAppend(a[1..], b);
    }
  }

  /** A prefix of the sample one character longer flattens to at most one more character. */
  lemma FlattenExtend(s: string, i: nat)
    requires i < |s|
    ensures Flatten(s[..i + 1]) == Flatten(s[..i]) + (if s[i] == '\n' then [] else [s[i]])
  {
    assert s[..i + 1] == s[..i] + [s[i]];
    FlattenAppend(s[..i], [s[i]]);
  }

  /** Flattening a prefix gives a prefix of the flattened text. */
  lemma FlattenPrefix(s: string, n: nat)
    requires n <= |s|
    ensures |Flatten(s[..n])| <= |Flatten(s)|
    ensures Flatten(s[..n]) == Flatten(s)[..|Flatten(s[..n])|]
  {
    assert s == s[..n] + s[n..];
    FlattenAppend(s[..n], s[n..]);
  }

  /**
   * The counting loop of `updateSampleFromPosition`: how many characters of
   * the sample the selection covers for a match of `lengthMatched`
   * characters of the flattened window. The selected text flattens to
   * exactly the matched part of the window; newlines inside it are
   * selected, trailing ones are not; a longer match selects the whole sample.
   */
  method SelectionLength(sample: string, lengthMatched: nat) returns (lengthSelect: nat)
    ensures lengthSelect <= |sample|
    ensures lengthMatched == 0 ==> lengthSelect == 0
    ensures Flatten(sample[..lengthSelect]) == Flatten(sample)[..Min(lengthMatched, |Flatten(sample)|)]
    ensures 0 < lengthMatched <= |Flatten(sample)| ==> 0 < lengthSelect && sample[lengthSelect - 1] != '\n'
    ensures lengthMatched > |Flatten(sample)| ==> lengthSelect == |sample|
  {
    lengthSelect := 0;
    ghost var whole := true;
    if lengthMatched != 0 {
      var remaining: int := lengthMatched;
      for i := 0 to |sample|
        invariant lengthSelect == i
        invariant remaining == lengthMatched - |Flatten(sample[..i])| > 0
      {
        var c := sample[i];
        FlattenExtend(sample, i);
        lengthSelect := lengthSelect + 1;
        if c != '\n' {
          remaining := remaining - 1;
        }
        if remaining <= 0 {
          assert c != '\n' && |Flatten(sample[..lengthSelect])| == lengthMatched;
          whole := false;
          break;
        }
      }
      assert whole ==> lengthSelect == |sample| && |Flatten(sample)| < lengthMatched by {
        assert sample[..|sample|] == sample;
      }
    }
    FlattenPrefix(sample, lengthSelect);
  }

  /** A prefix of the sample is the text of the same length at the scan position. */
  lemma SamplePrefix(content: string, p: nat, scanLength: nat, n: nat)
    requires p <= |content| && n <= |ContentSample(content, p, scanLength)|
    ensures p + n <= |content|
    ensures content[p..p + n] == ContentSample(content, p, scanLength)[..n]
  {
    var sample := ContentSample(content, p, scanLength);
    forall k | 0 <= k < n
      ensures content[p..p + n][k] == sample[..n][k]
    {
      assert sample[k] == content[p + k];
    }
  }

  /**
   * The text from `anchor` to `position` flattens to the first `matched`
   * characters of the window (all of it when `matched` is larger).
   */
  predicate SelectsMatch(content: string, anchor: nat, position: nat, window: string, matched: nat) {
    anchor <= position <= |content| && Flatten(content[anchor..position]) == window[..Min(matched, |window|)]
  }

  /** The selection, read in the text instead of the sample, flattens to the same matched part of the window. */
  lemma SelectionInText(content: string, p: nat, scanLength: nat, n: nat, matched: nat)
    requires p <= |content| && n <= |ContentSample(content, p, scanLength)|
    requires var sample := ContentSample(content, p, scanLength);
      Flatten(sample[..n]) == Flatten(sample)[..Min(matched, |Flatten(sample)|)]
    ensures SelectsMatch(content, p, p + n, Flatten(ContentSample(content, p, scanLength)), matched)
  {
    SamplePrefix(content, p, scanLength, n);
  }

  /**
   * Where the selection of a lookup ends, for a sample taken at `anchor`
   * and a matcher that reported `matched` characters: within the sample,
   * flattening to exactly the matched part of the window, empty when nothing
   * matched, ending on the last matched character (never on a newline after
   * it), and covering the whole sample when the match is longer than the
   * window.
   */
  predicate SelectionEnd(content: string, anchor: nat, position: nat, sample: string, matched: nat) {
    var window := Flatten(sample);
    && anchor <= position <= anchor + |sample|
    && SelectsMatch(content, anchor, position, window, matched)
    && (matched == 0 ==> position == anchor)
    && (0 < matched <= |window| ==> anchor < position && content[position - 1] != '\n')
    && (matched > |window| ==> position == anchor + |sample|)
  }

  /** Text whose window is empty is made of newlines only. */
  lemma {:induction false} FlattenEmpty(s: string)
    requires Flatten(s) == []
    ensures forall k :: 0 <= k < |s| ==> s[k] == '\n'
    decreases |s|
  {
    if s != [] {
      FlattenEmpty(s[1..]);
      assert forall k :: 1 <= k < |s| ==> s[k] == s[1..][k - 1];
    }
  }

  /** At most one position ends the selection: the loop's stopping point is determined. */
  lemma SelectionEndUnique(content: string, anchor: nat, p1: nat, p2: nat, sample: string, matched: nat)
    requires SelectionEnd(content, anchor, p1, sample, matched)
    requires SelectionEnd(content, anchor, p2, sample, matched)
    ensures p1 == p2
  {
    if 0 < matched <= |Flatten(sample)| && p1 != p2 {
      var lo, hi := if p1 < p2 then p1 else p2, if p1 < p2 then p2 else p1;
      assert content[anchor..hi] == content[anchor..lo] + content[lo..hi];
      FlattenAppend(content[anchor..lo], content[lo..hi]);
      FlattenEmpty(content[lo..hi]);
      assert false;
    }
  }

  /**
   * The selection after a lookup: the counting loop over the sample, then
   * the cursor set from the scan position over `lengthSelect` characters.
   */
  method SelectMatch(content: string, scanPosition: nat, scanLength: nat, lengthMatched: nat) returns (position: nat)
    requires scanPosition <= |content|
    ensures SelectionEnd(content, scanPosition, position, ContentSample(content, scanPosition, scanLength), lengthMatched)
  {
    var sample := ContentSample(content, scanPosition, scanLength);
    var lengthSelect := SelectionLength(sample, lengthMatched);
    SelectionInText(content, scanPosition, scanLength, lengthSelect, lengthMatched);
    position := scanPosition + lengthSelect;
    if 0 < lengthSelect {
      SamplePrefix(content, scanPosition, scanLength, lengthSelect);
      assert sample[lengthSelect - 1] == content[position - 1];
    }
  }

  /** What the pointer-driven lookup does to the text view. */
  datatype SampleOutcome =
    | NoLookup
      // the selection is cleared and the matcher is not called
    | Lookup(window: string, sentence: string, anchor: nat, position: nat)
      // the window given to the matcher, the sentence attached to the
      // definitions found, and the selection from `anchor` to `position`

  /** The guard of `updateSampleFromPosition`: no lookup on an empty sample or one starting with whitespace. */
  predicate Refused(sample: string) {
    sample == [] || IsSpace(sample[0])
  }

  /**
   * `updateSampleFromPosition` with the scan position, the scan length
   * preference and the matcher's reported length as inputs.
   */
  method UpdateSampleFromPosition(content: string, scanPosition: nat, scanLength: nat, findTerm: string -> nat)
    returns (outcome: SampleOutcome)
    ensures outcome.NoLookup? <==> Refused(ContentSample(content, scanPosition, scanLength))
    ensures outcome.Lookup? ==>
      && scanPosition < |content|
      && outcome.window == Flatten(ContentSample(content, scanPosition, scanLength))
      && outcome.sentence == Sentence.Sentence(content, scanPosition)
    ensures outcome.Lookup? ==>
      && outcome.anchor == scanPosition
      && SelectionEnd(content, scanPosition, outcome.position, ContentSample(content, scanPosition, scanLength), findTerm(outcome.window))
  {
    var samplePosStart := scanPosition;
    var contentSample := ContentSample(content, scanPosition, scanLength);
    if Refused(contentSample) {
      return NoLookup;
    }
    var contentSampleFlat := Flatten(contentSample);
    var lengthMatched := findTerm(contentSampleFlat);
    var sentence := Sentence.FindSentence(content, samplePosStart);
    var position := SelectMatch(content, samplePosStart, scanLength, lengthMatched);
    outcome := Lookup(contentSampleFlat, sentence, samplePosStart, position);
  }
}
