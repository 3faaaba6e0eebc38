/**
 * `findSentence`: the sentence around a position, found by a backward scan
 * for the start and a forward scan for the end, each keeping a stack of the
 * quotation marks it is inside of, and then stripped of whitespace.
 *
 * Modelled as the code behaves: the backward scan covers indices
 * `position` down to 1 and never reads index 0; the forward scan ignores
 * newlines; stack entries are pushed and compared at the front of the list
 * but `pop()` removes its last entry.
 */
module Sentence {
  import opened Text

  /** The terminators `。．.？?！!`. */
  predicate IsTerminator(c: char) {
    c == '。' || c == '．' || c == '.' || c == '？' || c == '?' || c == '！' || c == '!'
  }

  /** The keys of `quotesFwd`. */
  predicate IsOpener(c: char) {
    c == '「' || c == '『' || c == '\'' || c == '"'
  }

  /** The keys of `quotesBwd`. */
  predicate IsCloser(c: char) {
    c == '」' || c == '』' || c == '\'' || c == '"'
  }

  /** `quotesFwd[c]`. */
  function CloserOf(c: char): char
    requires IsOpener(c)
  {
    if c == '「' then '」' else if c == '『' then '』' else c
  }

  /** `quotesBwd[c]`. */
  function OpenerOf(c: char): char
    requires IsCloser(c)
  {
    if c == '」' then '「' else if c == '』' then '『' else c
  }

  /** A character at which the backward scan stops on an empty stack. */
  predicate StopsBackward(c: char) {
    IsTerminator(c) || IsOpener(c) || c == '\n'
  }

  /** `quoteStack.pop()`: removes the LAST entry. */
  function Pop(stack: seq<char>): seq<char>
    requires stack != []
  {
    stack[..|stack| - 1]
  }

  /** The stack after the backward loop body reads `c` without stopping. */
  function StepBackward(stack: seq<char>, c: char): seq<char> {
    if stack != [] && c == stack[0] then Pop(stack)
    else if IsCloser(c) then [OpenerOf(c)] + stack
    else stack
  }

  /** The stack after the forward loop body reads `c` without stopping. */
  function StepForward(stack: seq<char>, c: char): seq<char> {
    if stack != [] && c == stack[0] then Pop(stack)
    else if IsOpener(c) then [CloserOf(c)] + stack
    else stack
  }

  /**
   * The `start` the backward loop `for i in xrange(position, 0, -1)` reaches
   * from index `i` with stack `stack`: one past the first stopping character,
   * which lies in `1..i`, or 0.
   */
  function ScanStart(content: string, i: nat, stack: seq<char>): (start: nat)
    requires i == 0 || i < |content|
    ensures start == 0 || 2 <= start <= i + 1
    decreases i
  {
    if i == 0 then 0
    else if stack == [] && StopsBackward(content[i]) then i + 1
    else ScanStart(content, i - 1, StepBackward(stack, content[i]))
  }

  /** The backward scan stops only just after a terminator, an opening quote or a newline. */
  lemma {:induction false} ScanStartStops(content: string, i: nat, stack: seq<char>)
    requires i == 0 || i < |content|
    ensures var start := ScanStart(content, i, stack);
      start == 0 || StopsBackward(content[start - 1])
    decreases i
  {
    if i > 0 && !(stack == [] && StopsBackward(content[i])) {
      ScanStartStops(content, i - 1, StepBackward(stack, content[i]));
    }
  }

  /**
   * The `end` the forward loop `for i in xrange(position, len(content))`
   * reaches from index `i` with stack `stack`: just after a terminator, just
   * before a closing quote, or the length of the text.
   */
  function ScanEnd(content: string, i: nat, stack: seq<char>): (end: nat)
    requires i <= |content|
    ensures i <= end <= |content|
    decreases |content| - i
  {
    if i == |content| then |content|
    else if stack == [] && IsTerminator(content[i]) then i + 1
    else if stack == [] && IsCloser(content[i]) then i
    else ScanEnd(content, i + 1, StepForward(stack, content[i]))
  }

  /** The forward scan ends at the end of the text, just after a terminator, or just before a closing quote. */
  lemma {:induction false} ScanEndStops(content: string, i: nat, stack: seq<char>)
    requires i <= |content|
    ensures var end := ScanEnd(content, i, stack);
      end == |content| || (i < end && IsTerminator(content[end - 1])) || IsCloser(content[end])
    decreases |content| - i
  {
    if i < |content| && !(stack == [] && (IsTerminator(content[i]) || IsCloser(content[i]))) {
      ScanEndStops(content, i + 1, StepForward(stack, content[i]));
    }
  }

  /** `position` is an index `findSentence` may be called with: `content[position]` is read unless the text is empty. */
  predicate ValidPosition(content: string, position: nat) {
    position < |content| || position == 0
  }

  /** `start`: 0, or an index in `2..position + 1`, since `content[0]` is never read. */
  function SentenceStart(content: string, position: nat): (start: nat)
    requires ValidPosition(content, position)
    ensures start == 0 || 2 <= start <= position + 1
  {
    ScanStart(content, position, [])
  }

  /** The start is 0 or one past a terminator, an opening quote or a newline. */
  lemma SentenceStartStops(content: string, position: nat)
    requires ValidPosition(content, position)
    ensures var start := SentenceStart(content, position);
      start == 0 || StopsBackward(content[start - 1])
  {
    ScanStartStops(content, position, []);
  }

  /** `end`: an index in `position..len(content)`. */
  function SentenceEnd(content: string, position: nat): (end: nat)
    requires ValidPosition(content, position)
    ensures position <= end <= |content|
  {
    ScanEnd(content, position, [])
  }

  /** The end is the length of the text, one past a terminator, or the index of a closing quote. */
  lemma SentenceEndStops(content: string, position: nat)
    requires ValidPosition(content, position)
    ensures var end := SentenceEnd(content, position);
      end == |content| || (position < end && IsTerminator(content[end - 1])) || IsCloser(content[end])
  {
    ScanEndStops(content, position, []);
  }

  /** Python's `s[lo:hi]` for `0 <= lo, hi <= len(s)`: empty when `lo >= hi`. */
  function Slice(s: string, lo: nat, hi: nat): (r: string)
    requires lo <= |s| && hi <= |s|
    ensures |r| == if lo < hi then hi - lo else 0
    ensures forall k :: 0 <= k < |r| ==> r[k] == s[lo + k]
  {
    if lo < hi then s[lo..hi] else []
  }

  /**
   * `findSentence(content, position)`: `content[start:end]` stripped, so
   * without whitespace at either end, and empty when `start >= end`.
   */
  function Sentence(content: string, position: nat): (sentence: string)
    requires ValidPosition(content, position)
    ensures sentence == [] || (!IsSpace(sentence[0]) && !IsSpace(sentence[|sentence| - 1]))
    ensures SentenceEnd(content, position) <= SentenceStart(content, position) ==> sentence == []
    ensures |sentence| <= |content|
  {
    Strip(Slice(content, SentenceStart(content, position), SentenceEnd(content, position)))
  }

  /** `findSentence`: the backward loop, the forward loop, then the strip. */
  method FindSentence(content: string, position: nat) returns (sentence: string)
    requires ValidPosition(content, position)
    ensures sentence == Sentence(content, position)
  {
    var start := FindStart(content, position);
    var end := FindEnd(content, position);
    sentence := Strip(Slice(content, start, end));
  }

  /** The backward loop of `findSentence`, with its own quote stack. */
  method FindStart(content: string, position: nat) returns (start: nat)
    requires ValidPosition(content, position)
    ensures start == SentenceStart(content, position)
  {
    var quoteStack: seq<char> := [];
    start := 0;
    var i: nat := position;
    while i > 0
      invariant i <= position
      invariant ScanStart(content, i, quoteStack) == ScanStart(content, position, [])
    {
      var c := content[i];
      if quoteStack == [] && StopsBackward(c) {
        start := i + 1;
        return;
      }
      if quoteStack != [] && c == quoteStack[0] {
        quoteStack := quoteStack[..|quoteStack| - 1];
      } else if IsCloser(c) {
        quoteStack := [OpenerOf(c)] + quoteStack;
      }
      i := i - 1;
    }
  }

  /** The forward loop of `findSentence`, with a fresh quote stack. */
  method FindEnd(content: string, position: nat) returns (end: nat)
    requires ValidPosition(content, position)
    ensures end == SentenceEnd(content, position)
  {
    var quoteStack: seq<char> := [];
    end := |content|;
    var i: nat := position;
    while i < |content|
      invariant i <= |content|
      invariant ScanEnd(content, i, quoteStack) == ScanEnd(content, position, [])
    {
      var c := content[i];
      if quoteStack == [] {
        if IsTerminator(c) {
          end := i + 1;
          return;
        } else if IsCloser(c) {
          end := i;
          return;
        }
      }
      if quoteStack != [] && c == quoteStack[0] {
        quoteStack := quoteStack[..|quoteStack| - 1];
      } else if IsOpener(c) {
        quoteStack := [CloserOf(c)] + quoteStack;
      }
      i := i + 1;
    }
  }

  /** No quotation mark, opening or closing, at an index in `lo..hi`. */
  predicate QuoteFree(content: string, lo: nat, hi: nat)
    requires lo <= hi <= |content|
  {
    forall k :: lo <= k < hi ==> !IsOpener(content[k]) && !IsCloser(content[k])
  }

  lemma {:induction false} ScanStartWithoutQuotes(content: string, i: nat)
    requires i < |content| && QuoteFree(content, 1, i + 1)
    ensures var s := ScanStart(content, i, []);
      || (s == 0 && forall j :: 1 <= j <= i ==> !IsTerminator(content[j]) && content[j] != '\n')
      || (2 <= s <= i + 1 && (IsTerminator(content[s - 1]) || content[s - 1] == '\n')
          && forall j :: s <= j <= i ==> !IsTerminator(content[j]) && content[j] != '\n')
    decreases i
  {
    if i > 0 && !StopsBackward(content[i]) {
      assert StepBackward([], content[i]) == [];
      ScanStartWithoutQuotes(content, i - 1);
    }
  }

  /**
   * Without quotation marks in `1..position`, the start is one past the
   * nearest terminator or newline at an index in `1..position`, or 0 when
   * there is none.
   */
  lemma SentenceStartWithoutQuotes(content: string, position: nat)
    requires position < |content| && QuoteFree(content, 1, position + 1)
    ensures var s := SentenceStart(content, position);
      || (s == 0 && forall j :: 1 <= j <= position ==> !IsTerminator(content[j]) && content[j] != '\n')
      || (2 <= s <= position + 1 && (IsTerminator(content[s - 1]) || content[s - 1] == '\n')
          && forall j :: s <= j <= position ==> !IsTerminator(content[j]) && content[j] != '\n')
  {
    ScanStartWithoutQuotes(content, position);
  }

  lemma {:induction false} ScanEndWithoutQuotes(content: string, i: nat)
    requires i <= |content| && QuoteFree(content, i, |content|)
    ensures var e := ScanEnd(content, i, []);
      || (e == |content| && forall j :: i <= j < |content| ==> !IsTerminator(content[j]))
      || (i < e && IsTerminator(content[e - 1]) && forall j :: i <= j < e - 1 ==> !IsTerminator(content[j]))
    decreases |content| - i
  {
    if i < |content| && !IsTerminator(content[i]) {
      assert StepForward([], content[i]) == [];
      ScanEndWithoutQuotes(content, i + 1);
    }
  }

  /**
   * Without quotation marks from `position` on, the end is one past the
   * first terminator at an index `>= position`, or the length of the text;
   * newlines do not end the forward scan.
   */
  lemma SentenceEndWithoutQuotes(content: string, position: nat)
    requires ValidPosition(content, position) && QuoteFree(content, position, |content|)
    ensures var e := SentenceEnd(content, position);
      || (e == |content| && forall j :: position <= j < |content| ==> !IsTerminator(content[j]))
      || (position < e && IsTerminator(content[e - 1])
          && forall j :: position <= j < e - 1 ==> !IsTerminator(content[j]))
  {
    ScanEndWithoutQuotes(content, position);
  }

  /**
   * Inside an open quotation the forward scan does not stop: if the
   * character on top of the stack (index 0) never occurs again and no new
   * quotation opens, terminators and closing quotes are passed over up to
   * the end of the text.
   */
  lemma {:induction false} OpenQuoteRunsToEnd(content: string, i: nat, stack: seq<char>)
    requires i <= |content| && stack != []
    requires forall k :: i <= k < |content| ==> content[k] != stack[0] && !IsOpener(content[k])
    ensures ScanEnd(content, i, stack) == |content|
    decreases |content| - i
  {
    if i < |content| {
      assert StepForward(stack, content[i]) == stack;
      OpenQuoteRunsToEnd(content, i + 1, stack);
    }
  }

  /** The backward counterpart: inside a quotation the backward scan runs to the start. */
  lemma {:induction false} OpenQuoteRunsToStart(content: string, i: nat, stack: seq<char>)
    requires (i == 0 || i < |content|) && stack != []
    requires forall k :: 1 <= k <= i ==> content[k] != stack[0] && !IsCloser(content[k])
    ensures ScanStart(content, i, stack) == 0
    decreases i
  {
    if i > 0 {
      assert StepBackward(stack, content[i]) == stack;
      OpenQuoteRunsToStart(content, i - 1, stack);
    }
  }

  lemma {:induction false} ScanStartIgnoresIndexZero(content: string, other: string, i: nat, stack: seq<char>)
    requires |content| == |other| && (i == 0 || i < |content|)
    requires forall k :: 1 <= k <= i ==> content[k] == other[k]
    ensures ScanStart(content, i, stack) == ScanStart(other, i, stack)
    decreases i
  {
    if i > 0 {
      ScanStartIgnoresIndexZero(content, other, i - 1, StepBackward(stack, content[i]));
    }
  }

  /** The backward scan never reads `content[0]`: changing it leaves the start as it is. */
  lemma SentenceStartIgnoresFirstChar(content: string, c: char, position: nat)
    requires 0 < position < |content|
    ensures SentenceStart(content, position) == SentenceStart([c] + content[1..], position)
  {
    ScanStartIgnoresIndexZero(content, [c] + content[1..], position, []);
  }

  /**
   * On a straight quote `'` or `"` the start is `position + 1` (or 0) and
   * the forward scan stops before the quote, so the sentence is empty.
   */
  lemma BareQuoteGivesEmpty(content: string, position: nat)
    requires position < |content| && (content[position] == '\'' || content[position] == '"')
    ensures Sentence(content, position) == []
  {
    assert SentenceEnd(content, position) == position;
  }

  /**
   * A closing quotation before the position is passed over whole by the
   * backward scan: from the `」` or `』` at `i`, the stack holds its opener
   * until the matching `「` or `『` at `j`, and the scan goes on before it.
   */
  lemma QuotationSkippedBackward(content: string, j: nat, i: nat)
    requires 1 <= j < i < |content|
    requires content[i] == '」' || content[i] == '』'
    requires content[j] == OpenerOf(content[i]) && QuoteFree(content, j + 1, i)
    ensures ScanStart(content, i, []) == ScanStart(content, j - 1, [])
  {
    assert StepBackward([], content[i]) == [content[j]];
    BackwardStep(content, i, [], content[i], [content[j]]);
    InsideQuotationBackward(content, j, i - 1, content[j]);
  }

  lemma {:induction false} InsideQuotationBackward(content: string, j: nat, k: nat, opener: char)
    requires 1 <= j <= k < |content| && content[j] == opener && IsOpener(opener)
    requires QuoteFree(content, j + 1, k + 1)
    ensures ScanStart(content, k, [opener]) == ScanStart(content, j - 1, [])
    decreases k
  {
    if k == j {
      assert StepBackward([opener], opener) == [];
    } else {
      assert StepBackward([opener], content[k]) == [opener];
      InsideQuotationBackward(content, j, k - 1, opener);
    }
  }

  /**
   * An opening quotation at or after the position is passed over whole by
   * the forward scan: from the `「` or `『` at `i` to its closer at `j`,
   * terminators do not end the sentence, and the scan goes on after `j`.
   */
  lemma QuotationSkippedForward(content: string, i: nat, j: nat)
    requires i < j < |content|
    requires content[i] == '「' || content[i] == '『'
    requires content[j] == CloserOf(content[i]) && QuoteFree(content, i + 1, j)
    ensures ScanEnd(content, i, []) == ScanEnd(content, j + 1, [])
  {
    assert StepForward([], content[i]) == [content[j]];
    InsideQuotationForward(content, i + 1, j, content[j]);
  }

  lemma {:induction false} InsideQuotationForward(content: string, k: nat, j: nat, closer: char)
    requires k <= j < |content| && content[j] == closer && IsCloser(closer)
    requires QuoteFree(content, k, j)
    ensures ScanEnd(content, k, [closer]) == ScanEnd(content, j + 1, [])
    decreases j - k
  {
    if k == j {
      assert StepForward([closer], closer) == [];
    } else {
      assert StepForward([closer], content[k]) == [closer];
      InsideQuotationForward(content, k + 1, j, closer);
    }
  }

  /** Terminators split consecutive unquoted sentences: `A.B.C.` on `B` gives `B.`. */
  lemma ExampleConsecutiveSentences()
    ensures Sentence("A.B.C.", 2) == "B."
  {
    var s := "A.B.C.";
    BackwardStep(s, 2, [], 'B', []);
    BackwardStop(s, 1, '.');
    ForwardStep(s, 2, [], 'B', []);
    ForwardStop(s, 3, '.');
    SentenceBetween(s, 2, 2, 4, "B.");
  }

  /**
   * A terminator inside a quotation that surrounds the position still
   * splits: `「A.B」C.` on `B` gives `B` (the forward scan also stops before `」`).
   */
  lemma ExampleSplitInsideQuote()
    ensures Sentence("「A.B」C.", 3) == "B"
  {
    var s := "「A.B」C.";
    BackwardStep(s, 3, [], 'B', []);
    BackwardStop(s, 2, '.');
    ForwardStep(s, 3, [], 'B', []);
    ForwardStop(s, 4, '」');
    SentenceBetween(s, 3, 3, 4, "B");
  }

  /**
   * A quotation before the position is skipped whole by the backward scan:
   * `X「A.B」C.` on `C` gives the whole text.
   */
  lemma ExampleQuoteSkippedBackward()
    ensures Sentence("X「A.B」C.", 6) == "X「A.B」C."
  {
    var s := "X「A.B」C.";
    BackwardStep(s, 6, [], 'C', []);
    QuotationSkippedBackward(s, 1, 5);
    ForwardStep(s, 6, [], 'C', []);
    ForwardStop(s, 7, '.');
    SentenceBetween(s, 6, 0, 8, s);
  }

  /**
   * `pop()` removes the last stack entry although entries are pushed and
   * compared at the front: in `A。「『』」E` on `E`, the `『` that closes the
   * inner quote removes `「` instead, the stack never empties, and the
   * backward scan runs past `。` to the start of the text.
   */
  lemma ExampleNestedQuotePop()
    ensures SentenceStart("A。「『』」E", 6) == 0
  {
    var s := "A。「『』」E";
    BackwardStep(s, 6, [], 'E', []);
    BackwardStep(s, 5, [], '」', ['「']);
    BackwardStep(s, 4, ['「'], '』', ['『', '「']);
    BackwardStep(s, 3, ['『', '「'], '『', ['『']);
    OpenQuoteRunsToStart(s, 2, ['『']);
  }

  /** The sentence between known bounds, when that text has no whitespace at either end. */
  lemma SentenceBetween(content: string, position: nat, start: nat, end: nat, sentence: string)
    requires ValidPosition(content, position)
    requires ScanStart(content, position, []) == start < end == ScanEnd(content, position, [])
    requires content[start..end] == sentence
    requires sentence == [] || (!IsSpace(sentence[0]) && !IsSpace(sentence[|sentence| - 1]))
    ensures Sentence(content, position) == sentence
  {
    StripTrimmed(sentence);
  }

  /** The backward loop stopping at `content[i]` on an empty stack. */
  lemma BackwardStop(content: string, i: nat, c: char)
    requires 0 < i < |content| && content[i] == c && StopsBackward(c)
    ensures ScanStart(content, i, []) == i + 1
  {
  }

  /** One turn of the backward loop that does not stop. */
  lemma BackwardStep(content: string, i: nat, stack: seq<char>, c: char, next: seq<char>)
    requires 0 < i < |content| && content[i] == c
    requires !(stack == [] && StopsBackward(c)) && StepBackward(stack, c) == next
    ensures ScanStart(content, i, stack) == ScanStart(content, i - 1, next)
  {
  }

  /** One turn of the forward loop that does not stop. */
  lemma ForwardStep(content: string, i: nat, stack: seq<char>, c: char, next: seq<char>)
    requires i < |content| && content[i] == c
    requires !(stack == [] && (IsTerminator(c) || IsCloser(c))) && StepForward(stack, c) == next
    ensures ScanEnd(content, i, stack) == ScanEnd(content, i + 1, next)
  {
  }

  /** The forward loop stopping at `content[i]` on an empty stack. */
  lemma ForwardStop(content: string, i: nat, c: char)
    requires i < |content| && content[i] == c && (IsTerminator(c) || IsCloser(c))
    ensures ScanEnd(content, i, []) == if IsTerminator(c) then i + 1 else i
  {
  }
}
