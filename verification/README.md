# Yomichan reader core in Dafny

Yomichan's reader is a desktop program for reading Japanese text with a
pop-up dictionary. This project models its text-handling core and proves
properties of that model:

- choosing an encoding for a file's bytes (`decodeContent`);
- deleting furigana readings written as `《…》` (`stripContentReadings`);
- cutting the sentence around the scan position out of the text, using a
  quote stack (`findSentence`);
- splitting the tag box into Anki tags (`splitTags`), and the
  most-recently-used reordering of the tag list in `ankiAddFact`;
- the lookup window of `updateSampleFromPosition`. This covers the sample
  taken at the scan position, the guard against an empty or
  whitespace-led sample, the newline-free text handed to the matcher, and
  the loop that maps the matched length back to a selection length;
- the state the main window keeps in place: the zoom counter, the
  wrap-around incremental search `findText`, and the tag list;
- the archive menu labels `formatQString` / `getItemIndex`;
- the restore-position clamp of `openFile`.

Modules, one per concern:

- `Wrappers`: the `Option` type.
- `Text`: Python 2.7's `unicode.isspace`, plus `lstrip`, `rstrip` and `strip`.
- `Encoding`: `decodeContent`, with the codecs as parameters.
- `Readings`: `stripContentReadings`.
- `Sentence`: `findSentence`, as a method with its two loops, proved against
  recursive scan functions.
- `Tags`: `splitTags`.
- `Facts`: the two markup builders.
- `Sample`: `updateSampleFromPosition`, with `findTerm` as a parameter.
- `Labels`: `formatQString`, `formatQStringList`, `getItemIndex` and
  `QString::toInt`.
- `Reader`: the `ReaderWindow` class. The search, zoom and tag-list state
  are its fields, and `FindText`, `ZoomIn`/`ZoomOut`/`ZoomReset` and
  `UpdateTags` are its methods.
- `OpenFile`: the text side of `openFile`, both as written and with the
  restore-position clamp corrected.

Behaviour of the code that the model keeps:

- When every strict decode fails, ties between equal failure offsets are
  not broken by the priority list. The code sorts the keys of a Python
  dict, and the sort is stable, so ties go to whichever key comes first in
  the dict's iteration order. The model takes that order as a parameter
  (`order`) and proves that the chosen label is a maximal one, namely the
  first maximal one in that order.
- A terminator inside a quote that surrounds the position still ends the
  sentence. In `「A.B」C.` with the position on `B`, the result is `B`
  (`Sentence.ExampleSplitInsideQuote`). The forward scan only skips quotes
  that open at or after the position.
- Extracting a sentence again inside a returned sentence does not always
  give the same sentence. For example, a position on a bare `'` or `"`
  gives the empty string (`Sentence.BareQuoteGivesEmpty`).
- The quote stack inserts and compares at its front, but `pop()` removes
  its last entry. With nested quotes, this pops the wrong entry
  (`Sentence.ExampleNestedQuotePop`).
- The backward scan never reads `content[0]`
  (`Sentence.SentenceStartIgnoresFirstChar`).
- The forward scan does not stop at newlines.
- When the matched length equals the number of non-newline characters,
  the selection stops at the last matched character. Newlines after it
  are not selected.

## Model

| member | source | states |
|---|---|---|
| Encoding.AllCodecsListed | yomi_base/reader_util.py:24 | the candidate list holds each of utf-8, shift_jis, euc-jp and utf-16 |
| Encoding.FirstDecodableFrom | yomi_base/reader_util.py:27-29 | the index found is the first candidate from `from` on whose strict decode succeeds; every candidate before it failed |
| Encoding.FirstDecodableIsFirst | yomi_base/reader_util.py:27-29 | any index whose candidate succeeds and before which all candidates fail is the one the search returns |
| Encoding.FirstMaximal | yomi_base/reader_util.py:33 | `sorted(errors, key=errors.get, reverse=True)[0]` under a stable sort: its offset is at least every other offset, and every key before it in iteration order has a strictly smaller offset |
| Encoding.DecodeContent | yomi_base/reader_util.py:23-34 | the loop with its early return and the lossy fallback computes exactly the resolved text and label |
| Encoding.Resolve | yomi_base/reader_util.py:23-34 | the result of `decodeContent`; its promises are stated by `Encoding.ResolveFirstSuccess`, `Encoding.ResolveFallback` and `Encoding.ResolveIgnoresLater` |
| Encoding.ResolveFirstSuccess | yomi_base/reader_util.py:27-29 | if candidate k is the first whose strict decode succeeds, the result is that decode's text labelled with candidate k |
| Encoding.ResolveFallback | yomi_base/reader_util.py:30-34 | if every strict decode fails, the label has a failure offset no smaller than any other candidate's, it is the first such label in dict order, and the text is the lossy decode under it; the function never fails |
| Encoding.ResolveIgnoresLater | yomi_base/reader_util.py:27-29 | codecs after the first success are never consulted: changing them does not change the result |
| Readings.FirstClose | yomi_base/reader_util.py:38 | the index of the first `》`, or the length if there is none |
| Readings.StripContentReadings | yomi_base/reader_util.py:38 | the result is a subsequence of the input: characters are only deleted, and the rest keep their order |
| Readings.SubsequenceOfSuffix | yomi_base/reader_util.py:38 | what is kept from a suffix of the input is kept from the input |
| Readings.SubsequenceMembership | yomi_base/reader_util.py:38 | every character of the result occurs in the input |
| Readings.NoOpenUnchanged | yomi_base/reader_util.py:38 | text without `《` is unchanged |
| Readings.EmptyReadingSurvives | yomi_base/reader_util.py:38 | an empty `《》` is kept, because the pattern needs at least one character |
| Readings.ReadingRemoved | yomi_base/reader_util.py:38 | a reading `《x》` (x non-empty, without `》`) preceded only by text without `《` is deleted, and that text is kept |
| Readings.PrefixKept | yomi_base/reader_util.py:38 | text without `《` in front of anything is kept as it is, and the rest is processed on its own |
| Readings.EmptyBeforeReading | yomi_base/reader_util.py:38 | in `a《》y《x》b` with no `《` in a or y, the empty `《》` survives and the reading `《x》` after it is deleted |
| Readings.FirstCloseAfter | yomi_base/reader_util.py:38 | the match ends at the first `》` after the `《` |
| Readings.NoReadingUnchanged | yomi_base/reader_util.py:38 | text in which no `《` starts a match is unchanged |
| Readings.StripLeavesNoReading | yomi_base/reader_util.py:38 | the result contains no further match of the pattern |
| Readings.StripIdempotent | yomi_base/reader_util.py:38 | deleting readings twice gives the same text as deleting them once |
| Text.SkipSpaces | yomi_base/reader_util.py:80 | the index of the first non-whitespace character at or after i, or the length |
| Text.SkipSpacesBack | yomi_base/reader_util.py:80 | the index one past the last non-whitespace character before j and at or after lo, or lo |
| Text.LStrip | yomi_base/reader_util.py:80 | the first half of `strip()`, as `lstrip`: a suffix of the input, everything removed is whitespace, and the result does not start with whitespace |
| Text.RStrip | yomi_base/reader_util.py:80 | the second half of `strip()`, as `rstrip`: a prefix of the input, everything removed is whitespace, and the result does not end with whitespace |
| Text.Strip | yomi_base/reader_util.py:80 | `strip`: a contiguous piece of the input, everything cut off on either side is whitespace, and neither end of the result is whitespace |
| Text.SkipBackShift | yomi_base/reader_util.py:80 | scanning back over a range of the text is scanning back over the same range of a suffix |
| Text.StripIsRStripOfLStrip | yomi_base/reader_util.py:80 | `strip()` equals `rstrip()` applied to `lstrip()`, the two halves defined on their own |
| Text.StripTrimmed | yomi_base/reader_util.py:80 | a string with no whitespace at either end is its own `strip()` |
| Text.StripIdempotent | yomi_base/reader_util.py:80 | `strip()` twice is `strip()` once |
| Text.BlankIffAllSpace | yomi_base/reader_util.py:110 | a string strips to nothing exactly when all its characters are whitespace |
| Sentence.StepBackward | yomi_base/reader_util.py:56-59 | the stack update of the backward loop body: pop on a match of the front entry, otherwise push the opener of a closing quote; one turn is stated by `Sentence.BackwardStep` |
| Sentence.StepForward | yomi_base/reader_util.py:75-78 | the stack update of the forward loop body: pop on a match of the front entry, otherwise push the closer of an opening quote; one turn is stated by `Sentence.ForwardStep` |
| Sentence.ScanStart | yomi_base/reader_util.py:48-59 | the backward loop from index i: it gives 0 or an index in `2..i+1`, because the loop never reads index 0 |
| Sentence.ScanStartStops | yomi_base/reader_util.py:48-59 | when the backward loop gives a start other than 0, the character before it is a terminator, an opening quote or a newline |
| Sentence.ScanEnd | yomi_base/reader_util.py:63-78 | the forward loop from index i: its end lies in `i..len(content)` |
| Sentence.ScanEndStops | yomi_base/reader_util.py:63-78 | the forward loop's end is the text's end, one past a terminator it read, or the index of a closing quote |
| Sentence.SentenceStart | yomi_base/reader_util.py:48-54 | with an empty stack, the start is 0 or an index in `2..position+1` |
| Sentence.SentenceStartStops | yomi_base/reader_util.py:48-54 | a start other than 0 is one past a terminator, opening quote or newline |
| Sentence.SentenceEnd | yomi_base/reader_util.py:63-73 | the end lies in `position..len(content)` |
| Sentence.SentenceEndStops | yomi_base/reader_util.py:63-73 | the end is after a terminator, before a closing quote, or at the end of the text |
| Sentence.Slice | yomi_base/reader_util.py:80 | `content[start:end]`: empty when `start >= end`, otherwise the characters from start to end |
| Sentence.Sentence | yomi_base/reader_util.py:80 | the sentence has no whitespace at either end, is empty when the end is not after the start, and is no longer than the text |
| Sentence.FindSentence | yomi_base/reader_util.py:41-80 | the two loops over the quote stack, with the stripped slice, compute the sentence |
| Sentence.FindStart | yomi_base/reader_util.py:46-59 | the backward `for` loop, with its `break` and its stack updates, computes the start the scan function defines |
| Sentence.FindEnd | yomi_base/reader_util.py:61-78 | the forward `for` loop, with its two `break`s and its stack updates, computes the end the scan function defines |
| Sentence.BackwardStop | yomi_base/reader_util.py:52-54 | with an empty stack, a terminator, opening quote or newline at i > 0 ends the backward loop with start i+1 |
| Sentence.BackwardStep | yomi_base/reader_util.py:52-59 | any other character moves the backward loop to i-1 with the stack popped, pushed or kept |
| Sentence.ForwardStop | yomi_base/reader_util.py:67-73 | with an empty stack, a terminator ends the forward loop one past it, and a closing quote ends it at the quote |
| Sentence.ForwardStep | yomi_base/reader_util.py:67-78 | any other character moves the forward loop to i+1 with the stack popped, pushed or kept |
| Sentence.SentenceBetween | yomi_base/reader_util.py:80 | when the slice between the two scan results is already trimmed, it is the sentence |
| Sentence.ScanStartWithoutQuotes | yomi_base/reader_util.py:49-54 | without quote characters in `1..i`, the backward scan stops one past the nearest terminator or newline in `1..i`, or gives 0 |
| Sentence.SentenceStartWithoutQuotes | yomi_base/reader_util.py:49-54 | without quotes, the start is one past the nearest terminator or newline at an index in `1..position`, else 0 |
| Sentence.ScanEndWithoutQuotes | yomi_base/reader_util.py:64-70 | without quote characters from i on, the forward scan ends one past the first terminator, or at the end of the text |
| Sentence.SentenceEndWithoutQuotes | yomi_base/reader_util.py:64-70 | without quotes, the end is one past the first terminator at an index at or after the position, else the length; newlines do not end it |
| Sentence.OpenQuoteRunsToEnd | yomi_base/reader_util.py:67-78 | while a quote stays open (its closer never appears and nothing new opens), the forward scan runs to the end of the text |
| Sentence.OpenQuoteRunsToStart | yomi_base/reader_util.py:52-59 | while a quote stays open going backward, the backward scan runs to 0 |
| Sentence.ScanStartIgnoresIndexZero | yomi_base/reader_util.py:49 | the backward scan's result does not depend on `content[0]` |
| Sentence.SentenceStartIgnoresFirstChar | yomi_base/reader_util.py:49 | replacing the first character never changes the start for a position past it |
| Sentence.QuotationSkippedBackward | yomi_base/reader_util.py:52-59 | going back from a closing `」` or `』` with an empty stack, a quotation whose inside has no quote characters is skipped: the scan continues before its opening quote as if it were not there |
| Sentence.InsideQuotationBackward | yomi_base/reader_util.py:56-59 | inside a quotation without quote characters, the backward loop carries the opening quote on the stack until it pops it at the opener |
| Sentence.QuotationSkippedForward | yomi_base/reader_util.py:67-78 | going forward from an opening `「` or `『` with an empty stack, a quotation whose inside has no quote characters is skipped: the scan continues after its closing quote, so terminators inside it do not end the sentence |
| Sentence.InsideQuotationForward | yomi_base/reader_util.py:75-78 | inside a quotation without quote characters, the forward loop carries the closing quote on the stack until it pops it at the closer |
| Sentence.BareQuoteGivesEmpty | yomi_base/reader_util.py:52-53 | a position on a bare `'` or `"` gives the empty sentence |
| Sentence.ExampleConsecutiveSentences | yomi_base/reader_util.py:41-80 | `A.B.C.` at the `B` gives `B.` |
| Sentence.ExampleSplitInsideQuote | yomi_base/reader_util.py:41-80 | `「A.B」C.` at the `B` gives `B`: the terminator inside the quote still splits |
| Sentence.ExampleQuoteSkippedBackward | yomi_base/reader_util.py:52-59 | `X「A.B」C.` at the `C` gives the whole text: the quoted clause is skipped going back |
| Sentence.ExampleNestedQuotePop | yomi_base/reader_util.py:56-59 | in `A。「『』」E` at the `E`, `pop()` at `『` removes the outer `「` instead of the inner `『`, so the stack stays non-empty and the backward scan runs past the `。` to 0 |
| Tags.SplitFields | yomi_base/reader_util.py:110 | `re.split('[;,\s]', s)`: at least one field, none containing a separator |
| Tags.InterleaveConsFirst | yomi_base/reader_util.py:110 | a character added in front of the first field comes out in front of the rejoined text |
| Tags.SplitFieldsRoundTrip | yomi_base/reader_util.py:110 | there is one more field than separators, and interleaving the fields with the separators gives the input back |
| Tags.NonBlank | yomi_base/reader_util.py:110 | `filter(lambda tag: tag.strip(), …)`: every kept field is a field and not blank, and every non-blank field is kept |
| Tags.NonBlankKeepsAll | yomi_base/reader_util.py:110 | the filter keeps a list without blank fields unchanged |
| Tags.SplitTags | yomi_base/reader_util.py:110 | every tag is non-blank and contains no `;`, `,` or ASCII whitespace |
| Tags.SplitTagsAtSeparator | yomi_base/reader_util.py:110 | the text before the first separator is the first tag unless it is blank, and the tags of the text after the separator follow in order |
| Tags.SplitTagsWithoutSeparator | yomi_base/reader_util.py:110 | text without a separator is one tag, or no tag when it is blank |
| Tags.SplitFieldsWithoutSeparator | yomi_base/reader_util.py:110 | a string without separators is one field |
| Tags.SplitFieldsAtSeparator | yomi_base/reader_util.py:110 | splitting at the first separator gives the field before it, then the fields after it |
| Tags.JoinTags | yomi_base/reader.py:442 | `' '.join(tagsSplit)`; its round trip with the split is stated by `Tags.SplitTagsOfJoin` |
| Tags.SplitFieldsOfJoin | yomi_base/reader_util.py:110 | splitting separator-free tags joined by spaces gives the tags back |
| Tags.SplitTagsOfJoin | yomi_base/reader.py:441-442 | `splitTags(' '.join(tags))` gives the tags back when they are non-blank and separator-free |
| Tags.SplitTagsJoinIdempotent | yomi_base/reader.py:441-442 | normalising the tag text twice gives the same tags as once |
| Tags.VisibleAppend | yomi_base/reader_util.py:110 | the non-whitespace characters of a concatenation are those of its parts |
| Tags.ConcatSplitFields | yomi_base/reader_util.py:110 | the fields together hold exactly the input without its separators, in order |
| Tags.VisibleOfNonBlank | yomi_base/reader_util.py:110 | dropping blank fields loses no non-whitespace character |
| Tags.NoVisibleInSpace | yomi_base/reader_util.py:110 | an all-whitespace string has no visible characters |
| Tags.SplitTagsKeepsVisible | yomi_base/reader_util.py:110 | the tags hold every non-whitespace, non-separator character of the input, in input order |
| Facts.BuildFactMarkupExpression | yomi_base/reader_util.py:91-97 | the markup with the given expression, reading, glossary and sentence; its relation to the reading builder is stated by `Facts.ReadingFactIsExpressionFact` |
| Facts.BuildFactMarkupReading | yomi_base/reader_util.py:100-106 | the markup whose expression is the reading and whose reading is empty, stated by `Facts.ReadingFactIsExpressionFact` |
| Facts.ReadingFactIsExpressionFact | yomi_base/reader_util.py:91-106 | a reading fact is the expression fact whose expression is the reading and whose reading is empty; glossary and sentence pass through |
| Sample.ContentSample | yomi_base/reader.py:491-496 | `content[p:p+scanLength]`: clamped at the end of the text, and empty past it |
| Sample.Flatten | yomi_base/reader.py:503 | the matcher's window contains no newline and is no longer than the sample |
| Sample.FlattenContents | yomi_base/reader.py:503 | the window holds exactly the sample's characters other than newline, with their counts |
| Sample.FlattenAppend | yomi_base/reader.py:503 | removing newlines distributes over concatenation |
| Sample.FlattenExtend | yomi_base/reader.py:514-517 | one more sample character adds itself to the window unless it is a newline |
| Sample.SelectionLength | yomi_base/reader.py:512-519 | the selection length is at most the sample's length, and 0 when nothing matched; the selected prefix holds exactly the first `lengthMatched` window characters and does not end in a newline; a longer match selects the whole sample |
| Sample.FlattenPrefix | yomi_base/reader.py:503 | the window of a prefix of the sample is a prefix of the window |
| Sample.SamplePrefix | yomi_base/reader.py:493-496 | a prefix of the sample is the text of the same length at the scan position |
| Sample.SelectionInText | yomi_base/reader.py:512-522 | the text selected from the scan position over the selection length flattens to the matched part of the window |
| Sample.FlattenEmpty | yomi_base/reader.py:503 | text whose window is empty holds only newlines |
| Sample.SelectionEndUnique | yomi_base/reader.py:512-522 | at most one position meets the selection's end conditions, so they determine where the loop stops |
| Sample.SelectMatch | yomi_base/reader.py:512-522 | the cursor ends between the scan position and the end of the sample, and the selected text flattens to exactly the matched window characters. Nothing is selected when nothing matched. A match within the window ends on its last matched character, not on a newline after it. A longer match selects the whole sample |
| Sample.UpdateSampleFromPosition | yomi_base/reader.py:490-523 | no lookup exactly when the sample is empty or starts with whitespace; otherwise the window is the flattened sample, the sentence is `findSentence` at the position, and the selection runs from the position over exactly the matched window characters. It ends on the last matched character, or at the end of the sample when the match is longer than the window |
| Labels.Decimal | yomi_base/reader.py:401 | `str(n)`: a non-empty string of decimal digits |
| Labels.DecimalRoundTrip | yomi_base/reader.py:401 | reading back the digits of `str(n)` gives n |
| Labels.ToInt | yomi_base/reader.py:393 | `QString::toInt`: on failure the value is 0; on success it lies in the 32-bit range |
| Labels.FirstField | yomi_base/reader.py:393 | `split('.').first()`: the prefix before the first `.`, without a `.` |
| Labels.FirstFieldOfDigits | yomi_base/reader.py:393 | the first field of `digits + "." + rest` is the digits |
| Labels.FormatQString | yomi_base/reader.py:400-401 | `str(index + 1) + '. '` followed by the item; that it reads back to `index + 1` is stated by `Labels.LabelRoundTrip` |
| Labels.GetItemIndex | yomi_base/reader.py:392-393 | `toInt` of the text before the first `.`; stated for every menu label by `Labels.LabelRoundTrip` |
| Labels.FormatQStringList | yomi_base/reader.py:396-397 | one label per name, in order, numbered by position |
| Labels.LabelRoundTrip | yomi_base/reader.py:392-401 | `getItemIndex(formatQString(i, name))` is `(i+1, true)` for any name while `i+1` fits in 32 bits, else `(0, false)` |
| Labels.MenuIndicesRecovered | yomi_base/reader.py:533-536 | every archive menu entry's label gives back its own position after subtracting 1 |
| Reader.IndexOf | yomi_base/reader.py:413 | `QString::indexOf(text, from)`: -1 when there is no occurrence at or after `from`, otherwise the first such occurrence |
| Reader.FindItem | yomi_base/reader.py:444 | the combo box's `findText`: -1 exactly when the item is absent, otherwise its first index |
| Reader.RemoveFirst | yomi_base/reader.py:444-446 | `removeItem` at the first occurrence: an absent item leaves the list as it is, a present one makes it one shorter |
| Reader.MoveToFront | yomi_base/reader.py:444-448 | the reordered tag list starts with the tag, and is one longer exactly when the tag was absent |
| Reader.RemoveFirstAt | yomi_base/reader.py:445-446 | removing at the first occurrence k leaves the items before and after k, in order |
| Reader.RemoveFirstAbsent | yomi_base/reader.py:445-446 | removing an absent item changes nothing |
| Reader.RemoveFirstMultiset | yomi_base/reader.py:445-446 | removing a present item takes exactly one copy out of the list |
| Reader.MoveToFrontCases | yomi_base/reader.py:444-448 | the reordered list has the tag at index 0; it is unchanged if the tag was already first, the tag moves from k with the others in order, or the tag is prepended if absent |
| Reader.MoveToFrontIdempotent | yomi_base/reader.py:444-448 | reordering twice with the same tag is the same as once |
| Reader.ReaderWindow.constructor | yomi_base/reader.py:31-37 | a fresh window: a new `State` with search position 0 and empty search text; with them, as set up at reader.py lines 56, 103 and 115, zoom 0, the tag box filled with the preference's tags, and the font at the preference's size plus the zoom |
| Reader.ReaderWindow.ZoomIn | yomi_base/reader.py:179-184 | below 72 points, one point and one zoom step more; otherwise nothing; point size minus zoom is invariant |
| Reader.ReaderWindow.ZoomOut | yomi_base/reader.py:187-192 | above 1 point, one point and one zoom step less; otherwise nothing; point size minus zoom is invariant |
| Reader.ReaderWindow.ZoomReset | yomi_base/reader.py:195-200 | zoom is 0 and the point size is the preference again |
| Reader.ReaderWindow.FindText | yomi_base/reader.py:411-429 | a hit at or after the search position selects that occurrence and moves past it; a miss from a non-zero position retries once from 0; a total miss reports not found with position 0; the search text is always recorded |
| Reader.ReaderWindow.PromoteTag | yomi_base/reader.py:444-448 | the tag list becomes the moved-to-front list |
| Reader.ReaderWindow.UpdateTags | yomi_base/reader.py:441-448 | the tags are `splitTags` of the box text, and their space-joined string is moved to the front of the tag list |
| OpenFile.RestorePositionAsWritten | yomi_base/reader.py:323-325 | the clamp as written: the position is kept when it is within the raw byte length, otherwise 0 |
| OpenFile.AsWrittenPassesTextEnd | yomi_base/reader.py:323-325 | for a 9-byte UTF-8 file `日本語` and a saved position 5, the clamp keeps 5, beyond the 3-character text |
| OpenFile.AsWrittenEscapes | yomi_base/reader.py:323-325 | whenever the text is shorter than the bytes, some saved position passes the clamp and lies beyond the text |
| OpenFile.RestorePosition | yomi_base/reader.py:323-325 | the corrected clamp: the position is kept when it lies within the text, otherwise 0, so it always lies within the text |
| OpenFile.OpenDocumentAsWritten | yomi_base/reader.py:322-332 | `openFile` as written: the shown text is the resolved decode, with readings deleted when the preference says so; the label is the resolved one; the restored position is at most the raw byte length, and is the saved one when that is |
| OpenFile.OpenDocument | yomi_base/reader.py:322-332 | `openFile` corrected: the same text and label, with the restored position within the shown text, and the saved one when that is |

## Left out

- The Qt user interface is not modelled: widgets, fonts, palettes, dialogs, menus, the status bar and event wiring. The text cursor and the tag box are fields of `ReaderWindow`.
- File and tar archive reading (`openFileByExtension`) and the clipboard are I/O. The raw bytes are an input of `OpenDocument`.
- Preferences, recent-file persistence, `updateFactTags` and the update checker are persistence and network code.
- The Anki calls (`addNote`, `canAddNote`, `browseNote`) and the dictionary matcher `findTerm` are foreign components. The matched length is a parameter `findTerm: string -> nat`. The early returns of `ankiAddFact` when Anki or the profile is missing, and the definitions list update after a note is added, are not modelled.
- The codec internals for UTF-8, Shift_JIS, EUC-JP and UTF-16 are library code. Strict and lossy decoding are parameters, and a strict failure carries its start offset.
- The iteration order of the `errors` dict is an implementation detail of Python. It is a parameter: any order of the four codecs.
- `Text.IsSpace` is an explicit table of the characters Python 2.7's `unicode.isspace` accepts. It is not derived from the Unicode database.
- The HTML builders (`buildDefinitionHtml`, `buildDefinitionsHtml`) and `copyDefinitions` are presentation code.
- `replaceMarkupInFields` depends on Python's `str.format`.
- `Labels.ToInt` does not model `QString::toInt`'s tolerance of surrounding whitespace. The labels it reads start with digits, so this does not affect the round trip.
- OpenFile.OpenDocument uses the corrected clamp. It keeps the restored position within the shown text, which the code as written does not promise. `OpenFile.OpenDocumentAsWritten` models the code as written and bounds the position by the raw byte length only.
- `Reader.ReaderWindow.FindText` reports "not found" as a result instead of showing a message box.
- `Sentence.FindSentence` requires a position inside the text, or 0. On any other position the Python code raises `IndexError` at `content[i]`. Its callers can pass such a position. `onActionCopySentence` passes the scan position, which `updateSampleMouseEvent` takes from `cursorForPosition` and which can equal the text's length. The byte-length clamp of `openFile` can also leave the scan position beyond the text. The model does not cover that exception.

## Findings

| source | as written | input that shows it | evidently intended | confidence | as-written member | corrected member |
|---|---|---|---|---|---|---|
| yomi_base/reader.py:323-325 | the saved scan position, a character offset into the decoded text, is compared with `len(content)` while `content` still holds the raw bytes, before the decode at line 330 and before the readings are deleted | a UTF-8 file `日本語` (9 bytes, 3 characters) with a saved position of 5: the clamp keeps 5, past the end of the text | reset the position to 0 unless it lies within the text that is shown; `OpenFile.OpenDocument` uses the corrected clamp and `OpenFile.OpenDocumentAsWritten` the one as written | medium; not executed | OpenFile.AsWrittenPassesTextEnd | OpenFile.RestorePosition |
