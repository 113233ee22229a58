# Notes made of phrases: a Dafny model

backbone-textcomplete and backbone-typeahead are two variants of one note
editor widget. A **note** is an ordered collection of **phrases**. Each
phrase has three attributes:

- a `type`, which defaults to `'text'`;
- a `text`;
- an optional `value`.

A plain phrase is ordinary text. Any other type marks an annotation, such
as a user, a time or a date.

The note is edited through a plain textarea. On every key, `onType` compares
the textarea's text and selection before the key with the text after it. It
then calls `removeChars(start, count)`, `addChars(start, chars)` and
`cleanUpTree()` so that the note's plain text follows the textarea.

The caret-scanner variant (backbone-textcomplete.js) adds two pieces:

- two whitespace search helpers on strings;
- a trigger gate, which takes the word at the caret and decides whether to
  fetch suggestions for it.

The model has these modules:

- `JsString`: the ECMAScript string operations the code relies on. These are
  `substr` (ECMA-262 Annex B.2.2.1), with negative starts and non-positive
  lengths, and `substring`, with its clamping and swapping. It also defines
  the whitespace class `\s`, which is the WhiteSpace and LineTerminator
  productions of ECMA-262 (sections 11.2 and 11.3 of the 2015 edition).
- `Phrases`: the phrase datatype, and the read-only views `toPlainText`,
  `toHTML`, `Phrase.toHTML` and `getTime`/`getDate`.
- `NoteOps`: pure functions that give the phrase sequence after `addChars`,
  `removeChars` and `cleanUpTree`, for both variants, and the lemmas about
  them.
- `Notes`: the collection as a class `Note` whose `phrases` field the methods
  update in place. Each method walks the phrases the way `find` or `each`
  does, and is proved to end in the state the matching `NoteOps` function
  gives.
- `Whitespace`: `regexIndexOf` and `regexLastIndexOf` with the regular
  expression `/\s/`, the only one any caller passes. `regexLastIndexOf` is a
  method with its `exec` loop.
- `TriggerGate`: `parseAtCaret` and `parseCurrentWord`. The threshold is
  `searchLength` = 2. The endpoints are modelled as the set of their keys.
- `Keystroke`: the index arithmetic of `onType`. Both widgets share it
  (backbone-textcomplete.js:188-211, backbone-typeahead.js:153-170).
- `Intended`: for each of the three defects below, concrete inputs that show
  the behaviour as written, and a corrected definition. The corrected
  definitions are proved to keep the note's plain text equal to the
  textarea's text.

Both source files contain the same `Note`, except that the typeahead
`addChars` lacks the branch for an empty note. That variant is
`AfterAddCharsTypeahead` / `Note.AddCharsTypeahead`. Its
`removeChars`, `cleanUpTree` and views are identical to the caret scanner's,
so one definition covers both files.

## Model

| member | source | states |
|---|---|---|
| JsString.JsSubstr | backbone-textcomplete.js:87 | `substr` never yields more than the string. It yields `""` for a length of zero or less. For an in-range start it is the slice from `start`, cut at the end of the string. A negative start counts from the end, and a start at or past the end gives `""`. |
| JsString.JsSubstrFrom | backbone-textcomplete.js:243 | `substr(start)` is the suffix from `start`. A negative start counts from the end, and a start past the end gives `""`. |
| JsString.JsSubstring | backbone-textcomplete.js:237 | For ordered in-range arguments `substring(a, b)` is the slice `[a, b)`, and it is never longer than the string. |
| JsString.SubstringSymmetric | backbone-textcomplete.js:237 | `substring` gives the same result with its arguments swapped. This covers `li + 1 > ri`. |
| JsString.SubstrSplit | backbone-textcomplete.js:62 | `substr(0, k) + substr(k)` is the whole string for an offset inside it. |
| Phrases.PhraseHtml | backbone-textcomplete.js:34-39 | The HTML is the bare text exactly when the type is `'text'`. Otherwise it is the opening anchor carrying the type and the value's string form, then the text, then `</a>`. |
| Phrases.HtmlCoversText | backbone-textcomplete.js:128-133 | The note's HTML is never shorter than its plain text, and equals it when every phrase is plain. |
| Phrases.HtmlConcat | backbone-textcomplete.js:128-133 | The HTML of two phrase sequences joined is the join of their HTML: each phrase renders on its own, in order. |
| Phrases.IndexOfKind | backbone-textcomplete.js:119 | `findWhere({type})` finds the first phrase of that type, or -1 exactly when there is none. |
| Phrases.ValueOfFirst | backbone-textcomplete.js:118-126 | The result is `null` when no phrase has the type. Otherwise it is the value of the first phrase that has it. |
| Phrases.PlainTextConcat | backbone-textcomplete.js:135-140 | The plain text of two phrase sequences joined is the join of their plain texts. |
| Phrases.OffsetIsPrefixLength | backbone-textcomplete.js:135-140 | Phrase `k` starts in the plain text at the sum of the lengths of the phrases before it. |
| Phrases.PhraseAtOffset | backbone-textcomplete.js:135-140 | Each phrase's text sits in the plain text at its offset. |
| Phrases.LengthInvariant | backbone-textcomplete.js:135-140 | The phrase lengths add up to the length of the plain text. |
| Notes.Note.ToPlainText | backbone-textcomplete.js:135-140 | `toPlainText` is as long as the phrases together. Every phrase's text appears at its offset. |
| Notes.Note.ToHtml | backbone-typeahead.js:98-103 | `toHTML` is never shorter than the plain text, and is the plain text when no phrase is annotated. |
| Notes.Note.GetTime | backbone-textcomplete.js:118-121 | `getTime` gives the value of the first `'time'` phrase, or `null` when there is none. |
| Notes.Note.GetDate | backbone-typeahead.js:93-96 | `getDate` gives the value of the first `'date'` phrase, or `null` when there is none. |
| Notes.Note.InsertChars | backbone-textcomplete.js:56-75 | The `find` loop leaves exactly the phrases that `InsertAtTarget` gives for the old phrases. |
| Notes.Note.AddChars | backbone-textcomplete.js:50-77 | `addChars` leaves exactly `AfterAddChars(old phrases, start, chars)`. |
| Notes.Note.AddCharsTypeahead | backbone-typeahead.js:24-47 | The typeahead `addChars` leaves exactly `AfterAddCharsTypeahead(old phrases, start, chars)`. |
| Notes.Note.RemoveChars | backbone-textcomplete.js:79-101 | `removeChars` walks the live phrase list and leaves exactly `AfterRemoveChars(old phrases, start, length)`. |
| Notes.Note.CleanUpTree | backbone-textcomplete.js:103-116 | The `prev`/`garbage` pass leaves exactly `CleanedUp(old phrases)`. |
| Notes.Note.ApplyEdit | backbone-textcomplete.js:210-213 | After remove, add and clean-up, the note is canonical, its plain text is that of the edited phrases before the clean-up, and no phrase has empty text if none had before. |
| Notes.Note.ApplyEditTypeahead | backbone-typeahead.js:169-172 | The same for the typeahead widget's remove, add and clean-up: the note is canonical, its plain text is that of the edited phrases, and no phrase has empty text if none had before. |
| NoteOps.FindFrom | backbone-textcomplete.js:56-75 | The resumed `find` stops, if at all, at a phrase at or after where it resumed. |
| NoteOps.FindFromOffset | backbone-textcomplete.js:61-73 | Where `find` stops, the running offset is `start` minus the lengths of the phrases it passed, and fits in that phrase. |
| NoteOps.FindFromPasses | backbone-textcomplete.js:61-73 | Every phrase `find` passes is shorter than the running offset it sees. |
| NoteOps.FindFromSpec | backbone-textcomplete.js:56-75 | The resumed `find` stops at the first phrase that can hold the running offset. When it finds none, every phrase is too short. |
| NoteOps.FindTargetSpec | backbone-textcomplete.js:56-75 | The target of `addChars` is the first phrase `k` with `start - Offset(k) <= length`, at that offset. It has none exactly when every phrase is too short. |
| NoteOps.AfterAddCharsTypeahead | backbone-typeahead.js:24-47 | The typeahead `addChars` agrees with the caret scanner's on every non-empty note, and leaves an empty note empty. |
| NoteOps.TargetSpansStart | backbone-textcomplete.js:56-75 | `find` stops at the phrase whose span holds `start`, the earlier one on a boundary, at offset `start - Offset(k)`. |
| NoteOps.AddCharsSplices | backbone-textcomplete.js:61-68 | Except at the very end of an annotation, the target gets `text[..off] + chars + text[off..]` and type `'text'` and keeps its value. Every other phrase is unchanged. |
| NoteOps.AddCharsSplicesText | backbone-textcomplete.js:62-67 | In that case the plain text is the text before the target, the spliced target, and the text after it. |
| NoteOps.AddCharsInsertsAtStart | backbone-textcomplete.js:61-67 | In that case the plain text becomes `old[..start] + chars + old[start..]`. |
| NoteOps.AddCharsAfterAnnotation | backbone-textcomplete.js:63-64 | At the very end of an annotation, the note becomes the old phrases plus one plain phrase `chars` at the end of the collection. The plain text becomes `old + chars`. |
| NoteOps.AddCharsBeyondEnd | backbone-typeahead.js:26-45 | In a non-empty note, a start past the end of the text changes nothing in either variant. |
| NoteOps.AddCharsEdgeCases | backbone-textcomplete.js:51-55 | Empty `chars` changes nothing. On an empty note the caret scanner adds one plain phrase holding `chars`, and the typeahead variant adds nothing. |
| NoteOps.VisitForRemoval | backbone-textcomplete.js:82-97 | One visit never lengthens the list and never touches the phrases before the visited index. |
| NoteOps.RemoveWalk | backbone-textcomplete.js:81-99 | The live-list walk never adds a phrase. |
| NoteOps.AfterRemoveChars | backbone-textcomplete.js:79-101 | `removeChars(start, 0)` changes nothing, and `removeChars` never adds a phrase. |
| NoteOps.WalkPassesOne | backbone-textcomplete.js:86-98 | A phrase ending at or before the running start is passed over, and the running start drops by its length. |
| NoteOps.WalkSkips | backbone-textcomplete.js:81-99 | The walk passes over all phrases ending at or before `start`, unchanged. |
| NoteOps.WalkKeepsPrefix | backbone-typeahead.js:49-70 | The walk never touches the phrases before the index it starts at. |
| NoteOps.RemoveWithinPhrase | backbone-textcomplete.js:86-95 | For a deletion inside one phrase, that phrase loses exactly `[off, off + length)`. It is removed when emptied, and otherwise forced to `'text'`. Every other phrase is unchanged. |
| NoteOps.RemoveWithinPhraseJoined | backbone-typeahead.js:56-64 | In that case the plain text is the text before the phrase, what is left of it, and the text after it. |
| NoteOps.RemoveWithinPhraseText | backbone-textcomplete.js:80-98 | In that case the plain text becomes `old[..start] + old[start + length..]`. |
| NoteOps.TouchedPhraseStays | backbone-textcomplete.js:86-93 | A touched phrase that keeps some text stays at its index with `substr(0, start) + substr(start + length)` as its text. |
| NoteOps.TouchedTailKeepsPrefix | backbone-textcomplete.js:86-98 | From the touched phrase on, the result still starts with that phrase's text before the running start. |
| NoteOps.TouchKeepsPrefix | backbone-textcomplete.js:86-98 | Once the walk reaches the touched phrase, the text before the deletion start is a prefix of the result. |
| NoteOps.RemoveAtOrBeyondEnd | backbone-textcomplete.js:81-99 | A deletion starting at or past the end of the text changes nothing. |
| NoteOps.RemoveForwardKeepsPrefix | backbone-textcomplete.js:81-99 | A positive-length deletion starting inside the text keeps the text before its start. |
| NoteOps.RemoveBackwardStopsAtFirst | backbone-textcomplete.js:86-98 | With a negative length the remaining length stays at most zero after the first phrase, so the result is that one phrase's visit. |
| NoteOps.RemoveBackwardKeepsPrefix | backbone-textcomplete.js:86-98 | With a negative length and `start` inside the text, the text before `start` is kept. |
| NoteOps.RemoveKeepsTextBeforeStart | backbone-textcomplete.js:79-101 | For any length, even one crossing phrases or negative, the plain text before `start` survives unchanged. |
| NoteOps.CleanedUp | backbone-textcomplete.js:103-116 | `cleanUpTree` never lengthens the note. |
| NoteOps.MergeIntoText | backbone-textcomplete.js:107-112 | One step of the pass appends the phrase's text to the plain text of what is kept. |
| NoteOps.CleanUpStepText | backbone-textcomplete.js:106-113 | The last step of the pass adds the last phrase's text to the cleaned-up plain text. |
| NoteOps.CleanUpKeepsText | backbone-textcomplete.js:103-116 | `cleanUpTree` preserves the plain text. |
| NoteOps.CleanUpIsCanonical | backbone-textcomplete.js:103-116 | After `cleanUpTree` no two neighbouring phrases are both `'text'`. |
| NoteOps.CanonicalIsFixedPoint | backbone-typeahead.js:73-86 | A note with no two neighbouring plain phrases is left exactly as it is. |
| NoteOps.CleanUpIdempotent | backbone-typeahead.js:73-86 | A second `cleanUpTree` changes nothing. |
| NoteOps.MergeIntoAnnotations | backbone-textcomplete.js:107-112 | One step of the pass keeps every annotation, unchanged. |
| NoteOps.CleanUpKeepsAnnotations | backbone-textcomplete.js:103-116 | `cleanUpTree` keeps the annotated phrases unchanged and in order. |
| NoteOps.CleanUpMergesRun | backbone-typeahead.js:76-84 | A run of plain phrases collapses into its first phrase, which keeps its value and takes the run's whole text. |
| NoteOps.MergeIntoAfterAnnotation | backbone-textcomplete.js:107-112 | Once an annotation has become `prev`, a step of the pass acts only on what follows it. |
| NoteOps.CleanUpSplitsAtAnnotation | backbone-textcomplete.js:103-116 | An annotation splits `cleanUpTree` in two: the phrases before it and after it are cleaned up on their own, and it stays between them. |
| NoteOps.CleanUpRunBeforeAnnotation | backbone-textcomplete.js:103-116 | A plain run before an annotation collapses into its first phrase, and the phrases after the annotation are cleaned up on their own. |
| NoteOps.AddCharsKeepsNoEmptyText | backbone-textcomplete.js:50-76 | When no phrase has empty text, none has after `addChars`, in either variant: empty `chars` returns early, and otherwise `chars` goes into a phrase or a new one. |
| NoteOps.VisitKeepsNoEmptyText | backbone-textcomplete.js:86-95 | One visit of `removeChars` leaves no phrase with empty text: a phrase it empties is removed. |
| NoteOps.RemoveWalkKeepsNoEmptyText | backbone-textcomplete.js:81-99 | The whole walk of `removeChars` leaves no phrase with empty text. |
| NoteOps.RemoveCharsKeepsNoEmptyText | backbone-textcomplete.js:79-101 | When no phrase has empty text, none has after `removeChars`. |
| NoteOps.CleanUpKeepsNoEmptyText | backbone-textcomplete.js:103-116 | When no phrase has empty text, none has after `cleanUpTree`, which only concatenates texts. |
| Whitespace.SearchFrom | backbone-textcomplete.js:4 | The search gives -1, or an index at or after `from` holding whitespace. |
| Whitespace.SearchFromSpec | backbone-textcomplete.js:4 | The search gives -1 exactly when no whitespace lies at or after `from`. Otherwise it gives the first such whitespace. |
| Whitespace.LastSpaceAtOrBefore | backbone-textcomplete.js:8-23 | The result is -1 or an in-range whitespace index at most `p`. |
| Whitespace.LastSpaceSpec | backbone-textcomplete.js:8-23 | The result is -1 exactly when no whitespace lies in `[0, p]`. Otherwise nothing after it up to `p` is whitespace. |
| Whitespace.SearchInSuffix | backbone-textcomplete.js:4-5 | Searching `substring(from)` and shifting back by `from` finds what searching from `from` finds. |
| Whitespace.RegexIndexOf | backbone-textcomplete.js:3-6 | For a start that is not negative, `regexIndexOf` is the search from that start. |
| Whitespace.RegexIndexOfSpec | backbone-textcomplete.js:3-6 | `regexIndexOf(/\s/, p)` is the least whitespace index at or after `p`, or -1 exactly when there is none. |
| Whitespace.RegexIndexOfHit | backbone-textcomplete.js:3-6 | When whitespace lies at `j >= from`, `regexIndexOf` finds one at or before `j`. |
| Whitespace.RegexIndexOfMiss | backbone-textcomplete.js:3-6 | When no whitespace follows `from`, `regexIndexOf` gives -1. |
| Whitespace.EffectiveStart | backbone-textcomplete.js:10-14 | The clamped start never lies past the end of the string unless the caller passed a start past the end. |
| Whitespace.LastIndexOfClamped | backbone-textcomplete.js:10-15 | A missing start, or one at or past the last index, searches the whole string. A start at or below zero still looks at the first character. |
| Whitespace.RegexLastIndexOf | backbone-textcomplete.js:8-23 | The `exec` loop terminates and returns the greatest whitespace index at or before the effective start, or -1. |
| TriggerGate.TrailingWordIsSuffix | backbone-textcomplete.js:234-237 | The longest whitespace-free suffix is a suffix, and whitespace precedes it when it is not the whole string. |
| TriggerGate.TrailingWordSpec | backbone-textcomplete.js:234-237 | The trailing word holds no whitespace. |
| TriggerGate.LeadingWord | backbone-textcomplete.js:235-237 | The longest whitespace-free prefix is a prefix, and whitespace follows it when it is not the whole string. |
| TriggerGate.LeadingWordSpec | backbone-textcomplete.js:235-237 | The leading word holds no whitespace. |
| TriggerGate.CaretWord | backbone-textcomplete.js:229-237 | The word at the caret is never longer than the text. |
| TriggerGate.ParseCurrentWord | backbone-textcomplete.js:241-248 | A lookup fires exactly when the word has at least `1 + searchLength` characters and its first character is an endpoint key. The symbol is that character and the query is the rest. |
| TriggerGate.ParseAtCaret | backbone-textcomplete.js:229-239 | Run with the two search helpers, `parseAtCaret` decides as `Gate` does. A fetch has a query of at least `searchLength` and a known symbol. |
| TriggerGate.TrailingWordSlice | backbone-textcomplete.js:234 | The trailing word of `s[..end]` is a whitespace-free slice of `s` ending at `end`, with whitespace just before it. |
| TriggerGate.LastSpaceIs | backbone-textcomplete.js:8-23 | The last whitespace at or before `p` is any whitespace `q` with nothing after it up to `p`, and -1 when none exists. |
| TriggerGate.TrailingWordAfterLastSpace | backbone-textcomplete.js:234-237 | The text from just after `regexLastIndexOf(caret - 1)` to the caret is the whitespace-free run before the caret. |
| TriggerGate.LeadingWordBeforeFirstSpace | backbone-textcomplete.js:235-237 | The text from the caret to the first whitespace after it is the whitespace-free run after the caret. |
| TriggerGate.CaretWordBounds | backbone-textcomplete.js:234-237 | For a selection starting after position 0, the word is `text[li + 1..ri]`, where `ri` falls back to the selection start. |
| TriggerGate.SelectionWordSpans | backbone-textcomplete.js:234-237 | When whitespace follows the selection end, the word is the run before the selection, the whole selection (whitespace included), then the run after the selection end. |
| TriggerGate.SelectionWordStopsAtStart | backbone-textcomplete.js:235-237 | When no whitespace follows the selection end, the word stops at the selection start. |
| TriggerGate.CaretWordInside | backbone-textcomplete.js:234-237 | When whitespace follows a collapsed caret after position 0, the word is the run before the caret followed by the run after it. |
| TriggerGate.CaretWordInLastWord | backbone-textcomplete.js:235-237 | When no whitespace follows a collapsed caret after position 0, the word stops at the caret. |
| TriggerGate.CaretWordHasNoSpace | backbone-textcomplete.js:229-237 | The word at a collapsed caret after position 0 never holds whitespace. |
| TriggerGate.CaretWordAtTextStart | backbone-textcomplete.js:234-237 | At caret 0 of " a" the word is " ": the clamped backward search finds the leading space, and `substring` swaps its crossed bounds. |
| TriggerGate.TrailingWordsOfExample | backbone-textcomplete.js:234-237 | In "hello @bo" the run before caret 9 is "@bo", and the run before caret 8 is "@b". |
| TriggerGate.GateFiresOnLongQuery | backbone-textcomplete.js:241-245 | Typing "hello @bo" with endpoint `@` fetches `@` with query "bo". |
| TriggerGate.GateHoldsBack | backbone-textcomplete.js:244 | The query "b" is too short, and a symbol that is not an endpoint never fires. |
| Keystroke.EditStart | backbone-textcomplete.js:190-192 | For a selection start of 0 or more, the edit start lies between 0 and the selection start, at most one before it. It lies before the selection start exactly for a Backspace on a collapsed selection after position 0. |
| Keystroke.OnTypeEdit | backbone-textcomplete.js:183-211 | Escape, Tab and arrows do nothing. Any other key edits from `EditStart`. |
| Keystroke.ExcisedIsCut | backbone-textcomplete.js:204-206 | For a valid selection, the excised text is the text without `[start, selEnd)`. |
| Keystroke.CountIsShrinkage | backbone-typeahead.js:163-169 | The count passed to `removeChars` is `|textBefore| - |textAfter|`, so it is negative whenever the key lengthened the text. |
| Keystroke.CharsAreTheGrowth | backbone-textcomplete.js:211 | The chars are `""` unless the new text outgrew the excised one. Then they are the slice at `start` as long as the growth. |
| Keystroke.TypingAtCaret | backbone-textcomplete.js:204-212 | Typing at a collapsed caret gives `removeChars(caret, -|typed|)` and `addChars(caret, typed)`. |
| Keystroke.BackspaceAtCaret | backbone-textcomplete.js:190-211 | Backspace after the first character gives `removeChars(caret - 1, 1)` and no chars. |
| Intended.TypingMidWordDuplicates | backbone-textcomplete.js:204-213 | Typing "x" at caret 1 of "abc" yields "axabc", not "axbc". |
| Intended.RemoveAcrossPhrases | backbone-textcomplete.js:86-97 | `removeChars(1, 2)` on "ab" and annotation "cd" leaves "a" and a plain "cd". |
| Intended.AddAfterAnnotationAppends | backbone-textcomplete.js:63-64 | Typing "x" right after annotation "max" followed by "!" yields "max!x". |
| Intended.IntendedEdit | backbone-textcomplete.js:210 | The corrected plan ignores exactly the keys that `onType` ignores. |
| Intended.IntendedCountIsDeletion | backbone-textcomplete.js:210 | The corrected count is never negative. It is the selection length plus the characters deleted beyond it. |
| Intended.IntendedRemovePassText | backbone-textcomplete.js:86-97 | Passing a phrase keeps its text ahead of the rest of the corrected walk. |
| Intended.IntendedRemoveCutText | backbone-textcomplete.js:86-97 | Cutting into a phrase keeps what is left of it ahead of the rest of the walk, which starts at offset 0. |
| Intended.IntendedRemovePasses | backbone-textcomplete.js:79-101 | The corrected deletion is right when its first phrase is passed over. |
| Intended.IntendedRemoveCutsTail | backbone-textcomplete.js:79-101 | After the first cut, the corrected walk removes the rest of the range from the following phrases. |
| Intended.IntendedRemoveCutsInto | backbone-textcomplete.js:79-101 | The corrected deletion is right when it cuts into its first phrase. |
| Intended.IntendedRemoveCuts | backbone-textcomplete.js:79-101 | The corrected deletion removes exactly `[start, start + length)` of the plain text, across any number of phrases. |
| Intended.IntendedAddBehind | backbone-textcomplete.js:63-64 | Typing right after an annotation, the corrected insertion lands at `start`. |
| Intended.IntendedAddSplices | backbone-textcomplete.js:61-68 | Elsewhere in a non-empty note, the corrected insertion splices at `start`. |
| Intended.IntendedAddTrivial | backbone-textcomplete.js:51-55 | With empty chars or an empty note, the corrected insertion also puts `chars` at `start`. |
| Intended.IntendedAddInserts | backbone-textcomplete.js:50-77 | The corrected insertion makes the plain text `old[..start] + chars + old[start..]` for every start in the text. |
| Intended.InsertBehindAnnotation | backbone-textcomplete.js:64 | A plain phrase inserted right behind phrase `k` lands at the end of that phrase's text. |
| Intended.IntendedStepsSplice | backbone-textcomplete.js:210-213 | The corrected remove, add and clean-up replace `[start, start + count)` of the plain text by `chars`. |
| Intended.IntendedEditOfKey | backbone-textcomplete.js:204-211 | For a key that replaced the selection by `typed`, or deleted `forward` more characters, the corrected plan replaces exactly that range by `typed`. |
| Intended.ReconcileMirrorsTextarea | backbone-textcomplete.js:204-213 | With the corrected steps, the note's plain text after a key equals the textarea's new text. |
| Intended.IntendedRepairsTyping | backbone-textcomplete.js:210-212 | The corrected steps turn "abc" into "axbc" when "x" is typed at caret 1. |
| Intended.IntendedRepairsRemoval | backbone-textcomplete.js:86-97 | The corrected deletion turns "ab" and "cd" into "ad". |
| Intended.IntendedRepairsInsertion | backbone-textcomplete.js:63-64 | The corrected insertion turns "max" and "!" into "maxx!". |

## Left out

- The DOM and the event wiring: `render`, `updateHtml`, the focus, blur and click handlers, `enableEdit`/`disableEdit`, Escape blurring the textarea, and reading text and selection through jQuery. These are UI. The text, selection and key are parameters here.
- The `setTimeout` deferral in `onType` and the `typing` flag of the caret-scanner widget, which drops keys while an update is pending. These are timer and event ordering. The text after the key is an input of `OnTypeEdit`.
- `parseAtCaret` reads the text and selection after the key, and is modelled on those values. Running it inside the timer callback is not modelled.
- `this.endPoints[symbol].fetch(...)` and `console.log`. These call an external data source. The model decides whether to fetch and with which symbol and query (`Lookup`). A `symbol in endPoints` lookup on an undefined `endPoints`, which would throw, is not modelled.
- Backbone change events from `set`, `add` and `remove`, and the identity of phrase objects. Phrases are values, so aliasing between a phrase and the collection is not modelled.
- How Underscore's `find` iterates the live models array after `remove`. The library is not shown. The model states its choice in `NoteOps.RemoveWalk`: it always goes on to index `i + 1`, so the phrase that slides into a removed phrase's place is not visited.
- HTML escaping. The code does none, and `toHTML` is modelled as plain concatenation. A phrase's `value` appears in the HTML through its string conversion, which `JsValue.Val` carries as a string.
- UTF-16 code units. Strings are sequences of Unicode scalar values, so `length` and `substr` count characters, not code units.
- The global variables the code leaks (`prev` in `addChars`, `result` in `regexLastIndexOf`, `selectedText` in `onType`), and the monkey-patching of `String.prototype`. Neither affects a result.
- `regexLastIndexOf` with a regular expression other than `/\s/`, and its flag handling. Every caller passes `/\s/`.
- TriggerGate.CaretWord: the lemmas about the word cover only a selection that starts after position 0. At selection start 0 in a text that starts with whitespace, the backward search is clamped to position 0 and finds that whitespace, so the word is that one whitespace character instead of the empty run (`CaretWordAtTextStart`). A one-character word is shorter than `1 + searchLength`, so the gate never fires on it.
- Whitespace.RegexIndexOf: the contract covers only a start that is not negative. For a negative start, `substring` searches the whole string while the shift still subtracts. The only caller passes a selection end, which is never negative.
- A plain-text round trip for `removeChars` is proved only for deletions inside one phrase (`NoteOps.RemoveWithinPhraseText`), plus the fact that the text before `start` always survives. A deletion that crosses phrases does not round-trip as written (see Findings). The corrected walk does (`Intended.IntendedRemoveCuts`).
- The constructor `new Note()` and `initialize`. The caret-scanner `initialize` copies only `note` and `endPoints`, so `searchLength` stays 2 whatever options are passed.

## Findings

| source | as written | input that shows it | evidently intended | confidence | as-written member | corrected member |
|---|---|---|---|---|---|---|
| backbone-textcomplete.js:210 | The count passed to `removeChars` is `length + (|excised| - |textAfter|)`, which is negative when text was typed. `removeChars(1, -1)` then duplicates text through `substr`. | Note "abc", caret 1, key "x", textarea "axbc": the note becomes "axabc". | The count is the selection plus the characters deleted beyond it, and is never negative. | not executed | Intended.TypingMidWordDuplicates | Intended.IntendedCountIsDeletion |
| backbone-textcomplete.js:97 | After the first phrase it cuts, the running `start` is negative, so `substr(start + length)` counts from the end of the next phrase. That phrase is kept whole and forced to `'text'`. | Phrases "ab" and annotation "cd", `removeChars(1, 2)`: the phrases become "a" and a plain "cd". | The deletion goes on from the start of the following phrases until `length` characters are gone. | not executed | Intended.RemoveAcrossPhrases | Intended.IntendedRemoveCuts |
| backbone-textcomplete.js:64 | At the very end of an annotation, `this.add({text: chars})` has no index, so the new phrase goes to the end of the collection. | Annotation "max" then "!", `addChars(3, "x")`: the text becomes "max!x". | The new phrase goes directly behind the annotation, giving "maxx!". | not executed | Intended.AddAfterAnnotationAppends | Intended.IntendedAddInserts |
