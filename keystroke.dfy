/** The index arithmetic of `onType`, shared by both widgets: from the
    textarea's text and selection at keydown, the key, and the text once the
    browser has applied the key, compute the `removeChars` and `addChars`
    calls that bring the note up to date. The text after the key is an
    input here; reading it through a timer is not modelled. */
module Keystroke {
  import opened JsString

  /** The calls `onType` makes: none, or `removeChars(start, count)`
      followed by `addChars(start, chars)`. */
  datatype EditPlan = Ignored | Edit(start: int, count: int, chars: string)

  const Backspace: int := 8

  /** Escape (27), Tab (9) and the four arrow keys (37 to 40) leave the
      note alone. */
  predicate IgnoredKey(keyCode: int)
  {
    keyCode == 27 || keyCode == 9 || 37 <= keyCode <= 40
  }

  /** The start of the edit: one before the caret for a Backspace on a
      collapsed selection, never below 0; the selection start otherwise. */
  function EditStart(selStart: int, selEnd: int, keyCode: int): (start: int)
    ensures 0 <= selStart ==> 0 <= start <= selStart && selStart - start <= 1
    ensures start < selStart <==> keyCode == Backspace && selStart == selEnd && 0 < selStart
  {
    if keyCode == Backspace && selStart == selEnd then Max(selStart - 1, 0) else selStart
  }

  /** `textBefore` with the characters from `start` to the selection end
      taken out, as `onType` computes it before the timer fires. */
  function Excised(textBefore: string, start: int, selEnd: int): string
  {
    var length := selEnd - start;
    JsSubstr(textBefore, 0, start) + JsSubstrFrom(textBefore, start + length)
  }

  /** `onType`: the count is the selection length plus how much shorter
      the text became than its excised form; the characters are the slice
      of the new text at `start` as long as the new text outgrew the
      excised one. */
  function OnTypeEdit(textBefore: string, selStart: int, selEnd: int, keyCode: int, textAfter: string): (r: EditPlan)
    ensures r.Ignored? <==> IgnoredKey(keyCode)
    ensures r.Edit? ==> r.start == EditStart(selStart, selEnd, keyCode)
  {
    if IgnoredKey(keyCode) then Ignored
    else
      var start := EditStart(selStart, selEnd, keyCode);
      var length := selEnd - start;
      var excised := Excised(textBefore, start, selEnd);
      Edit(start, length + (|excised| - |textAfter|), JsSubstr(textAfter, start, |textAfter| - |excised|))
  }

  /** For a selection the textarea can hold, excising takes out exactly
      the characters between the edit start and the selection end. */
  lemma ExcisedIsCut(textBefore: string, selStart: int, selEnd: int, keyCode: int)
    requires 0 <= selStart <= selEnd <= |textBefore|
    ensures var start := EditStart(selStart, selEnd, keyCode);
            0 <= start <= selEnd && Excised(textBefore, start, selEnd) == textBefore[..start] + textBefore[selEnd..]
  {
  }

  /** Whatever the selection, the count passed to `removeChars` is the
      length of the text before the key minus the length after it: it is
      negative whenever the key made the text longer. */
  lemma CountIsShrinkage(textBefore: string, selStart: int, selEnd: int, keyCode: int, textAfter: string)
    requires 0 <= selStart <= selEnd <= |textBefore| && !IgnoredKey(keyCode)
    ensures OnTypeEdit(textBefore, selStart, selEnd, keyCode, textAfter).count == |textBefore| - |textAfter|
  {
    ExcisedIsCut(textBefore, selStart, selEnd, keyCode);
  }

  /** The characters passed to `addChars` are empty unless the new text is
      longer than the excised text, and are then the slice of the new text
      that starts at the edit start and is as long as the growth. */
  lemma CharsAreTheGrowth(textBefore: string, selStart: int, selEnd: int, keyCode: int, textAfter: string)
    requires 0 <= selStart <= selEnd <= |textBefore| && !IgnoredKey(keyCode)
    ensures var r := OnTypeEdit(textBefore, selStart, selEnd, keyCode, textAfter);
            var grown := |textAfter| - (|textBefore| - (selEnd - r.start));
            (grown <= 0 ==> r.chars == [])
            && (grown > 0 && r.start <= |textAfter| ==> r.chars == textAfter[r.start..Min(r.start + grown, |textAfter|)])
  {
    ExcisedIsCut(textBefore, selStart, selEnd, keyCode);
  }

  /** Typing characters at a collapsed caret: the edit asks `removeChars`
      for a negative count, minus the number of characters typed, and
      hands exactly the typed characters to `addChars`. */
  lemma TypingAtCaret(textBefore: string, caret: int, keyCode: int, typed: string)
    requires 0 <= caret <= |textBefore| && !IgnoredKey(keyCode) && keyCode != Backspace && typed != []
    ensures var textAfter := textBefore[..caret] + typed + textBefore[caret..];
            OnTypeEdit(textBefore, caret, caret, keyCode, textAfter) == Edit(caret, -|typed|, typed)
  {
    var textAfter := textBefore[..caret] + typed + textBefore[caret..];
    ExcisedIsCut(textBefore, caret, caret, keyCode);
    assert textAfter[caret..caret + |typed|] == typed;
  }

  /** Backspace at a collapsed caret after the first character: the edit
      removes the one character before the caret and adds nothing. */
  lemma BackspaceAtCaret(textBefore: string, caret: int)
    requires 0 < caret <= |textBefore|
    ensures var textAfter := textBefore[..caret - 1] + textBefore[caret..];
            OnTypeEdit(textBefore, caret, caret, Backspace, textAfter) == Edit(caret - 1, 1, [])
  {
    ExcisedIsCut(textBefore, caret, caret, Backspace);
  }
}
