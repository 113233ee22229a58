/** The note collection as an object whose phrase list the editing
    operations change in place. Each method walks the phrases the way the
    collection's `find` or `each` does and is proved to leave exactly the
    phrase sequence that the matching function of `NoteOps` describes. */
module Notes {
  import opened JsString
  import opened Phrases
  import opened NoteOps

  class Note {
    /** The collection's models, in order. */
    var phrases: seq<Phrase>

    constructor (initial: seq<Phrase>)
      ensures phrases == initial
    {
      phrases := initial;
    }

    /** `toPlainText`: every phrase's text sits at its offset, and nothing
        else is in between. */
    function ToPlainText(): (r: string)
      reads this
      ensures |r| == Offset(phrases, |phrases|)
      ensures forall k :: 0 <= k < |phrases| ==>
                Offset(phrases, k) + |phrases[k].text| <= |r|
                && r[Offset(phrases, k)..Offset(phrases, k) + |phrases[k].text|] == phrases[k].text
    {
      LengthInvariant(phrases);
      PlainTextLayout(phrases);
      PlainText(phrases)
    }

    /** `toHTML`: never shorter than the plain text, and equal to it when no
        phrase is annotated. */
    function ToHtml(): (r: string)
      reads this
      ensures |r| >= |PlainText(phrases)|
      ensures AllText(phrases) ==> r == PlainText(phrases)
    {
      HtmlCoversText(phrases);
      Html(phrases)
    }

    /** `getTime`: the value of the first phrase of type 'time', or null. */
    function GetTime(): (r: JsValue)
      reads this
      ensures (forall i :: 0 <= i < |phrases| ==> phrases[i].kind != "time") ==> r == Null
      ensures forall i :: (0 <= i < |phrases| && phrases[i].kind == "time"
                           && forall j :: 0 <= j < i ==> phrases[j].kind != "time") ==> r == phrases[i].value
    {
      ValueOfFirst(phrases, "time")
    }

    /** `getDate`: the value of the first phrase of type 'date', or null. */
    function GetDate(): (r: JsValue)
      reads this
      ensures (forall i :: 0 <= i < |phrases| ==> phrases[i].kind != "date") ==> r == Null
      ensures forall i :: (0 <= i < |phrases| && phrases[i].kind == "date"
                           && forall j :: 0 <= j < i ==> phrases[j].kind != "date") ==> r == phrases[i].value
    {
      ValueOfFirst(phrases, "date")
    }

    /** The `find` shared by both `addChars`: walk the phrases, taking each
        one's length off `start`, and stop at the first phrase that is long
        enough to hold the remaining offset. */
    method InsertChars(start: int, chars: string)
      modifies this
      ensures phrases == InsertAtTarget(old(phrases), start, chars)
    {
      var run := start;
      var i := 0;
      while i < |phrases|
        invariant i <= |phrases| && phrases == old(phrases)
        invariant FindFrom(phrases, i, run) == FindTarget(phrases, start)
        decreases |phrases| - i
      {
        var text := phrases[i].text;
        var l := |text|;
        if run <= l {
          var textNew := JsSubstr(text, 0, run) + chars + JsSubstrFrom(text, run);
          if phrases[i].kind != TextKind && run == l {
            phrases := phrases + [TextPhrase(chars)];
          } else {
            phrases := phrases[i := phrases[i].(kind := TextKind, text := textNew)];
          }
          return;
        }
        run := run - l;
        i := i + 1;
      }
    }

    /** `addChars` of the caret-scanner widget. */
    method AddChars(start: int, chars: string)
      modifies this
      ensures phrases == AfterAddChars(old(phrases), start, chars)
    {
      if chars == [] {
        return;
      }
      if |phrases| == 0 {
        phrases := [TextPhrase(chars)];
        return;
      }
      InsertChars(start, chars);
    }

    /** `addChars` of the typeahead widget, without the empty-note branch. */
    method AddCharsTypeahead(start: int, chars: string)
      modifies this
      ensures phrases == AfterAddCharsTypeahead(old(phrases), start, chars)
    {
      if chars == [] {
        return;
      }
      InsertChars(start, chars);
    }

    /** `removeChars`: visit the live phrase list by index, cutting from the
        phrase the running start falls inside, and stop as soon as the
        remaining length is at most zero. */
    method RemoveChars(start: int, length: int)
      modifies this
      ensures phrases == AfterRemoveChars(old(phrases), start, length)
    {
      if length == 0 {
        return;
      }
      var run, remaining := start, length;
      var i := 0;
      while i < |phrases|
        invariant RemoveWalk(phrases, i, run, remaining) == AfterRemoveChars(old(phrases), start, length)
        decreases |phrases| - i
      {
        ghost var visit := VisitForRemoval(phrases, i, run, remaining);
        var text := phrases[i].text;
        var l := |text|;
        if run < l {
          var textNew := JsSubstr(text, 0, run) + JsSubstrFrom(text, run + remaining);
          if |textNew| == 0 {
            phrases := phrases[..i] + phrases[i + 1..];
          } else {
            phrases := phrases[i := phrases[i].(kind := TextKind, text := textNew)];
          }
          remaining := remaining - (l - |textNew|);
        }
        assert phrases == visit.0 && remaining == visit.1;
        run := run - l;
        if remaining <= 0 {
          return;
        }
        i := i + 1;
      }
    }

    /** `cleanUpTree`: one pass in which a plain phrase that follows a plain
        `prev` is appended to it and collected as garbage; the phrases that
        are not garbage are kept, in order. */
    method CleanUpTree()
      modifies this
      ensures phrases == CleanedUp(old(phrases))
    {
      var kept: seq<Phrase> := [];
      var i := 0;
      while i < |phrases|
        invariant i <= |phrases|
        invariant kept == CleanedUp(phrases[..i])
      {
        assert phrases[..i + 1][..i] == phrases[..i];
        kept := MergeInto(kept, phrases[i]);
        i := i + 1;
      }
      assert phrases[..i] == phrases;
      phrases := kept;
    }

    /** What one keystroke does to the note once the textarea has changed:
        `removeChars(start, count)`, then `addChars(start, chars)`, then
        `cleanUpTree()`. */
    method ApplyEdit(start: int, count: int, chars: string)
      modifies this
      ensures phrases == CleanedUp(AfterAddChars(AfterRemoveChars(old(phrases), start, count), start, chars))
      ensures Canonical(phrases)
      ensures PlainText(phrases) == PlainText(AfterAddChars(AfterRemoveChars(old(phrases), start, count), start, chars))
      ensures NoEmptyText(old(phrases)) ==> NoEmptyText(phrases)
    {
      ghost var before := phrases;
      RemoveChars(start, count);
      ghost var removed := phrases;
      AddChars(start, chars);
      ghost var edited := phrases;
      CleanUpTree();
      CleanUpIsCanonical(edited);
      CleanUpKeepsText(edited);
      if NoEmptyText(before) {
        RemoveCharsKeepsNoEmptyText(before, start, count);
        AddCharsKeepsNoEmptyText(removed, start, chars);
        CleanUpKeepsNoEmptyText(edited);
      }
    }

    /** The same keystroke in the typeahead widget, whose `addChars` has no
        empty-note branch. */
    method ApplyEditTypeahead(start: int, count: int, chars: string)
      modifies this
      ensures phrases == CleanedUp(AfterAddCharsTypeahead(AfterRemoveChars(old(phrases), start, count), start, chars))
      ensures Canonical(phrases)
      ensures PlainText(phrases) == PlainText(AfterAddCharsTypeahead(AfterRemoveChars(old(phrases), start, count), start, chars))
      ensures NoEmptyText(old(phrases)) ==> NoEmptyText(phrases)
    {
      ghost var before := phrases;
      RemoveChars(start, count);
      ghost var removed := phrases;
      AddCharsTypeahead(start, chars);
      ghost var edited := phrases;
      CleanUpTree();
      CleanUpIsCanonical(edited);
      CleanUpKeepsText(edited);
      if NoEmptyText(before) {
        RemoveCharsKeepsNoEmptyText(before, start, count);
        AddCharsKeepsNoEmptyText(removed, start, chars);
        CleanUpKeepsNoEmptyText(edited);
      }
    }
  }
}
