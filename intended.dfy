/** What the three editing steps evidently mean to do, next to what they
    do: the deletion count `onType` computes, the walk of `removeChars`
    across phrase boundaries, and where `addChars` puts a phrase typed
    right after an annotation. For each, a concrete input shows the
    behaviour as written, and the corrected definition is proved to keep
    the note's plain text equal to the textarea. */
module Intended {
  import opened JsString
  import opened Phrases
  import opened NoteOps
  import opened Keystroke

  /* ---------------------------------------------------------------------
     The behaviour as written, on concrete inputs
     --------------------------------------------------------------------- */

  /** Typing 'x' at caret 1 of a note "abc": `onType` asks for
      `removeChars(1, -1)`, which turns "abc" into "aabc", and the insertion
      then gives "axabc" where the textarea holds "axbc". */
  lemma TypingMidWordDuplicates()
    ensures OnTypeEdit("abc", 1, 1, 88, "axbc") == Edit(1, -1, "x")
    ensures AfterRemoveChars([TextPhrase("abc")], 1, -1) == [TextPhrase("aabc")]
    ensures PlainText(CleanedUp(AfterAddChars(AfterRemoveChars([TextPhrase("abc")], 1, -1), 1, "x"))) == "axabc"
  {
    TypingAtCaret("abc", 1, 88, "x");
    assert "abc"[..1] + "x" + "abc"[1..] == "axbc";
    var t := "abc";
    assert JsSubstr(t, 0, 1) + JsSubstrFrom(t, 0) == "aabc";
    var ps := [TextPhrase("aabc")];
    TargetSpansStart(ps, 1, 0);
    var t2 := "aabc";
    assert JsSubstr(t2, 0, 1) + "x" + JsSubstrFrom(t2, 1) == "axabc";
    var r := [TextPhrase("axabc")];
    assert CleanedUp(r) == MergeInto(CleanedUp(r[..0]), r[0]);
    assert PlainText(r) == "axabc" + PlainText(r[1..]);
  }

  /** Deleting "bc" from the phrases "ab" and an annotation "cd": after the
      first phrase the running start is negative, `substr` then counts from
      the end of "cd", and the annotation is kept whole but turned into
      plain text; "acd" is left where "ad" was meant. */
  lemma RemoveAcrossPhrases()
    ensures var user := Phrase("user", "cd", Val("1"));
            AfterRemoveChars([TextPhrase("ab"), user], 1, 2)
              == [TextPhrase("a"), user.(kind := TextKind)]
  {
    var user := Phrase("user", "cd", Val("1"));
    var ps := [TextPhrase("ab"), user];
    assert JsSubstr("ab", 0, 1) + JsSubstrFrom("ab", 3) == "a";
    assert ps[0].text == "ab";
    var a := TextPhrase("a");
    assert ps[0].(kind := TextKind, text := "a") == a;
    assert ps[0 := a] == [a, user];
    var v := VisitForRemoval(ps, 0, 1, 2);
    assert v == ([a, user], 1);
    assert JsSubstr("cd", 0, -1) + JsSubstrFrom("cd", 0) == "cd";
  }

  /** Typing "x" right after an annotation "max" that a plain "!" follows:
      the new phrase goes to the end of the note, giving "max!x" where the
      textarea holds "maxx!". */
  lemma AddAfterAnnotationAppends()
    ensures var user := Phrase("user", "max", Val("1"));
            AfterAddChars([user, TextPhrase("!")], 3, "x") == [user, TextPhrase("!"), TextPhrase("x")]
  {
    var ps := [Phrase("user", "max", Val("1")), TextPhrase("!")];
    TargetSpansStart(ps, 3, 0);
  }

  /* ---------------------------------------------------------------------
     The corrected definitions
     --------------------------------------------------------------------- */

  /** `onType` with the deletion count it means: the selection plus the
      characters the key deleted beyond it (forward Delete), and never
      less than the selection when the key inserted text. */
  function IntendedEdit(textBefore: string, selStart: int, selEnd: int, keyCode: int, textAfter: string): (r: EditPlan)
    ensures r.Ignored? <==> IgnoredKey(keyCode)
  {
    var plan := OnTypeEdit(textBefore, selStart, selEnd, keyCode, textAfter);
    if plan.Ignored? then plan
    else plan.(count := plan.count + Max(0, |textAfter| - |Excised(textBefore, plan.start, selEnd)|))
  }

  /** `removeChars` that visits every phrase once and, after the first
      phrase it cuts, goes on cutting from the start of each following
      phrase until `length` characters are gone. */
  function IntendedRemove(ps: seq<Phrase>, start: nat, length: nat): seq<Phrase>
    decreases |ps|
  {
    if |ps| == 0 || length == 0 then ps
    else
      var t := ps[0].text;
      if start >= |t| then [ps[0]] + IntendedRemove(ps[1..], start - |t|, length)
      else
        var cut := Min(length, |t| - start);
        var rest := t[..start] + t[start + cut..];
        var tail := IntendedRemove(ps[1..], 0, length - cut);
        if rest == [] then tail else [ps[0].(kind := TextKind, text := rest)] + tail
  }

  /** `addChars` that puts the phrase typed right after an annotation
      directly behind that annotation; everywhere else it is `addChars`. */
  function IntendedAdd(ps: seq<Phrase>, start: int, chars: string): seq<Phrase>
  {
    var target := FindTarget(ps, start);
    if chars != [] && target.At? && ps[target.index].kind != TextKind
       && target.offset == |ps[target.index].text|
    then ps[..target.index + 1] + [TextPhrase(chars)] + ps[target.index + 1..]
    else AfterAddChars(ps, start, chars)
  }

  /** One keystroke applied with the corrected steps. */
  function ApplyIntended(ps: seq<Phrase>, plan: EditPlan): seq<Phrase>
  {
    match plan
    case Ignored => ps
    case Edit(start, count, chars) =>
      CleanedUp(IntendedAdd(IntendedRemove(ps, Max(start, 0), Max(count, 0)), start, chars))
  }

  /* ---------------------------------------------------------------------
     What the corrected definitions promise
     --------------------------------------------------------------------- */

  /** The corrected count is never negative, and is the selection length
      plus the forward deletion for a key that did not lengthen the text. */
  lemma IntendedCountIsDeletion(textBefore: string, selStart: int, selEnd: int, keyCode: int, textAfter: string)
    requires 0 <= selStart <= selEnd <= |textBefore| && !IgnoredKey(keyCode)
    ensures var r := IntendedEdit(textBefore, selStart, selEnd, keyCode, textAfter);
            var length := selEnd - r.start;
            r.Edit? && 0 <= length <= r.count
            && r.count == length + Max(0, (|textBefore| - length) - |textAfter|)
  {
    ExcisedIsCut(textBefore, selStart, selEnd, keyCode);
  }

  /** Passing a phrase that ends at or before `start` keeps its text
      ahead of the rest of the walk. */
  lemma IntendedRemovePassText(ps: seq<Phrase>, start: nat, length: nat)
    requires ps != [] && length > 0 && |ps[0].text| <= start
    ensures PlainText(IntendedRemove(ps, start, length))
            == ps[0].text + PlainText(IntendedRemove(ps[1..], start - |ps[0].text|, length))
  {
    var tail := IntendedRemove(ps[1..], start - |ps[0].text|, length);
    assert IntendedRemove(ps, start, length) == [ps[0]] + tail;
    PlainTextCons(ps[0], tail);
  }

  /** Cutting into the phrase holding `start` keeps what is left of its
      text ahead of the rest of the walk, which starts at offset 0. */
  lemma IntendedRemoveCutText(ps: seq<Phrase>, start: nat, length: nat)
    requires ps != [] && length > 0 && start < |ps[0].text|
    ensures var t := ps[0].text;
            var cut := Min(length, |t| - start);
            PlainText(IntendedRemove(ps, start, length))
            == (t[..start] + t[start + cut..]) + PlainText(IntendedRemove(ps[1..], 0, length - cut))
  {
    var t := ps[0].text;
    var cut := Min(length, |t| - start);
    var rest := t[..start] + t[start + cut..];
    var tail := IntendedRemove(ps[1..], 0, length - cut);
    if rest != [] {
      var head := ps[0].(kind := TextKind, text := rest);
      assert IntendedRemove(ps, start, length) == [head] + tail;
      PlainTextCons(head, tail);
    }
  }

  /** The step of `IntendedRemove` that passes a phrase ending at or
      before `start`. */
  lemma {:induction false} IntendedRemovePasses(ps: seq<Phrase>, start: nat, length: nat)
    requires ps != [] && length > 0 && |ps[0].text| <= start
    requires start + length <= |PlainText(ps)|
    ensures var p := PlainText(ps);
            PlainText(IntendedRemove(ps, start, length)) == p[..start] + p[start + length..]
    decreases |ps|, 0
  {
    var t, q := ps[0].text, PlainText(ps[1..]);
    var s2 := start - |t|;
    var r := PlainText(IntendedRemove(ps, start, length));
    var inner := PlainText(IntendedRemove(ps[1..], s2, length));
    assert PlainText(ps) == t + q;
    assert r == t + inner by {
      IntendedRemovePassText(ps, start, length);
    }
    assert inner == q[..s2] + q[s2 + length..] by {
      IntendedRemoveCuts(ps[1..], s2, length);
    }
    CutFromTail(t, q, start, length, PlainText(ps), r);
  }

  /** After cutting into the phrase holding `start`, the rest of the walk
      removes what is left of the range from the start of the following
      phrases. */
  lemma {:induction false} IntendedRemoveCutsTail(ps: seq<Phrase>, start: nat, length: nat)
    requires ps != [] && length > 0 && start < |ps[0].text|
    requires start + length <= |PlainText(ps)|
    ensures var t, q := ps[0].text, PlainText(ps[1..]);
            var cut := Min(length, |t| - start);
            length - cut <= |q|
            && PlainText(IntendedRemove(ps, start, length)) == (t[..start] + t[start + cut..]) + q[length - cut..]
    decreases |ps|, 0
  {
    var t, q := ps[0].text, PlainText(ps[1..]);
    var cut := Min(length, |t| - start);
    var r := PlainText(IntendedRemove(ps, start, length));
    var inner := PlainText(IntendedRemove(ps[1..], 0, length - cut));
    assert PlainText(ps) == t + q;
    assert r == (t[..start] + t[start + cut..]) + inner by {
      IntendedRemoveCutText(ps, start, length);
    }
    assert inner == q[..0] + q[length - cut..] by {
      IntendedRemoveCuts(ps[1..], 0, length - cut);
    }
    assert q[..0] + q[length - cut..] == q[length - cut..];
  }

  /** The step of `IntendedRemove` that cuts into the phrase holding
      `start` and goes on from the start of the next phrase. */
  lemma {:induction false} IntendedRemoveCutsInto(ps: seq<Phrase>, start: nat, length: nat)
    requires ps != [] && length > 0 && start < |ps[0].text|
    requires start + length <= |PlainText(ps)|
    ensures var p := PlainText(ps);
            PlainText(IntendedRemove(ps, start, length)) == p[..start] + p[start + length..]
    decreases |ps|, 1
  {
    var t, q := ps[0].text, PlainText(ps[1..]);
    var cut := Min(length, |t| - start);
    var r := PlainText(IntendedRemove(ps, start, length));
    assert PlainText(ps) == t + q;
    assert length - cut <= |q| && r == (t[..start] + t[start + cut..]) + q[length - cut..] by {
      IntendedRemoveCutsTail(ps, start, length);
    }
    CutFromHead(t, q, start, length, cut, PlainText(ps), r);
  }

  /** The corrected deletion removes exactly `[start, start + length)` of
      the plain text, across any number of phrases. */
  lemma {:induction false} IntendedRemoveCuts(ps: seq<Phrase>, start: nat, length: nat)
    requires start + length <= |PlainText(ps)|
    ensures var p := PlainText(ps);
            PlainText(IntendedRemove(ps, start, length)) == p[..start] + p[start + length..]
    decreases |ps|, 2
  {
    var p := PlainText(ps);
    if ps == [] || length == 0 {
      assert p[..start] + p[start..] == p;
    } else if start >= |ps[0].text| {
      IntendedRemovePasses(ps, start, length);
    } else {
      IntendedRemoveCutsInto(ps, start, length);
    }
  }

  /** Typed right after annotation `k`, the corrected insertion lands at
      `start`. */
  lemma IntendedAddBehind(ps: seq<Phrase>, start: int, chars: string, k: nat)
    requires chars != []
    requires k < |ps| && start == Offset(ps, k + 1)
    requires k == 0 || Offset(ps, k) < start
    requires ps[k].kind != TextKind
    ensures var p := PlainText(ps);
            start <= |p| && PlainText(IntendedAdd(ps, start, chars)) == p[..start] + chars + p[start..]
  {
    TargetSpansStart(ps, start, k);
    assert IntendedAdd(ps, start, chars) == ps[..k + 1] + [TextPhrase(chars)] + ps[k + 1..];
    InsertBehindAnnotation(ps, k, chars);
  }

  /** Anywhere else in a non-empty note the corrected insertion is
      `addChars`, which splices at `start`. */
  lemma IntendedAddSplices(ps: seq<Phrase>, start: int, chars: string, k: nat)
    requires chars != []
    requires k < |ps| && Offset(ps, k) <= start <= Offset(ps, k + 1)
    requires k == 0 || Offset(ps, k) < start
    requires ps[k].kind == TextKind || start < Offset(ps, k + 1)
    ensures var p := PlainText(ps);
            start <= |p| && PlainText(IntendedAdd(ps, start, chars)) == p[..start] + chars + p[start..]
  {
    TargetSpansStart(ps, start, k);
    assert IntendedAdd(ps, start, chars) == AfterAddChars(ps, start, chars);
    AddCharsInsertsAtStart(ps, start, chars, k);
  }

  /** With no characters, or into an empty note, the corrected insertion
      puts `chars` at `start` too. */
  lemma IntendedAddTrivial(ps: seq<Phrase>, start: int, chars: string)
    requires 0 <= start <= |PlainText(ps)|
    requires chars == [] || ps == []
    ensures var p := PlainText(ps);
            PlainText(IntendedAdd(ps, start, chars)) == p[..start] + chars + p[start..]
  {
    var p := PlainText(ps);
    if chars == [] {
      assert IntendedAdd(ps, start, chars) == ps;
      assert p[..start] + chars + p[start..] == p;
    } else {
      AddCharsEdgeCases(ps, start, chars);
      assert IntendedAdd(ps, start, chars) == [TextPhrase(chars)];
      assert p[..start] + chars + p[start..] == chars;
    }
  }

  /** The corrected insertion puts `chars` at `start` of the plain text,
      wherever `start` falls. */
  lemma IntendedAddInserts(ps: seq<Phrase>, start: int, chars: string)
    requires 0 <= start <= |PlainText(ps)|
    ensures var p := PlainText(ps);
            PlainText(IntendedAdd(ps, start, chars)) == p[..start] + chars + p[start..]
  {
    if chars == [] || ps == [] {
      IntendedAddTrivial(ps, start, chars);
    } else {
      var k := LocateInsertion(ps, start);
      if ps[k].kind != TextKind && start == Offset(ps, k + 1) {
        IntendedAddBehind(ps, start, chars, k);
      } else {
        IntendedAddSplices(ps, start, chars, k);
      }
    }
  }

  /** A plain phrase inserted right behind phrase `k` lands at the end of
      that phrase's text. */
  lemma InsertBehindAnnotation(ps: seq<Phrase>, k: nat, chars: string)
    requires k < |ps|
    ensures var p := PlainText(ps);
            var at := Offset(ps, k + 1);
            at <= |p| && PlainText(ps[..k + 1] + [TextPhrase(chars)] + ps[k + 1..]) == p[..at] + chars + p[at..]
  {
    var a, b := PlainText(ps[..k + 1]), PlainText(ps[k + 1..]);
    PlainTextSplit(ps, k + 1);
    OffsetIsPrefixLength(ps, k + 1);
    PlainTextConcat(ps[..k + 1] + [TextPhrase(chars)], ps[k + 1..]);
    PlainTextSnoc(ps[..k + 1], TextPhrase(chars));
    assert (a + b)[..|a|] == a && (a + b)[|a|..] == b;
  }

  /** The corrected steps replace `[start, start + count)` of the plain
      text by `chars`. */
  lemma IntendedStepsSplice(ps: seq<Phrase>, start: nat, count: nat, chars: string)
    requires start + count <= |PlainText(ps)|
    ensures var p := PlainText(ps);
            PlainText(ApplyIntended(ps, Edit(start, count, chars))) == p[..start] + chars + p[start + count..]
  {
    var p := PlainText(ps);
    IntendedRemoveCuts(ps, start, count);
    var removed := IntendedRemove(ps, start, count);
    var mid := p[..start] + p[start + count..];
    IntendedAddInserts(removed, start, chars);
    assert mid[..start] + chars + mid[start..] == p[..start] + chars + p[start + count..];
    CleanUpKeepsText(IntendedAdd(removed, start, chars));
  }

  /** For a key that replaced the text from the edit start to the
      selection end by `typed`, or deleted `forward` more characters after
      the selection, the corrected edit asks to replace exactly that range
      by `typed`. */
  lemma IntendedEditOfKey(tb: string, selStart: int, selEnd: int, keyCode: int, typed: string, forward: nat, textAfter: string)
    requires 0 <= selStart <= selEnd && selEnd + forward <= |tb|
    requires !IgnoredKey(keyCode)
    requires typed == [] || forward == 0
    requires var start := EditStart(selStart, selEnd, keyCode);
             textAfter == tb[..start] + typed + tb[selEnd + forward..]
    ensures var start := EditStart(selStart, selEnd, keyCode);
            0 <= start <= selEnd
            && IntendedEdit(tb, selStart, selEnd, keyCode, textAfter) == Edit(start, selEnd - start + forward, typed)
  {
    var start := EditStart(selStart, selEnd, keyCode);
    ExcisedIsCut(tb, selStart, selEnd, keyCode);
    if typed != [] {
      assert textAfter[start..start + |typed|] == typed;
    }
  }

  /** With the corrected steps, the note follows the textarea: if the key
      replaced the text from the edit start to the selection end by
      `typed`, or deleted `forward` more characters after the selection,
      the note's plain text afterwards is the textarea's new text. */
  lemma ReconcileMirrorsTextarea(ps: seq<Phrase>, selStart: int, selEnd: int, keyCode: int, typed: string, forward: nat)
    requires 0 <= selStart <= selEnd && selEnd + forward <= |PlainText(ps)|
    requires !IgnoredKey(keyCode)
    requires typed == [] || forward == 0
    ensures var tb := PlainText(ps);
            var start := EditStart(selStart, selEnd, keyCode);
            var textAfter := tb[..start] + typed + tb[selEnd + forward..];
            PlainText(ApplyIntended(ps, IntendedEdit(tb, selStart, selEnd, keyCode, textAfter))) == textAfter
  {
    var tb := PlainText(ps);
    var start := EditStart(selStart, selEnd, keyCode);
    var textAfter := tb[..start] + typed + tb[selEnd + forward..];
    var plan := IntendedEdit(tb, selStart, selEnd, keyCode, textAfter);
    var count := selEnd - start + forward;
    assert 0 <= start && plan == Edit(start, count, typed) by {
      IntendedEditOfKey(tb, selStart, selEnd, keyCode, typed, forward, textAfter);
    }
    assert PlainText(ApplyIntended(ps, Edit(start, count, typed))) == tb[..start] + typed + tb[start + count..] by {
      IntendedStepsSplice(ps, start, count, typed);
    }
    assert start + count == selEnd + forward;
  }

  /** The corrected steps repair typing at a caret inside a word. */
  lemma IntendedRepairsTyping()
    ensures PlainText(ApplyIntended([TextPhrase("abc")], IntendedEdit("abc", 1, 1, 88, "axbc"))) == "axbc"
  {
    var abc := [TextPhrase("abc")];
    assert PlainText(abc) == "abc" + PlainText(abc[1..]);
    ReconcileMirrorsTextarea(abc, 1, 1, 88, "x", 0);
    assert "abc"[..1] + "x" + "abc"[1..] == "axbc";
  }

  /** The corrected deletion repairs the cut across two phrases. */
  lemma IntendedRepairsRemoval()
    ensures PlainText(IntendedRemove([TextPhrase("ab"), Phrase("user", "cd", Val("1"))], 1, 2)) == "ad"
  {
    var ps := [TextPhrase("ab"), Phrase("user", "cd", Val("1"))];
    assert PlainText(ps) == "ab" + ("cd" + PlainText(ps[1..][1..]));
    IntendedRemoveCuts(ps, 1, 2);
  }

  /** The corrected insertion repairs typing right after an annotation. */
  lemma IntendedRepairsInsertion()
    ensures PlainText(IntendedAdd([Phrase("user", "max", Val("1")), TextPhrase("!")], 3, "x")) == "maxx!"
  {
    var qs := [Phrase("user", "max", Val("1")), TextPhrase("!")];
    assert PlainText(qs) == "max" + ("!" + PlainText(qs[1..][1..]));
    IntendedAddInserts(qs, 3, "x");
  }
}
