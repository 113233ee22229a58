/** What the three editing operations of a note do to its phrase sequence,
    as functions of the old sequence: `addChars`, `removeChars` and
    `cleanUpTree`. The `Note` class proves its methods against these, and the
    lemmas below state what the operations promise. */
module NoteOps {
  import opened JsString
  import opened Phrases

  /* ---------------------------------------------------------------------
     addChars
     --------------------------------------------------------------------- */

  /** Where the `find` in `addChars` stops: the index of the phrase and the
      running offset into it, or nowhere. */
  datatype Target = NoTarget | At(index: nat, offset: int)

  /** The `find` of `addChars` resumed at phrase `i`, where `run` is the
      insertion offset minus the lengths of the phrases before `i`: it stops
      at the first phrase whose length is at least the running offset. */
  function FindFrom(ps: seq<Phrase>, i: nat, run: int): (r: Target)
    requires i <= |ps|
    decreases |ps| - i
    ensures r.At? ==> i <= r.index < |ps|
  {
    if i == |ps| then NoTarget
    else if run <= |ps[i].text| then At(i, run)
    else FindFrom(ps, i + 1, run - |ps[i].text|)
  }

  /** The target of `addChars(start, chars)`. */
  function FindTarget(ps: seq<Phrase>, start: int): (r: Target)
    ensures r.At? ==> r.index < |ps|
  {
    FindFrom(ps, 0, start)
  }

  /** Where the resumed `find` stops, the running offset is what is left
      of `run` after the phrases it passed, and fits in that phrase. */
  lemma {:induction false} FindFromOffset(ps: seq<Phrase>, i: nat, run: int)
    requires i <= |ps|
    ensures var r := FindFrom(ps, i, run);
            r.At? ==> r.offset == run - (Offset(ps, r.index) - Offset(ps, i)) && r.offset <= |ps[r.index].text|
    decreases |ps| - i
  {
    if i < |ps| && run > |ps[i].text| {
      FindFromOffset(ps, i + 1, run - |ps[i].text|);
      assert Offset(ps, i + 1) == Offset(ps, i) + |ps[i].text|;
    }
  }

  /** Every phrase the resumed `find` passes is too short for the running
      offset it sees. */
  lemma {:induction false} FindFromPasses(ps: seq<Phrase>, i: nat, run: int, j: nat)
    requires i <= j < |ps|
    requires var r := FindFrom(ps, i, run); r.NoTarget? || j < r.index
    ensures run - (Offset(ps, j) - Offset(ps, i)) > |ps[j].text|
    decreases j - i
  {
    if j > i {
      FindFromPasses(ps, i + 1, run - |ps[i].text|, j);
      assert Offset(ps, i + 1) == Offset(ps, i) + |ps[i].text|;
    }
  }

  /** The resumed `find` stops at the first phrase that can hold the
      running offset, and reports the offset into it. */
  lemma FindFromSpec(ps: seq<Phrase>, i: nat, run: int)
    requires i <= |ps|
    ensures var r := FindFrom(ps, i, run);
            (r.At? ==> r.offset == run - (Offset(ps, r.index) - Offset(ps, i)) && r.offset <= |ps[r.index].text|)
            && (r.At? ==> forall j {:trigger ps[j]} :: i <= j < r.index ==> run - (Offset(ps, j) - Offset(ps, i)) > |ps[j].text|)
            && (r.NoTarget? ==> forall j {:trigger ps[j]} :: i <= j < |ps| ==> run - (Offset(ps, j) - Offset(ps, i)) > |ps[j].text|)
  {
    var r := FindFrom(ps, i, run);
    FindFromOffset(ps, i, run);
    var stop := if r.At? then r.index else |ps|;
    forall j | i <= j < stop
      ensures run - (Offset(ps, j) - Offset(ps, i)) > |ps[j].text|
    {
      FindFromPasses(ps, i, run, j);
    }
  }

  /** The target of `addChars(start, chars)` is the first phrase `k` with
      `start - Offset(ps, k) <= |text|`, at that running offset; there is
      none when every phrase ends before `start`. */
  lemma FindTargetSpec(ps: seq<Phrase>, start: int)
    ensures var r := FindTarget(ps, start);
            (r.At? ==> r.offset == start - Offset(ps, r.index) && r.offset <= |ps[r.index].text|)
            && (r.At? ==> forall j {:trigger ps[j]} :: 0 <= j < r.index ==> start - Offset(ps, j) > |ps[j].text|)
            && (r.NoTarget? ==> forall j {:trigger ps[j]} :: 0 <= j < |ps| ==> start - Offset(ps, j) > |ps[j].text|)
  {
    FindFromSpec(ps, 0, start);
  }

  /** The body of the `find` callback at the target: at the very end of an
      annotated phrase, `add` a new plain phrase at the end of the
      collection (no index is passed); anywhere else, splice the characters
      into the target's text and force its type to 'text', leaving its
      value as it was. */
  function InsertAtTarget(ps: seq<Phrase>, start: int, chars: string): seq<Phrase>
  {
    match FindTarget(ps, start)
    case NoTarget => ps
    case At(k, off) =>
      var t := ps[k].text;
      if ps[k].kind != TextKind && off == |t| then ps + [TextPhrase(chars)]
      else ps[k := ps[k].(kind := TextKind, text := JsSubstr(t, 0, off) + chars + JsSubstrFrom(t, off))]
  }

  /** `addChars` of the caret-scanner widget: nothing for empty `chars`, a
      single plain phrase for an empty note, the scan otherwise. */
  function AfterAddChars(ps: seq<Phrase>, start: int, chars: string): seq<Phrase>
  {
    if chars == [] then ps
    else if ps == [] then [TextPhrase(chars)]
    else InsertAtTarget(ps, start, chars)
  }

  /** `addChars` of the typeahead widget, which has no empty-note branch: it
      differs from the other only on an empty note, which it leaves empty. */
  function AfterAddCharsTypeahead(ps: seq<Phrase>, start: int, chars: string): (r: seq<Phrase>)
    ensures ps != [] ==> r == AfterAddChars(ps, start, chars)
    ensures ps == [] ==> r == []
  {
    if chars == [] then ps else InsertAtTarget(ps, start, chars)
  }

  /** Phrase offsets never decrease. */
  lemma {:induction false} OffsetMonotone(ps: seq<Phrase>, j: nat, k: nat)
    requires j <= k <= |ps|
    ensures Offset(ps, j) <= Offset(ps, k)
    decreases k - j
  {
    if j < k {
      OffsetMonotone(ps, j, k - 1);
    }
  }

  /** The phrase `addChars` stops at is the one whose span
      `[Offset(k), Offset(k + 1)]` holds `start`, the earlier one when
      `start` falls on a boundary. */
  lemma TargetSpansStart(ps: seq<Phrase>, start: int, k: nat)
    requires k < |ps| && Offset(ps, k) <= start <= Offset(ps, k + 1)
    requires k == 0 || Offset(ps, k) < start
    ensures FindTarget(ps, start) == At(k, start - Offset(ps, k))
  {
    var r := FindTarget(ps, start);
    assert r == FindFrom(ps, 0, start);
    FindFromOffset(ps, 0, start);
    assert Offset(ps, k + 1) == Offset(ps, k) + |ps[k].text|;
    if r.NoTarget? || (r.At? && r.index > k) {
      FindFromPasses(ps, 0, start, k);
      assert false;
    } else if r.index < k {
      var j := r.index;
      assert Offset(ps, j + 1) == Offset(ps, j) + |ps[j].text|;
      OffsetMonotone(ps, j + 1, k);
    }
  }

  /** Every offset of a non-empty note from 0 to its length lies in the span
      of some phrase, chosen as `TargetSpansStart` chooses it. */
  lemma {:induction false} LocateInsertion(ps: seq<Phrase>, start: int) returns (k: nat)
    requires ps != [] && 0 <= start <= |PlainText(ps)|
    ensures k < |ps| && Offset(ps, k) <= start <= Offset(ps, k + 1)
    ensures k == 0 || Offset(ps, k) < start
  {
    LengthInvariant(ps);
    k := 0;
    while start > Offset(ps, k + 1)
      invariant k < |ps| && Offset(ps, k) <= start
      invariant k == 0 || Offset(ps, k) < start
      decreases |ps| - k
    {
      if k + 1 == |ps| {
        assert false;
      }
      k := k + 1;
    }
  }

  /** Inserting anywhere but at the very end of an annotated phrase splices
      the characters into the target phrase `k` at the running offset: the
      target becomes plain text and keeps its value, and every other phrase
      stays as it was. */
  lemma AddCharsSplices(ps: seq<Phrase>, start: int, chars: string, k: nat)
    requires chars != []
    requires k < |ps| && Offset(ps, k) <= start <= Offset(ps, k + 1)
    requires k == 0 || Offset(ps, k) < start
    requires ps[k].kind == TextKind || start < Offset(ps, k + 1)
    ensures var off := start - Offset(ps, k);
            var t := ps[k].text;
            AfterAddChars(ps, start, chars) == ps[k := ps[k].(kind := TextKind, text := t[..off] + chars + t[off..])]
  {
    TargetSpansStart(ps, start, k);
    var off := start - Offset(ps, k);
    var t := ps[k].text;
    assert JsSubstr(t, 0, off) == t[..off];
    assert JsSubstrFrom(t, off) == t[off..];
  }

  /** In the same case the joined text is the text before the target, the
      spliced target, and the text after it. */
  lemma AddCharsSplicesText(ps: seq<Phrase>, start: int, chars: string, k: nat)
    requires chars != []
    requires k < |ps| && Offset(ps, k) <= start <= Offset(ps, k + 1)
    requires k == 0 || Offset(ps, k) < start
    requires ps[k].kind == TextKind || start < Offset(ps, k + 1)
    ensures var off := start - Offset(ps, k);
            var t := ps[k].text;
            PlainText(AfterAddChars(ps, start, chars))
              == PlainText(ps[..k]) + (t[..off] + chars + t[off..]) + PlainText(ps[k + 1..])
  {
    var off := start - Offset(ps, k);
    var t := ps[k].text;
    AddCharsSplices(ps, start, chars, k);
    PlainTextUpdate(ps, k, ps[k].(kind := TextKind, text := t[..off] + chars + t[off..]));
  }

  /** In the same case the plain text becomes `old[..start] + chars +
      old[start..]`: the characters appear exactly at `start`. */
  lemma AddCharsInsertsAtStart(ps: seq<Phrase>, start: int, chars: string, k: nat)
    requires chars != []
    requires k < |ps| && Offset(ps, k) <= start <= Offset(ps, k + 1)
    requires k == 0 || Offset(ps, k) < start
    requires ps[k].kind == TextKind || start < Offset(ps, k + 1)
    ensures var p := PlainText(ps);
            start <= |p| && PlainText(AfterAddChars(ps, start, chars)) == p[..start] + chars + p[start..]
  {
    var off := start - Offset(ps, k);
    var t := ps[k].text;
    AddCharsSplicesText(ps, start, chars, k);
    PlainTextAround(ps, k);
    SpliceAt(PlainText(ps[..k]), t, PlainText(ps[k + 1..]), off, chars,
             PlainText(ps), PlainText(AfterAddChars(ps, start, chars)), start);
  }

  /** At the very end of an annotated phrase, the annotation is left alone
      and a plain phrase holding `chars` is appended after the LAST phrase,
      so the characters land at the end of the plain text. */
  lemma AddCharsAfterAnnotation(ps: seq<Phrase>, start: int, chars: string, k: nat)
    requires chars != []
    requires k < |ps| && start == Offset(ps, k + 1)
    requires k == 0 || Offset(ps, k) < start
    requires ps[k].kind != TextKind
    ensures AfterAddChars(ps, start, chars) == ps + [TextPhrase(chars)]
    ensures PlainText(AfterAddChars(ps, start, chars)) == PlainText(ps) + chars
  {
    TargetSpansStart(ps, start, k);
    PlainTextConcat(ps, [TextPhrase(chars)]);
    assert PlainText([TextPhrase(chars)]) == chars + PlainText([]);
  }

  /** An offset past the end of a non-empty note finds no target, so neither
      variant of `addChars` changes the note. */
  lemma AddCharsBeyondEnd(ps: seq<Phrase>, start: int, chars: string)
    requires ps != [] && start > |PlainText(ps)|
    ensures AfterAddChars(ps, start, chars) == ps
    ensures AfterAddCharsTypeahead(ps, start, chars) == ps
  {
    LengthInvariant(ps);
    var last := |ps| - 1;
    assert Offset(ps, last + 1) == Offset(ps, last) + |ps[last].text|;
    FindTargetSpec(ps, start);
    if FindTarget(ps, start).At? {
      var k := FindTarget(ps, start).index;
      OffsetMonotone(ps, k + 1, |ps|);
    }
  }

  /** With no characters neither variant changes the note; on an empty note
      the caret-scanner variant creates one plain phrase holding `chars` and
      the typeahead variant does nothing. */
  lemma AddCharsEdgeCases(ps: seq<Phrase>, start: int, chars: string)
    ensures AfterAddChars(ps, start, []) == ps && AfterAddCharsTypeahead(ps, start, []) == ps
    ensures chars != [] ==> AfterAddChars([], start, chars) == [TextPhrase(chars)]
    ensures chars != [] ==> PlainText(AfterAddChars([], start, chars)) == chars
    ensures AfterAddCharsTypeahead([], start, chars) == []
  {
    assert PlainText([TextPhrase(chars)]) == chars + PlainText([]);
  }

  /* ---------------------------------------------------------------------
     removeChars
     --------------------------------------------------------------------- */

  /** One call of the `find` callback of `removeChars` on phrase `i`, with
      the running `start` and the remaining `length`: the new phrase
      sequence and the new remaining length. A phrase the running start
      falls inside keeps `text.substr(0, start) + text.substr(start +
      length)`; it is removed when that is empty, and otherwise forced to
      plain text. The remaining length drops by the number of characters
      the phrase lost. */
  function VisitForRemoval(ps: seq<Phrase>, i: nat, start: int, length: int): (v: (seq<Phrase>, int))
    requires i < |ps|
    ensures i <= |v.0| <= |ps| && v.0[..i] == ps[..i]
  {
    var t := ps[i].text;
    if start < |t| then
      var rest := JsSubstr(t, 0, start) + JsSubstrFrom(t, start + length);
      var ps' := if |rest| == 0 then ps[..i] + ps[i + 1..]
                 else ps[i := ps[i].(kind := TextKind, text := rest)];
      (ps', length - (|t| - |rest|))
    else (ps, length)
  }

  /** The `find` of `removeChars` from index `i` of the LIVE phrase
      sequence. `find` walks the models array by index while `remove`
      splices it, so after a removal at `i` the phrase that moves into `i`
      is not visited; the model makes that choice explicit by always going
      on to index `i + 1`. The walk stops once the remaining length is at
      most zero. */
  function RemoveWalk(ps: seq<Phrase>, i: nat, start: int, length: int): (r: seq<Phrase>)
    decreases |ps| - i
    ensures |r| <= |ps|
  {
    if i >= |ps| then ps
    else
      var v := VisitForRemoval(ps, i, start, length);
      if v.1 <= 0 then v.0 else RemoveWalk(v.0, i + 1, start - |ps[i].text|, v.1)
  }

  /** `removeChars(start, length)`: nothing when `length` is zero, and
      never a phrase more than before. */
  function AfterRemoveChars(ps: seq<Phrase>, start: int, length: int): (r: seq<Phrase>)
    ensures length == 0 ==> r == ps
    ensures |r| <= |ps|
  {
    if length == 0 then ps else RemoveWalk(ps, 0, start, length)
  }

  /** A phrase that ends at or before the running start is passed over. */
  lemma WalkPassesOne(ps: seq<Phrase>, i: nat, run: int, length: int)
    requires i < |ps| && length > 0 && run >= |ps[i].text|
    ensures RemoveWalk(ps, i, run, length) == RemoveWalk(ps, i + 1, run - |ps[i].text|, length)
  {
    assert VisitForRemoval(ps, i, run, length) == (ps, length);
  }

  /** Phrases that end at or before the running start are passed over
      without change: the walk reaches phrase `k` with the running start
      lowered by their lengths. */
  lemma {:induction false} WalkSkips(ps: seq<Phrase>, i: nat, k: nat, run: int, runAtK: int, length: int)
    requires i <= k <= |ps| && length > 0
    requires runAtK == run - (Offset(ps, k) - Offset(ps, i)) && runAtK >= 0
    ensures RemoveWalk(ps, i, run, length) == RemoveWalk(ps, k, runAtK, length)
    decreases k - i
  {
    if i < k {
      assert Offset(ps, i + 1) == Offset(ps, i) + |ps[i].text|;
      assert run >= |ps[i].text| by {
        OffsetMonotone(ps, i + 1, k);
      }
      WalkPassesOne(ps, i, run, length);
      WalkSkips(ps, i + 1, k, run - |ps[i].text|, runAtK, length);
    }
  }

  /** Sequences that agree on their first `i + 1` elements agree on their
      first `i`. */
  lemma PrefixShorter(a: seq<Phrase>, b: seq<Phrase>, i: nat)
    requires i + 1 <= |a| && i + 1 <= |b| && a[..i + 1] == b[..i + 1]
    ensures a[..i] == b[..i]
  {
    assert a[..i] == a[..i + 1][..i];
    assert b[..i] == b[..i + 1][..i];
  }

  /** The walk never touches the phrases before the index it starts at. */
  lemma {:induction false} WalkKeepsPrefix(ps: seq<Phrase>, i: nat, run: int, length: int)
    ensures i > |ps| ==> RemoveWalk(ps, i, run, length) == ps
    ensures i <= |ps| ==> |RemoveWalk(ps, i, run, length)| >= i
    ensures i <= |ps| ==> RemoveWalk(ps, i, run, length)[..i] == ps[..i]
    decreases |ps| - i
  {
    if i < |ps| {
      var v := VisitForRemoval(ps, i, run, length);
      if v.1 > 0 {
        var r := RemoveWalk(v.0, i + 1, run - |ps[i].text|, v.1);
        assert RemoveWalk(ps, i, run, length) == r;
        WalkKeepsPrefix(v.0, i + 1, run - |ps[i].text|, v.1);
        if i + 1 <= |v.0| {
          PrefixShorter(r, v.0, i);
        }
      }
    }
  }

  /** A deletion that lies inside one phrase touches only that phrase: it
      loses exactly the characters `[start, start + length)` of the plain
      text, it is removed when it becomes empty, and it is otherwise forced
      to plain text; every other phrase stays as it was. */
  lemma RemoveWithinPhrase(ps: seq<Phrase>, start: int, length: int, k: nat)
    requires k < |ps| && Offset(ps, k) <= start && 0 < length && start + length <= Offset(ps, k + 1)
    ensures var off := start - Offset(ps, k);
            var t := ps[k].text;
            var rest := t[..off] + t[off + length..];
            AfterRemoveChars(ps, start, length)
              == if rest == [] then ps[..k] + ps[k + 1..] else ps[k := ps[k].(kind := TextKind, text := rest)]
  {
    var off := start - Offset(ps, k);
    var t := ps[k].text;
    WalkSkips(ps, 0, k, start, start - Offset(ps, k), length);
    assert JsSubstr(t, 0, off) == t[..off];
    assert JsSubstrFrom(t, off + length) == t[off + length..];
  }

  /** In the same case the joined text is the text before phrase `k`, what
      is left of its text, and the text after it. */
  lemma RemoveWithinPhraseJoined(ps: seq<Phrase>, start: int, length: int, k: nat)
    requires k < |ps| && Offset(ps, k) <= start && 0 < length && start + length <= Offset(ps, k + 1)
    ensures var off := start - Offset(ps, k);
            var t := ps[k].text;
            PlainText(AfterRemoveChars(ps, start, length))
              == PlainText(ps[..k]) + (t[..off] + t[off + length..]) + PlainText(ps[k + 1..])
  {
    var off := start - Offset(ps, k);
    var t := ps[k].text;
    var rest := t[..off] + t[off + length..];
    RemoveWithinPhrase(ps, start, length, k);
    if rest == [] {
      PlainTextConcat(ps[..k], ps[k + 1..]);
      assert PlainText(ps[..k]) + rest + PlainText(ps[k + 1..]) == PlainText(ps[..k]) + PlainText(ps[k + 1..]);
    } else {
      PlainTextUpdate(ps, k, ps[k].(kind := TextKind, text := rest));
    }
  }

  /** In the same case the plain text becomes `old[..start] + old[start +
      length..]`. */
  lemma RemoveWithinPhraseText(ps: seq<Phrase>, start: int, length: int, k: nat)
    requires k < |ps| && Offset(ps, k) <= start && 0 < length && start + length <= Offset(ps, k + 1)
    ensures var p := PlainText(ps);
            start + length <= |p| && PlainText(AfterRemoveChars(ps, start, length)) == p[..start] + p[start + length..]
  {
    var off := start - Offset(ps, k);
    var t := ps[k].text;
    RemoveWithinPhraseJoined(ps, start, length, k);
    PlainTextAround(ps, k);
    CutAt(PlainText(ps[..k]), t, PlainText(ps[k + 1..]), off, length,
          PlainText(ps), PlainText(AfterRemoveChars(ps, start, length)), start);
  }

  /** Some phrase's span holds every offset before the end of the text. */
  lemma {:induction false} LocateCharacter(ps: seq<Phrase>, start: int) returns (k: nat)
    requires 0 <= start < |PlainText(ps)|
    ensures k < |ps| && Offset(ps, k) <= start < Offset(ps, k + 1)
  {
    LengthInvariant(ps);
    k := 0;
    while start >= Offset(ps, k + 1)
      invariant k < |ps| && Offset(ps, k) <= start
      decreases |ps| - k
    {
      if k + 1 == |ps| {
        assert false;
      }
      k := k + 1;
    }
  }

  /** A touched phrase that keeps some text stays at its index. */
  lemma TouchedPhraseStays(ps: seq<Phrase>, k: nat, off: int, length: int)
    requires k < |ps| && off < |ps[k].text|
    requires |JsSubstr(ps[k].text, 0, off) + JsSubstrFrom(ps[k].text, off + length)| > 0
    ensures |RemoveWalk(ps, k, off, length)| > k
    ensures RemoveWalk(ps, k, off, length)[k].text
              == JsSubstr(ps[k].text, 0, off) + JsSubstrFrom(ps[k].text, off + length)
  {
    var v := VisitForRemoval(ps, k, off, length);
    WalkKeepsPrefix(v.0, k + 1, off - |ps[k].text|, v.1);
    var r := RemoveWalk(ps, k, off, length);
    if v.1 > 0 {
      assert r[k] == r[..k + 1][k];
    }
  }

  /** From the phrase the running start falls inside onwards, the walk's
      result still starts with that phrase's text before the start. */
  lemma TouchedTailKeepsPrefix(ps: seq<Phrase>, k: nat, off: int, length: int)
    requires k < |ps| && 0 <= off < |ps[k].text|
    ensures var r := RemoveWalk(ps, k, off, length);
            |r| >= k && |PlainText(r[k..])| >= off && PlainText(r[k..])[..off] == ps[k].text[..off]
  {
    var t := ps[k].text;
    var rest := JsSubstr(t, 0, off) + JsSubstrFrom(t, off + length);
    var r := RemoveWalk(ps, k, off, length);
    WalkKeepsPrefix(ps, k, off, length);
    if |rest| == 0 {
      assert off == 0;
    } else {
      TouchedPhraseStays(ps, k, off, length);
      var tail := PlainText(r[k..]);
      assert r[k..][1..] == r[k + 1..];
      assert tail == rest + PlainText(r[k + 1..]);
      assert JsSubstr(t, 0, off) == t[..off];
      assert tail[..off] == rest[..off];
    }
  }

  /** Once the walk reaches the phrase the running start falls inside, the
      text before that point survives as a prefix of the result. */
  lemma TouchKeepsPrefix(ps: seq<Phrase>, k: nat, off: int, length: int)
    requires k < |ps| && 0 <= off < |ps[k].text|
    ensures var before := PlainText(ps[..k]) + ps[k].text[..off];
            var r := PlainText(RemoveWalk(ps, k, off, length));
            |r| >= |before| && r[..|before|] == before
  {
    var r := RemoveWalk(ps, k, off, length);
    WalkKeepsPrefix(ps, k, off, length);
    TouchedTailKeepsPrefix(ps, k, off, length);
    PlainTextSplit(r, k);
    PrefixThrough(PlainText(ps[..k]), PlainText(r[k..]), ps[k].text[..off]);
  }

  /** A deletion that starts at or after the end of the text changes
      nothing: every phrase ends at or before the running start. */
  lemma RemoveAtOrBeyondEnd(ps: seq<Phrase>, start: int, length: int)
    requires length > 0 && start >= |PlainText(ps)|
    ensures AfterRemoveChars(ps, start, length) == ps
  {
    LengthInvariant(ps);
    WalkSkips(ps, 0, |ps|, start, start - Offset(ps, |ps|), length);
  }

  /** A deletion that starts inside the text leaves the text before its
      start in place, whatever happens after it. */
  lemma RemoveForwardKeepsPrefix(ps: seq<Phrase>, start: int, length: int)
    requires length > 0 && 0 <= start < |PlainText(ps)|
    ensures var p := PlainText(ps);
            var r := PlainText(AfterRemoveChars(ps, start, length));
            |r| >= start && r[..start] == p[..start]
  {
    var k := LocateCharacter(ps, start);
    WalkSkips(ps, 0, k, start, start - Offset(ps, k), length);
    TouchKeepsPrefix(ps, k, start - Offset(ps, k), length);
    PlainTextAround(ps, k);
    var p := PlainText(ps);
    assert p[..start] == PlainText(ps[..k]) + ps[k].text[..start - Offset(ps, k)] by {
      SliceAround(PlainText(ps[..k]), ps[k].text, PlainText(ps[k + 1..]), start - Offset(ps, k));
    }
  }

  /** With a negative length the walk stops at the first phrase: the
      remaining length after that visit is still at most zero, whether or
      not `start` falls inside it. */
  lemma RemoveBackwardStopsAtFirst(ps: seq<Phrase>, start: int, length: int)
    requires length < 0 && 0 <= start && ps != []
    ensures AfterRemoveChars(ps, start, length) == VisitForRemoval(ps, 0, start, length).0
  {
    var t := ps[0].text;
    if start < |t| {
      var rest := JsSubstr(t, 0, start) + JsSubstrFrom(t, start + length);
      assert |rest| <= |t| - length;
    }
  }

  /** With a negative length only the first phrase can be visited: the walk
      stops there, and that phrase keeps its first `start` characters. */
  lemma RemoveBackwardKeepsPrefix(ps: seq<Phrase>, start: int, length: int)
    requires length < 0 && 0 <= start <= |PlainText(ps)|
    ensures var p := PlainText(ps);
            var r := PlainText(AfterRemoveChars(ps, start, length));
            |r| >= start && r[..start] == p[..start]
  {
    if ps != [] && start < |ps[0].text| {
      TouchKeepsPrefix(ps, 0, start, length);
      PlainTextAround(ps, 0);
      var p := PlainText(ps);
      assert p[..start] == ps[0].text[..start] by {
        SliceAround([], ps[0].text, PlainText(ps[1..]), start);
      }
    }
  }

  /** Whatever the length, `removeChars` never alters the plain text before
      `start` (for `0 <= start`): the first phrase it touches keeps
      `text.substr(0, start)`, and it never touches an earlier phrase. This
      holds even for the deletions across phrase boundaries and the negative
      lengths that `removeChars` gets wrong. */
  lemma RemoveKeepsTextBeforeStart(ps: seq<Phrase>, start: int, length: int)
    requires 0 <= start
    ensures var p := PlainText(ps);
            var r := PlainText(AfterRemoveChars(ps, start, length));
            start <= |p| ==> |r| >= start && r[..start] == p[..start]
  {
    if length > 0 && start >= |PlainText(ps)| {
      RemoveAtOrBeyondEnd(ps, start, length);
    } else if length > 0 {
      RemoveForwardKeepsPrefix(ps, start, length);
    } else if length < 0 && start <= |PlainText(ps)| {
      RemoveBackwardKeepsPrefix(ps, start, length);
    }
  }

  /* ---------------------------------------------------------------------
     cleanUpTree
     --------------------------------------------------------------------- */

  /** One step of the `each` in `cleanUpTree`: a plain phrase that follows a
      plain `prev` is appended to `prev`'s text and becomes garbage; any
      other phrase becomes the new `prev`. `kept` holds the phrases that are
      not garbage, so `prev` is its last element. */
  function MergeInto(kept: seq<Phrase>, p: Phrase): seq<Phrase>
  {
    if |kept| > 0 && kept[|kept| - 1].kind == TextKind && p.kind == TextKind
    then kept[..|kept| - 1] + [kept[|kept| - 1].(text := kept[|kept| - 1].text + p.text)]
    else kept + [p]
  }

  /** `cleanUpTree`: the phrases left after the pass and the removal of the
      garbage. It never lengthens the note. */
  function CleanedUp(ps: seq<Phrase>): (r: seq<Phrase>)
    decreases |ps|
    ensures |r| <= |ps|
  {
    if ps == [] then [] else MergeInto(CleanedUp(ps[..|ps| - 1]), ps[|ps| - 1])
  }

  /** No two neighbouring phrases are both plain text. */
  predicate Canonical(ps: seq<Phrase>)
  {
    forall i :: 1 <= i < |ps| ==> ps[i - 1].kind != TextKind || ps[i].kind != TextKind
  }

  /** The annotated (non-text) phrases, in order. */
  function Annotations(ps: seq<Phrase>): seq<Phrase>
    decreases |ps|
  {
    if ps == [] then []
    else Annotations(ps[..|ps| - 1]) + (if ps[|ps| - 1].kind != TextKind then [ps[|ps| - 1]] else [])
  }

  lemma PlainTextSnoc(ps: seq<Phrase>, p: Phrase)
    ensures PlainText(ps + [p]) == PlainText(ps) + p.text
  {
    PlainTextConcat(ps, [p]);
    assert PlainText([p]) == p.text + PlainText([]);
  }

  lemma MergeIntoText(kept: seq<Phrase>, p: Phrase)
    ensures PlainText(MergeInto(kept, p)) == PlainText(kept) + p.text
  {
    if |kept| > 0 && kept[|kept| - 1].kind == TextKind && p.kind == TextKind {
      var last := kept[|kept| - 1];
      assert kept == kept[..|kept| - 1] + [last];
      PlainTextSnoc(kept[..|kept| - 1], last);
      PlainTextSnoc(kept[..|kept| - 1], last.(text := last.text + p.text));
    } else {
      PlainTextSnoc(kept, p);
    }
  }

  /** The last step of the pass adds the last phrase's text. */
  lemma CleanUpStepText(ps: seq<Phrase>, n: nat)
    requires n + 1 == |ps|
    ensures PlainText(CleanedUp(ps)) == PlainText(CleanedUp(ps[..n])) + ps[n].text
    ensures PlainText(ps) == PlainText(ps[..n]) + ps[n].text
  {
    assert CleanedUp(ps) == MergeInto(CleanedUp(ps[..n]), ps[n]);
    MergeIntoText(CleanedUp(ps[..n]), ps[n]);
    PlainTextLast(ps, n);
  }

  /** `cleanUpTree` does not change the plain text. */
  lemma {:induction false} CleanUpKeepsText(ps: seq<Phrase>)
    ensures PlainText(CleanedUp(ps)) == PlainText(ps)
    decreases |ps|
  {
    if ps != [] {
      var n := |ps| - 1;
      CleanUpStepText(ps, n);
      CleanUpKeepsText(ps[..n]);
    }
  }

  /** After `cleanUpTree` no two neighbouring phrases are both plain text. */
  lemma {:induction false} CleanUpIsCanonical(ps: seq<Phrase>)
    ensures Canonical(CleanedUp(ps))
    decreases |ps|
  {
    if ps != [] {
      var n := |ps| - 1;
      CleanUpIsCanonical(ps[..n]);
      var kept := CleanedUp(ps[..n]);
      var r := MergeInto(kept, ps[n]);
      forall i | 1 <= i < |r|
        ensures r[i - 1].kind != TextKind || r[i].kind != TextKind
      {
        if i < |kept| {
          assert r[i - 1] == kept[i - 1];
          assert r[i].kind == kept[i].kind;
        }
      }
    }
  }

  /** A note already in canonical form is left exactly as it is. */
  lemma {:induction false} CanonicalIsFixedPoint(ps: seq<Phrase>)
    requires Canonical(ps)
    ensures CleanedUp(ps) == ps
    decreases |ps|
  {
    if ps != [] {
      var n := |ps| - 1;
      assert Canonical(ps[..n]) by {
        forall i | 1 <= i < n
          ensures ps[..n][i - 1].kind != TextKind || ps[..n][i].kind != TextKind
        {
          assert ps[..n][i - 1] == ps[i - 1] && ps[..n][i] == ps[i];
        }
      }
      CanonicalIsFixedPoint(ps[..n]);
      assert ps == ps[..n] + [ps[n]];
    }
  }

  /** Cleaning up twice is the same as cleaning up once. */
  lemma CleanUpIdempotent(ps: seq<Phrase>)
    ensures CleanedUp(CleanedUp(ps)) == CleanedUp(ps)
  {
    CleanUpIsCanonical(ps);
    CanonicalIsFixedPoint(CleanedUp(ps));
  }

  lemma AnnotationsSnoc(ps: seq<Phrase>, p: Phrase)
    ensures Annotations(ps + [p]) == Annotations(ps) + (if p.kind != TextKind then [p] else [])
  {
    assert (ps + [p])[..|ps|] == ps;
  }

  /** One merge step adds the new phrase to the annotations when it is
      annotated, and nothing otherwise. */
  lemma MergeIntoAnnotations(kept: seq<Phrase>, p: Phrase)
    ensures Annotations(MergeInto(kept, p)) == Annotations(kept) + (if p.kind != TextKind then [p] else [])
  {
    if |kept| > 0 && kept[|kept| - 1].kind == TextKind && p.kind == TextKind {
      var last := kept[|kept| - 1];
      var init := kept[..|kept| - 1];
      assert kept == init + [last];
      AnnotationsSnoc(init, last);
      AnnotationsSnoc(init, last.(text := last.text + p.text));
    } else {
      AnnotationsSnoc(kept, p);
    }
  }

  /** `cleanUpTree` keeps every annotated phrase, unchanged and in order. */
  lemma {:induction false} CleanUpKeepsAnnotations(ps: seq<Phrase>)
    ensures Annotations(CleanedUp(ps)) == Annotations(ps)
    decreases |ps|
  {
    if ps != [] {
      var n := |ps| - 1;
      var kept := CleanedUp(ps[..n]);
      assert CleanedUp(ps) == MergeInto(kept, ps[n]);
      CleanUpKeepsAnnotations(ps[..n]);
      MergeIntoAnnotations(kept, ps[n]);
    }
  }

  /** A run of plain phrases collapses into its first phrase, which keeps
      its value and takes the whole run's text. */
  lemma {:induction false} CleanUpMergesRun(ps: seq<Phrase>)
    requires ps != [] && AllText(ps)
    ensures CleanedUp(ps) == [ps[0].(text := PlainText(ps))]
    decreases |ps|
  {
    var n := |ps| - 1;
    if n == 0 {
      assert ps == [ps[0]];
      assert ps[..0] == [];
      assert PlainText(ps) == ps[0].text + PlainText(ps[1..]);
      assert ps[1..] == [];
      assert CleanedUp(ps) == MergeInto(CleanedUp(ps[..0]), ps[0]);
      assert CleanedUp(ps[..0]) == [];
      assert MergeInto([], ps[0]) == [ps[0]];
      assert PlainText(ps) == ps[0].text;
      assert ps[0].(text := PlainText(ps)) == ps[0];
    } else {
      CleanUpMergesRun(ps[..n]);
      assert ps[..n][0] == ps[0];
      assert ps == ps[..n] + [ps[n]];
      PlainTextSnoc(ps[..n], ps[n]);
    }
  }

  /** Behind an annotated phrase, a merge step acts on what follows it
      alone: the annotation is never merged into. */
  lemma MergeIntoAfterAnnotation(left: seq<Phrase>, k: seq<Phrase>, p: Phrase)
    requires |left| > 0 && left[|left| - 1].kind != TextKind
    ensures MergeInto(left + k, p) == left + MergeInto(k, p)
  {
    var lk := left + k;
    if |k| == 0 {
      assert lk == left;
    } else {
      assert lk[|lk| - 1] == k[|k| - 1];
      if k[|k| - 1].kind == TextKind && p.kind == TextKind {
        assert lk[..|lk| - 1] == left + k[..|k| - 1];
      }
    }
  }

  /** An annotated phrase splits the clean-up in two: the phrases before it
      and the phrases after it are cleaned up on their own, and the
      annotation stays between them. */
  lemma {:induction false} CleanUpSplitsAtAnnotation(ps: seq<Phrase>, a: Phrase, qs: seq<Phrase>)
    requires a.kind != TextKind
    ensures CleanedUp(ps + [a] + qs) == CleanedUp(ps) + [a] + CleanedUp(qs)
    decreases |qs|
  {
    var left := CleanedUp(ps) + [a];
    if qs == [] {
      assert CleanedUp(ps + [a]) == MergeInto(CleanedUp(ps), a) by {
        CleanUpSnoc(ps + [a], ps, a);
      }
      assert ps + [a] + qs == ps + [a];
    } else {
      var n := |qs| - 1;
      var init := ps + [a] + qs[..n];
      assert CleanedUp(ps + [a] + qs) == MergeInto(CleanedUp(init), qs[n]) by {
        CleanUpSnoc(ps + [a] + qs, init, qs[n]);
      }
      assert CleanedUp(qs) == MergeInto(CleanedUp(qs[..n]), qs[n]) by {
        CleanUpSnoc(qs, qs[..n], qs[n]);
      }
      assert CleanedUp(init) == left + CleanedUp(qs[..n]) by {
        CleanUpSplitsAtAnnotation(ps, a, qs[..n]);
      }
      MergeIntoAfterAnnotation(left, CleanedUp(qs[..n]), qs[n]);
    }
  }

  /** The clean-up of a note ending in `last` is the clean-up of the rest
      with one more merge step. */
  lemma CleanUpSnoc(whole: seq<Phrase>, init: seq<Phrase>, last: Phrase)
    requires whole == init + [last]
    ensures CleanedUp(whole) == MergeInto(CleanedUp(init), last)
  {
    assert whole[..|whole| - 1] == init;
  }

  /** A run of plain phrases before an annotation collapses into its first
      phrase, and what follows the annotation is cleaned up on its own. */
  lemma CleanUpRunBeforeAnnotation(run: seq<Phrase>, a: Phrase, qs: seq<Phrase>)
    requires run != [] && AllText(run) && a.kind != TextKind
    ensures CleanedUp(run + [a] + qs) == [run[0].(text := PlainText(run))] + [a] + CleanedUp(qs)
  {
    CleanUpSplitsAtAnnotation(run, a, qs);
    CleanUpMergesRun(run);
  }
  /* ---------------------------------------------------------------------
     The phrase invariant: no phrase has empty text
     --------------------------------------------------------------------- */

  /** Every phrase of the note has some text: a phrase is destroyed when its
      text becomes empty. */
  predicate NoEmptyText(ps: seq<Phrase>)
  {
    forall i | 0 <= i < |ps| :: ps[i].text != []
  }

  /** `addChars` keeps every phrase non-empty: it returns early on empty
      `chars`, and otherwise adds `chars` to a phrase or a new phrase. */
  lemma AddCharsKeepsNoEmptyText(ps: seq<Phrase>, start: int, chars: string)
    requires NoEmptyText(ps)
    ensures NoEmptyText(AfterAddChars(ps, start, chars))
    ensures NoEmptyText(AfterAddCharsTypeahead(ps, start, chars))
  {
  }

  /** One visit of `removeChars` keeps every phrase non-empty: a phrase it
      empties is removed. */
  lemma VisitKeepsNoEmptyText(ps: seq<Phrase>, i: nat, start: int, length: int)
    requires i < |ps| && NoEmptyText(ps)
    ensures NoEmptyText(VisitForRemoval(ps, i, start, length).0)
  {
    var t := ps[i].text;
    if start < |t| {
      var rest := JsSubstr(t, 0, start) + JsSubstrFrom(t, start + length);
      if |rest| == 0 {
        var r := ps[..i] + ps[i + 1..];
        forall j | 0 <= j < |r|
          ensures r[j].text != []
        {
          if j < i { assert r[j] == ps[j]; } else { assert r[j] == ps[j + 1]; }
        }
      }
    }
  }

  /** The walk of `removeChars` keeps every phrase non-empty. */
  lemma {:induction false} RemoveWalkKeepsNoEmptyText(ps: seq<Phrase>, i: nat, start: int, length: int)
    requires NoEmptyText(ps)
    ensures NoEmptyText(RemoveWalk(ps, i, start, length))
    decreases |ps| - i
  {
    if i < |ps| {
      var v := VisitForRemoval(ps, i, start, length);
      VisitKeepsNoEmptyText(ps, i, start, length);
      if v.1 > 0 {
        RemoveWalkKeepsNoEmptyText(v.0, i + 1, start - |ps[i].text|, v.1);
      }
    }
  }

  /** `removeChars` keeps every phrase non-empty. */
  lemma RemoveCharsKeepsNoEmptyText(ps: seq<Phrase>, start: int, length: int)
    requires NoEmptyText(ps)
    ensures NoEmptyText(AfterRemoveChars(ps, start, length))
  {
    if length != 0 {
      RemoveWalkKeepsNoEmptyText(ps, 0, start, length);
    }
  }

  /** `cleanUpTree` keeps every phrase non-empty: it only concatenates
      texts. */
  lemma {:induction false} CleanUpKeepsNoEmptyText(ps: seq<Phrase>)
    requires NoEmptyText(ps)
    ensures NoEmptyText(CleanedUp(ps))
    decreases |ps|
  {
    if ps != [] {
      var init := ps[..|ps| - 1];
      var last := ps[|ps| - 1];
      CleanUpKeepsNoEmptyText(init);
      CleanUpSnoc(ps, init, last);
      var kept := CleanedUp(init);
      var r := MergeInto(kept, last);
      forall j | 0 <= j < |r|
        ensures r[j].text != []
      {
        if j < |kept| { assert r[j].text == kept[j].text || r[j].text == kept[j].text + last.text; }
      }
    }
  }
}
