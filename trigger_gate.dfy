/** The caret-token trigger gate of the caret-scanner widget: after each
    keystroke, take the whitespace-delimited word around the caret, split
    off its first character as the trigger symbol, and fetch suggestions
    when the rest is long enough and the symbol names an endpoint. The
    endpoints are modelled by the set of their keys; the fetch itself is
    the `Fetch` outcome. */
module TriggerGate {
  import opened JsString
  import opened Whitespace

  /** `searchLength`: the shortest query that is looked up. */
  const SearchLength: nat := 2

  /** What `parseCurrentWord` decides: no lookup, or a fetch from the
      endpoint named by `symbol` with `query`. */
  datatype Lookup = NoLookup | Fetch(symbol: string, query: string)

  /** The longest whitespace-free suffix of `s`: a suffix, and preceded by
      whitespace when it is not all of `s`. */
  function TrailingWord(s: string): (r: string)
    ensures |r| <= |s|
  {
    if s == [] || IsSpace(s[|s| - 1]) then []
    else TrailingWord(s[..|s| - 1]) + [s[|s| - 1]]
  }

  /** Appending a non-whitespace character to a whitespace-free string
      keeps it whitespace-free. */
  lemma NoSpaceSnoc(w: string, c: char, r: string)
    requires forall i :: 0 <= i < |w| ==> !IsSpace(w[i])
    requires !IsSpace(c) && r == w + [c]
    ensures forall i :: 0 <= i < |r| ==> !IsSpace(r[i])
  {
    assert forall i :: 0 <= i < |w| ==> r[i] == w[i];
  }

  /** A suffix of `init` extended by `c` is a suffix of `init + [c]`. */
  lemma SuffixSnoc(init: string, c: char, s: string, w: string)
    requires s == init + [c] && |w| <= |init| && w == init[|init| - |w|..]
    ensures s[|s| - |w| - 1..] == w + [c]
  {
    assert s[|s| - |w| - 1..] == init[|init| - |w|..] + [c];
  }

  /** The trailing word is a suffix, preceded by whitespace when it is not
      the whole string. */
  lemma {:induction false} TrailingWordIsSuffix(s: string)
    ensures var r := TrailingWord(s);
            r == s[|s| - |r|..] && (|r| < |s| ==> IsSpace(s[|s| - |r| - 1]))
  {
    if s != [] && !IsSpace(s[|s| - 1]) {
      var init := s[..|s| - 1];
      TrailingWordIsSuffix(init);
      var ri := TrailingWord(init);
      assert s == init + [s[|s| - 1]];
      SuffixSnoc(init, s[|s| - 1], s, ri);
      if |ri| < |init| {
        assert s[|s| - |ri| - 2] == init[|init| - |ri| - 1];
      }
    }
  }

  /** The trailing word holds no whitespace. */
  lemma {:induction false} TrailingWordSpec(s: string)
    ensures forall i :: 0 <= i < |TrailingWord(s)| ==> !IsSpace(TrailingWord(s)[i])
  {
    if s != [] && !IsSpace(s[|s| - 1]) {
      var init := s[..|s| - 1];
      TrailingWordSpec(init);
      NoSpaceSnoc(TrailingWord(init), s[|s| - 1], TrailingWord(s));
    }
  }

  /** The longest whitespace-free prefix of `s`: a prefix, and followed by
      whitespace when it is not all of `s`. */
  function LeadingWord(s: string): (r: string)
    ensures |r| <= |s| && r == s[..|r|]
    ensures |r| < |s| ==> IsSpace(s[|r|])
  {
    if s == [] || IsSpace(s[0]) then []
    else [s[0]] + LeadingWord(s[1..])
  }

  /** The leading word holds no whitespace. */
  lemma {:induction false} LeadingWordSpec(s: string)
    ensures forall i :: 0 <= i < |LeadingWord(s)| ==> !IsSpace(LeadingWord(s)[i])
  {
    if s != [] && !IsSpace(s[0]) {
      LeadingWordSpec(s[1..]);
      var r := LeadingWord(s);
      assert r == [s[0]] + LeadingWord(s[1..]);
    }
  }

  /** The word `parseAtCaret` reads: from just after the last whitespace
      at or before `selStart - 1` up to the first whitespace at or after
      `selEnd`, or up to `selStart` when no whitespace follows. */
  function CaretWord(text: string, selStart: int, selEnd: int): (word: string)
    ensures |word| <= |text|
  {
    var li := LastSpaceAtOrBefore(text, EffectiveStart(text, Given(selStart - 1)));
    var found := RegexIndexOf(text, selEnd);
    var ri := if found == -1 then selStart else found;
    JsSubstring(text, li + 1, ri)
  }

  /** `parseCurrentWord`: the first character is the symbol, the rest the
      query. */
  function ParseCurrentWord(word: string, endpoints: set<string>): (r: Lookup)
    ensures r.Fetch? <==> |word| >= 1 + SearchLength && word[..1] in endpoints
    ensures r.Fetch? ==> r.symbol + r.query == word && |r.symbol| == 1
  {
    var symbol := JsSubstr(word, 0, 1);
    var query := JsSubstrFrom(word, 1);
    if |query| >= SearchLength && symbol in endpoints then Fetch(symbol, query) else NoLookup
  }

  /** `parseAtCaret` as a whole, on the text and selection it reads. */
  function Gate(text: string, selStart: int, selEnd: int, endpoints: set<string>): Lookup
  {
    ParseCurrentWord(CaretWord(text, selStart, selEnd), endpoints)
  }

  /** `parseAtCaret` with the two search helpers as the widget calls them. */
  method ParseAtCaret(text: string, selStart: int, selEnd: int, endpoints: set<string>) returns (r: Lookup)
    ensures r == Gate(text, selStart, selEnd, endpoints)
    ensures r.Fetch? ==> |r.query| >= SearchLength && r.symbol in endpoints
  {
    var li := RegexLastIndexOf(text, Given(selStart - 1));
    var ri := RegexIndexOf(text, selEnd);
    ri := if ri == -1 then selStart else ri;
    var word := JsSubstring(text, li + 1, ri);
    r := ParseCurrentWord(word, endpoints);
  }

  /** The trailing word of `s[..end]` is the slice of `s` from `k` to
      `end`, where no whitespace lies in between and whitespace lies just
      before `k` when `k > 0`. */
  lemma TrailingWordSlice(s: string, end: nat)
    requires 0 < end <= |s|
    ensures var k := end - |TrailingWord(s[..end])|;
            0 <= k <= end && TrailingWord(s[..end]) == s[k..end]
            && (forall i :: k <= i < end ==> !IsSpace(s[i]))
            && (k > 0 ==> IsSpace(s[k - 1]))
  {
    var w := s[..end];
    var r := TrailingWord(w);
    var k := end - |r|;
    TrailingWordIsSuffix(w);
    TrailingWordSpec(w);
    forall i | k <= i < end
      ensures !IsSpace(s[i])
    {
      assert s[i] == r[i - k];
    }
    if k > 0 {
      assert s[k - 1] == w[|w| - |r| - 1];
    }
  }

  /** The last whitespace at or before `p` is `q` when `s[q]` is whitespace
      (or `q == -1`) and nothing after `q` up to `p` is. */
  lemma {:induction false} LastSpaceIs(s: string, p: int, q: int)
    requires -1 <= q <= p < |s|
    requires q >= 0 ==> IsSpace(s[q])
    requires forall i :: q < i <= p ==> !IsSpace(s[i])
    ensures LastSpaceAtOrBefore(s, p) == q
    decreases p
  {
    if p > q {
      LastSpaceIs(s, p - 1, q);
    }
  }

  /** The last whitespace before `end` bounds the trailing word of
      `s[..end]`. */
  lemma TrailingWordAfterLastSpace(s: string, end: nat)
    requires 0 < end <= |s|
    ensures TrailingWord(s[..end]) == s[LastSpaceAtOrBefore(s, end - 1) + 1..end]
  {
    TrailingWordSlice(s, end);
    LastSpaceIs(s, end - 1, end - |TrailingWord(s[..end])| - 1);
  }

  /** The first whitespace at or after `from` bounds the leading word of
      `s[from..]`. */
  lemma {:induction false} LeadingWordBeforeFirstSpace(s: string, from: nat)
    requires from <= |s| && SearchFrom(s, from) != -1
    ensures LeadingWord(s[from..]) == s[from..SearchFrom(s, from)]
    decreases |s| - from
  {
    if !IsSpace(s[from]) {
      assert s[from..][1..] == s[from + 1..];
      LeadingWordBeforeFirstSpace(s, from + 1);
    }
  }

  /** For a selection that starts after position 0, the word starts just
      after the last whitespace before the selection start and runs to the
      first whitespace at or after the selection end, or only to the
      selection start when there is none. */
  lemma CaretWordBounds(text: string, selStart: int, selEnd: int)
    requires 0 < selStart <= selEnd <= |text|
    ensures var li := LastSpaceAtOrBefore(text, selStart - 1);
            var found := RegexIndexOf(text, selEnd);
            CaretWord(text, selStart, selEnd) == text[li + 1..if found == -1 then selStart else found]
  {
    assert EffectiveStart(text, Given(selStart - 1)) == selStart - 1;
  }

  /** When whitespace follows the selection end, the word is the
      whitespace-free run before the selection, the whole selection
      (whitespace included), and the whitespace-free run after it. */
  lemma SelectionWordSpans(text: string, selStart: int, selEnd: int, j: int)
    requires 0 < selStart <= selEnd <= j < |text| && IsSpace(text[j])
    ensures CaretWord(text, selStart, selEnd)
            == TrailingWord(text[..selStart]) + text[selStart..selEnd] + LeadingWord(text[selEnd..])
  {
    var li := LastSpaceAtOrBefore(text, selStart - 1);
    var found := RegexIndexOf(text, selEnd);
    var before, after := TrailingWord(text[..selStart]), LeadingWord(text[selEnd..]);
    assert selEnd <= found <= j && found == SearchFrom(text, selEnd) by {
      RegexIndexOfHit(text, selEnd, j);
    }
    assert CaretWord(text, selStart, selEnd) == text[li + 1..found] by {
      CaretWordBounds(text, selStart, selEnd);
    }
    assert before == text[li + 1..selStart] by {
      TrailingWordAfterLastSpace(text, selStart);
    }
    assert after == text[selEnd..found] by {
      LeadingWordBeforeFirstSpace(text, selEnd);
    }
    SliceJoin(text, li + 1, selStart, selEnd, text[li + 1..selEnd], before, text[selStart..selEnd]);
    SliceJoin(text, li + 1, selEnd, found, CaretWord(text, selStart, selEnd), text[li + 1..selEnd], after);
  }

  /** When no whitespace follows the selection end, the word stops at the
      selection start: neither the selection nor the rest of the last word
      is part of it. */
  lemma SelectionWordStopsAtStart(text: string, selStart: int, selEnd: int)
    requires 0 < selStart <= selEnd <= |text|
    requires forall i :: selEnd <= i < |text| ==> !IsSpace(text[i])
    ensures CaretWord(text, selStart, selEnd) == TrailingWord(text[..selStart])
  {
    RegexIndexOfMiss(text, selEnd);
    CaretWordBounds(text, selStart, selEnd);
    TrailingWordAfterLastSpace(text, selStart);
  }

  /** When some whitespace follows a collapsed caret, the word is the
      whitespace-free run just before the caret followed by the one just
      after it. */
  lemma CaretWordInside(text: string, c: int, j: int)
    requires 0 < c <= j < |text| && IsSpace(text[j])
    ensures CaretWord(text, c, c) == TrailingWord(text[..c]) + LeadingWord(text[c..])
  {
    var before, after := TrailingWord(text[..c]), LeadingWord(text[c..]);
    assert CaretWord(text, c, c) == before + text[c..c] + after by {
      SelectionWordSpans(text, c, c, j);
    }
    assert before + text[c..c] == before;
  }

  /** When no whitespace follows a collapsed caret, the word stops at the
      caret: the rest of the last word is not part of it. */
  lemma CaretWordInLastWord(text: string, c: int)
    requires 0 < c <= |text|
    requires forall i :: c <= i < |text| ==> !IsSpace(text[i])
    ensures CaretWord(text, c, c) == TrailingWord(text[..c])
  {
    SelectionWordStopsAtStart(text, c, c);
  }

  /** At a caret before the first character the search backwards is
      clamped to position 0 and may find whitespace there; the substring
      bounds then cross and are swapped, so the word is that whitespace. */
  lemma CaretWordAtTextStart()
    ensures CaretWord(" a", 0, 0) == " "
  {
    var text := " a";
    assert IsSpace(text[0]);
    assert LastSpaceAtOrBefore(text, EffectiveStart(text, Given(-1))) == 0;
    assert RegexIndexOf(text, 0) == 0;
    assert JsSubstring(text, 1, 0) == text[0..1];
  }

  /** Hence the word at a collapsed caret never holds whitespace. */
  lemma CaretWordHasNoSpace(text: string, c: int)
    requires 0 < c <= |text|
    ensures forall i :: 0 <= i < |CaretWord(text, c, c)| ==> !IsSpace(CaretWord(text, c, c)[i])
  {
    var j := SearchFrom(text, c);
    SearchFromSpec(text, c);
    TrailingWordSpec(text[..c]);
    if j == -1 {
      CaretWordInLastWord(text, c);
    } else {
      CaretWordInside(text, c, j);
      var w := CaretWord(text, c, c);
      var a, b := TrailingWord(text[..c]), LeadingWord(text[c..]);
      LeadingWordSpec(text[c..]);
      forall i | 0 <= i < |w|
        ensures !IsSpace(w[i])
      {
        if i < |a| {
          assert w[i] == a[i];
        } else {
          assert w[i] == b[i - |a|];
        }
      }
    }
  }

  /** One step of the trailing word: a non-whitespace character extends
      the trailing word of what precedes it. */
  lemma TrailingWordStep(s: string, end: nat)
    requires 0 < end <= |s| && !IsSpace(s[end - 1])
    ensures TrailingWord(s[..end]) == TrailingWord(s[..end - 1]) + [s[end - 1]]
  {
    assert s[..end][..end - 1] == s[..end - 1];
  }

  /** The whitespace-free run before each caret position in "hello @bo". */
  lemma TrailingWordsOfExample()
    ensures TrailingWord("hello @bo"[..9]) == "@bo"
    ensures TrailingWord("hello @bo"[..8]) == "@b"
  {
    var text := "hello @bo";
    assert TrailingWord(text[..6]) == [] by {
      assert text[..6][5] == ' ';
    }
    TrailingWordStep(text, 7);
    TrailingWordStep(text, 8);
    TrailingWordStep(text, 9);
  }

  /** Typing "hello @bo" with an endpoint '@' fires a fetch for "bo". */
  lemma GateFiresOnLongQuery()
    ensures Gate("hello @bo", 9, 9, {"@"}) == Fetch("@", "bo")
  {
    TrailingWordsOfExample();
    CaretWordInLastWord("hello @bo", 9);
    var w := CaretWord("hello @bo", 9, 9);
    assert JsSubstr(w, 0, 1) == "@" && JsSubstrFrom(w, 1) == "bo";
  }

  /** One character earlier the query "b" is too short, and a symbol that
      names no endpoint never fires. */
  lemma GateHoldsBack()
    ensures Gate("hello @bo", 8, 8, {"@"}) == NoLookup
    ensures Gate("hello @bo", 9, 9, {"#"}) == NoLookup
  {
    TrailingWordsOfExample();
    CaretWordInLastWord("hello @bo", 9);
    CaretWordInLastWord("hello @bo", 8);
  }
}
