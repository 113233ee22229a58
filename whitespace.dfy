/** The two regular-expression search helpers that the caret scanner adds to
    `String.prototype`. Every call site passes `/\s/`, so both are modelled as
    searches for a character satisfying `IsSpace`. */
module Whitespace {
  import opened JsString

  /** The second argument of `regexLastIndexOf`, which callers may omit. */
  datatype StartPos = Omitted | Given(pos: int)

  /** The first whitespace index at or after `from`, or -1 when there is none:
      what `search(/\s/)` returns on `s[from..]` (shifted back by `from`), and
      what a global `exec` started at `lastIndex == from` finds. */
  function SearchFrom(s: string, from: nat): (r: int)
    decreases |s| - from
    ensures r == -1 || (from <= r < |s| && IsSpace(s[r]))
  {
    if from >= |s| then -1
    else if IsSpace(s[from]) then from
    else SearchFrom(s, from + 1)
  }

  /** `SearchFrom` finds the first whitespace at or after `from`, and gives
      -1 exactly when there is none. */
  lemma {:induction false} SearchFromSpec(s: string, from: nat)
    ensures var r := SearchFrom(s, from);
            (r == -1 <==> forall i :: from <= i < |s| ==> !IsSpace(s[i]))
            && (r != -1 ==> forall i :: from <= i < r ==> !IsSpace(s[i]))
    decreases |s| - from
  {
    if from < |s| && !IsSpace(s[from]) {
      SearchFromSpec(s, from + 1);
    }
  }

  /** The greatest whitespace index that is at most `p`, or -1 when there is
      none. */
  function LastSpaceAtOrBefore(s: string, p: int): (r: int)
    decreases p
    ensures -1 <= r < |s| && r <= Max(p, -1)
    ensures r != -1 ==> IsSpace(s[r])
  {
    if p < 0 then -1
    else if p < |s| && IsSpace(s[p]) then p
    else LastSpaceAtOrBefore(s, p - 1)
  }

  /** `LastSpaceAtOrBefore` finds the last whitespace at or before `p`, and
      gives -1 exactly when there is none. */
  lemma {:induction false} LastSpaceSpec(s: string, p: int)
    ensures var r := LastSpaceAtOrBefore(s, p);
            (r == -1 <==> forall i :: 0 <= i <= p && i < |s| ==> !IsSpace(s[i]))
            && (r != -1 ==> forall i :: r < i <= p && i < |s| ==> !IsSpace(s[i]))
    decreases p
  {
    if p >= 0 && !(p < |s| && IsSpace(s[p])) {
      LastSpaceSpec(s, p - 1);
    }
  }

  /** Searching `s.substring(from)` finds the first whitespace of `s` at or
      after `from`, shifted back by `from`. */
  lemma SearchInSuffix(s: string, from: int)
    ensures var r := SearchFrom(JsSubstring(s, from, |s|), 0);
            0 <= from ==> (r == -1 <==> SearchFrom(s, from) == -1) && (r != -1 ==> r + from == SearchFrom(s, from))
  {
    if 0 <= from <= |s| {
      var tail := s[from..];
      assert JsSubstring(s, from, |s|) == tail;
      var r, r2 := SearchFrom(tail, 0), SearchFrom(s, from);
      SearchFromSpec(tail, 0);
      SearchFromSpec(s, from);
      if r != -1 {
        assert IsSpace(s[from + r]) by { assert tail[r] == s[from + r]; }
      }
      if r2 != -1 {
        assert IsSpace(tail[r2 - from]) by { assert tail[r2 - from] == s[r2]; }
      }
    } else if from > |s| {
      assert JsSubstring(s, from, |s|) == [];
    }
  }

  /** `s.regexIndexOf(/\s/, startpos)`: search `s.substring(startpos)` and
      shift a hit back by `startpos`. For a start that is not negative this
      is the search of `s` itself from `startpos`. Its only caller passes a
      selection end, which is never negative; for a negative `startpos` the
      substring is the whole string but the shift still subtracts. */
  function RegexIndexOf(s: string, startpos: int): (r: int)
    ensures 0 <= startpos ==> r == SearchFrom(s, startpos)
  {
    var tail := JsSubstring(s, startpos, |s|);
    var indexOf := SearchFrom(tail, 0);
    SearchInSuffix(s, startpos);
    if indexOf >= 0 then indexOf + startpos else indexOf
  }

  /** For a start that is not negative, `regexIndexOf` gives -1 exactly
      when no whitespace lies at or after the start, and otherwise the
      first whitespace at or after it. */
  lemma RegexIndexOfSpec(s: string, startpos: nat)
    ensures var r := RegexIndexOf(s, startpos);
            (r == -1 <==> forall i :: startpos <= i < |s| ==> !IsSpace(s[i]))
            && (r != -1 ==> startpos <= r < |s| && IsSpace(s[r]))
            && (r != -1 ==> forall i :: startpos <= i < r ==> !IsSpace(s[i]))
  {
    SearchFromSpec(s, startpos);
  }

  /** When some whitespace lies at or after `from`, `regexIndexOf` finds
      the first one. */
  lemma RegexIndexOfHit(s: string, from: nat, j: nat)
    requires from <= j < |s| && IsSpace(s[j])
    ensures RegexIndexOf(s, from) == SearchFrom(s, from) && from <= SearchFrom(s, from) <= j
  {
    SearchFromSpec(s, from);
  }

  /** When no whitespace lies at or after `from`, `regexIndexOf` gives -1. */
  lemma RegexIndexOfMiss(s: string, from: nat)
    requires forall i :: from <= i < |s| ==> !IsSpace(s[i])
    ensures RegexIndexOf(s, from) == -1
  {
    SearchFromSpec(s, from);
  }

  /** The position `regexLastIndexOf` searches up to: the string's length
      when `startpos` is omitted, zero when it is negative. It never lies
      past the end unless the caller asked for a start past the end. */
  function EffectiveStart(s: string, startpos: StartPos): (p: nat)
    ensures startpos.Omitted? || startpos.pos <= |s| ==> p <= |s|
  {
    match startpos
    case Omitted => |s|
    case Given(n) => if n < 0 then 0 else n
  }

  /** Looking at or before any position from the last index on sees the
      whole string. */
  lemma {:induction false} LastSpaceBeyondEnd(s: string, p: int)
    requires |s| - 1 <= p
    ensures LastSpaceAtOrBefore(s, p) == LastSpaceAtOrBefore(s, |s| - 1)
    decreases p
  {
    if p > |s| - 1 {
      LastSpaceBeyondEnd(s, p - 1);
    }
  }

  /** What the clamping of `startpos` means for the search: an omitted
      start, or one at or past the last index, searches the whole string,
      and a start at or below zero still looks at the first character. */
  lemma LastIndexOfClamped(s: string, startpos: StartPos)
    ensures var r := LastSpaceAtOrBefore(s, EffectiveStart(s, startpos));
            (startpos.Omitted? || startpos.pos >= |s| - 1 ==> r == LastSpaceAtOrBefore(s, |s| - 1))
            && (startpos.Given? && startpos.pos <= 0 ==> r == (if |s| > 0 && IsSpace(s[0]) then 0 else -1))
  {
    var p := EffectiveStart(s, startpos);
    if |s| - 1 <= p {
      LastSpaceBeyondEnd(s, p);
    }
  }

  /** `s.regexLastIndexOf(/\s/, startpos)`: run a global `exec` over
      `s.substring(0, p + 1)` again and again, moving `lastIndex` one step
      further each time, and keep the index of the last hit. */
  method RegexLastIndexOf(s: string, startpos: StartPos) returns (lastIndexOf: int)
    ensures lastIndexOf == LastSpaceAtOrBefore(s, EffectiveStart(s, startpos))
  {
    var p := EffectiveStart(s, startpos);
    var work := JsSubstring(s, 0, p + 1);
    assert work == s[..Min(p + 1, |s|)];
    lastIndexOf := -1;
    var nextStop := 0;
    var result := SearchFrom(work, nextStop);
    while result != -1
      invariant 0 <= nextStop <= |work|
      invariant result == SearchFrom(work, nextStop)
      invariant nextStop == 0 ==> lastIndexOf == -1
      invariant nextStop > 0 ==> lastIndexOf == SearchFrom(work, nextStop - 1) != -1
      decreases |work| - nextStop
    {
      lastIndexOf := result;
      nextStop := nextStop + 1;
      result := SearchFrom(work, nextStop);
    }
    // No hit is left at or after nextStop, so the last hit is the greatest one.
    SearchFromSpec(work, nextStop);
    LastSpaceSpec(s, p);
    forall i | nextStop <= i <= p && i < |s|
      ensures !IsSpace(s[i])
    {
      assert s[i] == work[i];
    }
    if nextStop > 0 {
      assert lastIndexOf == nextStop - 1 && work[lastIndexOf] == s[lastIndexOf];
    }
  }
}
