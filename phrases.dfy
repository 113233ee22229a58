/** Phrases, the segments a note is made of, and the read-only views of a
    note: its plain text, its HTML and the value of its first phrase of a
    given type. */
module Phrases {

  /** A JavaScript value held in a phrase's `value` attribute. `Val` carries
      the value's string conversion, which is all that `toHTML` uses of it;
      a phrase built without a value holds `Undefined`. */
  datatype JsValue = Undefined | Null | Val(repr: string)

  /** The default `type` of a phrase: plain, unannotated text. */
  const TextKind: string := "text"

  /** One phrase: its `type` attribute (called `kind` here), its `text` and
      its `value`. */
  datatype Phrase = Phrase(kind: string, text: string, value: JsValue)

  /** The phrase `add({text: chars})` creates: the model's default type and
      no value. */
  function TextPhrase(chars: string): Phrase
  {
    Phrase(TextKind, chars, Undefined)
  }

  /** `'' + value`. */
  function ToJsString(v: JsValue): string
  {
    match v
    case Undefined => "undefined"
    case Null => "null"
    case Val(repr) => repr
  }

  /** `Phrase.toHTML`: the bare text for a plain phrase, otherwise an anchor
      that carries the type and the value as data attributes around the
      text. Nothing is escaped. */
  function PhraseHtml(p: Phrase): (r: string)
    ensures r == p.text <==> p.kind == TextKind
    ensures |r| >= |p.text|
    ensures p.kind != TextKind ==> |r| == |AnchorOpen(p)| + |p.text| + |AnchorClose|
    ensures p.kind != TextKind ==> r[..|AnchorOpen(p)|] == AnchorOpen(p)
    ensures p.kind != TextKind ==> r[|AnchorOpen(p)|..|r| - |AnchorClose|] == p.text
    ensures p.kind != TextKind ==> r[|r| - |AnchorClose|..] == AnchorClose
  {
    if p.kind == TextKind then p.text
    else
      var open := AnchorOpen(p);
      assert |open| > 0;
      open + p.text + AnchorClose
  }

  const AnchorClose: string := "</a>"

  /** The opening tag of an annotated phrase: an anchor carrying the
      phrase's type and its value as a string. */
  function AnchorOpen(p: Phrase): string
  {
    "<a data-type=\"" + p.kind + "\" data-value=\"" + ToJsString(p.value) + "\">"
  }

  /** `Note.toPlainText`: the phrase texts joined in order. */
  function PlainText(ps: seq<Phrase>): string
  {
    if |ps| == 0 then [] else ps[0].text + PlainText(ps[1..])
  }

  /** Whether every phrase is plain text. */
  predicate AllText(ps: seq<Phrase>)
  {
    forall i :: 0 <= i < |ps| ==> ps[i].kind == TextKind
  }

  /** The phrases rendered by `render` and joined in order. */
  function JoinRendered(render: Phrase -> string, ps: seq<Phrase>): string
  {
    if |ps| == 0 then [] else render(ps[0]) + JoinRendered(render, ps[1..])
  }

  /** `Note.toHTML`: the phrases' HTML joined in order. */
  function Html(ps: seq<Phrase>): string
  {
    JoinRendered(PhraseHtml, ps)
  }

  /** The HTML of a note is never shorter than its plain text, and for a
      note without annotations it is the plain text. */
  lemma {:induction false} HtmlCoversText(ps: seq<Phrase>)
    ensures |Html(ps)| >= |PlainText(ps)|
    ensures AllText(ps) ==> Html(ps) == PlainText(ps)
  {
    if |ps| > 0 {
      HtmlCoversText(ps[1..]);
    }
  }

  /** The index of the first phrase whose type is `kind`, or -1. */
  function IndexOfKind(ps: seq<Phrase>, kind: string): (r: int)
    ensures r == -1 <==> forall i :: 0 <= i < |ps| ==> ps[i].kind != kind
    ensures r != -1 ==> 0 <= r < |ps| && ps[r].kind == kind
    ensures r != -1 ==> forall i :: 0 <= i < r ==> ps[i].kind != kind
  {
    if ps == [] then -1
    else if ps[0].kind == kind then 0
    else
      var r := IndexOfKind(ps[1..], kind);
      if r == -1 then -1 else r + 1
  }

  /** `findWhere({type: kind})` followed by `model ? model.get('value') :
      null`: the value of the first phrase of that type, or null. */
  function ValueOfFirst(ps: seq<Phrase>, kind: string): (r: JsValue)
    ensures (forall i :: 0 <= i < |ps| ==> ps[i].kind != kind) ==> r == Null
    ensures forall i :: 0 <= i < |ps| && ps[i].kind == kind && (forall j :: 0 <= j < i ==> ps[j].kind != kind)
                        ==> r == ps[i].value
  {
    var k := IndexOfKind(ps, kind);
    if k == -1 then Null else ps[k].value
  }

  /** The offset in the plain text at which phrase `k` starts: the sum of
      the lengths of the phrases before it. */
  function Offset(ps: seq<Phrase>, k: nat): nat
    requires k <= |ps|
  {
    if k == 0 then 0 else Offset(ps, k - 1) + |ps[k - 1].text|
  }

  /** Joining is compatible with concatenating phrase sequences. */
  lemma {:induction false} PlainTextConcat(a: seq<Phrase>, b: seq<Phrase>)
    ensures PlainText(a + b) == PlainText(a) + PlainText(b)
  {
    if a == [] {
      assert a + b == b;
    } else {
      assert (a + b)[1..] == a[1..] + b;
      PlainTextConcat(a[1..], b);
    }
  }

  /** Joining rendered phrases is compatible with concatenating phrase
      sequences, whatever the renderer. */
  lemma {:induction false} JoinRenderedConcat(render: Phrase -> string, a: seq<Phrase>, b: seq<Phrase>)
    ensures JoinRendered(render, a + b) == JoinRendered(render, a) + JoinRendered(render, b)
  {
    if a == [] {
      assert a + b == b;
    } else {
      assert (a + b)[0] == a[0] && (a + b)[1..] == a[1..] + b;
      JoinRenderedConcat(render, a[1..], b);
    }
  }

  /** The HTML of a note is the HTML of its parts, one after the other. */
  lemma HtmlConcat(a: seq<Phrase>, b: seq<Phrase>)
    ensures Html(a + b) == Html(a) + Html(b)
  {
    JoinRenderedConcat(PhraseHtml, a, b);
  }

  /** Phrase `k` starts at `Offset(ps, k)`: the lengths of the earlier
      phrases add up to the length of their joined text. With `k == |ps|`
      this is the length invariant of a note. */
  lemma {:induction false} OffsetIsPrefixLength(ps: seq<Phrase>, k: nat)
    requires k <= |ps|
    ensures Offset(ps, k) == |PlainText(ps[..k])|
  {
    if k > 0 {
      OffsetIsPrefixLength(ps, k - 1);
      assert ps[..k] == ps[..k - 1] + [ps[k - 1]];
      PlainTextConcat(ps[..k - 1], [ps[k - 1]]);
      assert PlainText([ps[k - 1]]) == ps[k - 1].text + PlainText([]);
    }
  }

  /** The plain text seen around one phrase: what comes before it, its own
      text, and what comes after it; the phrase's text starts at
      `Offset(ps, k)`. */
  lemma PlainTextAround(ps: seq<Phrase>, k: nat)
    requires k < |ps|
    ensures PlainText(ps) == PlainText(ps[..k]) + ps[k].text + PlainText(ps[k + 1..])
    ensures |PlainText(ps[..k])| == Offset(ps, k)
    ensures Offset(ps, k + 1) <= |PlainText(ps)|
  {
    assert ps == ps[..k] + ([ps[k]] + ps[k + 1..]);
    PlainTextConcat(ps[..k], [ps[k]] + ps[k + 1..]);
    PlainTextConcat([ps[k]], ps[k + 1..]);
    assert PlainText([ps[k]]) == ps[k].text + PlainText([]);
    OffsetIsPrefixLength(ps, k);
  }

  /** The plain text starts with the first phrase's text. */
  lemma PlainTextCons(p: Phrase, ps: seq<Phrase>)
    ensures PlainText([p] + ps) == p.text + PlainText(ps)
  {
    assert ([p] + ps)[1..] == ps;
  }

  /** The plain text ends with the last phrase's text. */
  lemma PlainTextLast(ps: seq<Phrase>, n: nat)
    requires n + 1 == |ps|
    ensures PlainText(ps) == PlainText(ps[..n]) + ps[n].text
  {
    PlainTextConcat(ps[..n], [ps[n]]);
    assert PlainText([ps[n]]) == ps[n].text + PlainText([]);
    assert ps[..n] + [ps[n]] == ps;
  }

  /** The plain text of a sequence cut in two. */
  lemma PlainTextSplit(ps: seq<Phrase>, m: nat)
    requires m <= |ps|
    ensures PlainText(ps) == PlainText(ps[..m]) + PlainText(ps[m..])
  {
    assert ps == ps[..m] + ps[m..];
    PlainTextConcat(ps[..m], ps[m..]);
  }

  /** Replacing one phrase replaces its text in the plain text. */
  lemma PlainTextUpdate(ps: seq<Phrase>, k: nat, q: Phrase)
    requires k < |ps|
    ensures PlainText(ps[k := q]) == PlainText(ps[..k]) + q.text + PlainText(ps[k + 1..])
  {
    var r := ps[k := q];
    PlainTextAround(r, k);
    assert r[..k] == ps[..k] && r[k + 1..] == ps[k + 1..];
  }

  /** Each phrase's text sits in the plain text at its offset. */
  lemma PhraseAtOffset(ps: seq<Phrase>, k: nat)
    requires k < |ps|
    ensures Offset(ps, k + 1) <= |PlainText(ps)|
    ensures PlainText(ps)[Offset(ps, k)..Offset(ps, k + 1)] == ps[k].text
  {
    PlainTextAround(ps, k);
    var a, b := PlainText(ps[..k]), PlainText(ps[k + 1..]);
    assert (a + ps[k].text + b)[|a|..|a| + |ps[k].text|] == ps[k].text;
  }

  /** The plain text laid out phrase by phrase. */
  lemma PlainTextLayout(ps: seq<Phrase>)
    ensures forall k :: 0 <= k < |ps| ==>
              Offset(ps, k) + |ps[k].text| <= |PlainText(ps)|
              && PlainText(ps)[Offset(ps, k)..Offset(ps, k) + |ps[k].text|] == ps[k].text
  {
    forall k | 0 <= k < |ps|
      ensures Offset(ps, k) + |ps[k].text| <= |PlainText(ps)|
      ensures PlainText(ps)[Offset(ps, k)..Offset(ps, k) + |ps[k].text|] == ps[k].text
    {
      PhraseAtOffset(ps, k);
    }
  }

  /** The sum of the phrase lengths is the length of the plain text. */
  lemma LengthInvariant(ps: seq<Phrase>)
    ensures Offset(ps, |ps|) == |PlainText(ps)|
  {
    OffsetIsPrefixLength(ps, |ps|);
    assert ps[..|ps|] == ps;
  }
}
