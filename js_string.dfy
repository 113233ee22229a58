/** The few ECMAScript string operations the note widget relies on, over
    strings of Unicode scalar values (JavaScript's UTF-16 code units are not
    modelled). */
module JsString {

  function Min(a: int, b: int): int { if a <= b then a else b }

  function Max(a: int, b: int): int { if a <= b then b else a }

  /** `s.substr(start, length)` (ECMA-262 Annex B, B.2.2.1): a negative start
      counts from the end of the string, a length of zero or less gives the
      empty string, and the slice is cut at the end of the string. */
  function JsSubstr(s: string, start: int, length: int): (r: string)
    ensures |r| <= |s|
    ensures length <= 0 ==> r == []
    ensures |s| <= start ==> r == []
    ensures 0 <= start <= |s| && 0 <= length ==> r == s[start..Min(start + length, |s|)]
    ensures start < 0 && 0 <= length ==> r == s[Max(|s| + start, 0)..Min(Max(|s| + start, 0) + length, |s|)]
  {
    var from := if start < 0 then Max(|s| + start, 0) else Min(start, |s|);
    var len := Min(Max(length, 0), |s| - from);
    s[from..from + len]
  }

  /** `s.substr(start)`: the length argument is absent, so everything from
      `start` to the end. */
  function JsSubstrFrom(s: string, start: int): (r: string)
    ensures 0 <= start <= |s| ==> r == s[start..]
    ensures start < 0 ==> r == s[Max(|s| + start, 0)..]
    ensures start > |s| ==> r == []
  {
    JsSubstr(s, start, |s|)
  }

  /** `s.substring(a, b)`: both arguments are clamped to the string and
      swapped when the first is larger. */
  function JsSubstring(s: string, a: int, b: int): (r: string)
    ensures 0 <= a <= b <= |s| ==> r == s[a..b]
    ensures |r| <= |s|
  {
    var fa := Min(Max(a, 0), |s|);
    var fb := Min(Max(b, 0), |s|);
    s[Min(fa, fb)..Max(fa, fb)]
  }

  /** `substring` does not care about the order of its arguments. */
  lemma SubstringSymmetric(s: string, a: int, b: int)
    ensures JsSubstring(s, a, b) == JsSubstring(s, b, a)
  {
  }

  /** Splitting a string at an offset with `substr` loses nothing. */
  lemma SubstrSplit(s: string, k: int)
    requires 0 <= k <= |s|
    ensures JsSubstr(s, 0, k) + JsSubstrFrom(s, k) == s
  {
    assert s[..k] + s[k..] == s;
  }

  /** Cutting `a + t + b` inside `t`. */
  lemma SliceAround(a: string, t: string, b: string, off: nat)
    requires off <= |t|
    ensures (a + t + b)[..|a| + off] == a + t[..off]
    ensures (a + t + b)[|a| + off..] == t[off..] + b
  {
    assert a + t + b == (a + t[..off]) + (t[off..] + b);
  }

  /** Splicing `x` into `t` at `off` splices it into `a + t + b` at
      `|a| + off`. */
  lemma SpliceAround(a: string, t: string, b: string, off: nat, x: string)
    requires off <= |t|
    ensures var whole := a + t + b;
            a + (t[..off] + x + t[off..]) + b == whole[..|a| + off] + x + whole[|a| + off..]
  {
    SliceAround(a, t, b, off);
  }

  /** The same splice seen from the joined text `p == a + t + b`: the
      result `q` is `p` with `x` inserted at `start == |a| + off`. */
  lemma SpliceAt(a: string, t: string, b: string, off: nat, x: string, p: string, q: string, start: int)
    requires off <= |t| && start == |a| + off
    requires p == a + t + b && q == a + (t[..off] + x + t[off..]) + b
    ensures start <= |p| && q == p[..start] + x + p[start..]
  {
    SpliceAround(a, t, b, off, x);
  }

  /** Cutting `[off, off + len)` out of `t` cuts `[|a| + off, |a| + off +
      len)` out of `a + t + b`. */
  lemma CutAround(a: string, t: string, b: string, off: nat, len: nat)
    requires off + len <= |t|
    ensures var whole := a + t + b;
            a + (t[..off] + t[off + len..]) + b == whole[..|a| + off] + whole[|a| + off + len..]
  {
    SliceAround(a, t, b, off);
    SliceAround(a, t, b, off + len);
  }

  /** The same cut seen from the joined text `p == a + t + b`: the result
      `q` is `p` without `[start, start + len)`, where `start == |a| +
      off`. */
  lemma CutAt(a: string, t: string, b: string, off: nat, len: nat, p: string, q: string, start: int)
    requires off + len <= |t| && start == |a| + off
    requires p == a + t + b && q == a + (t[..off] + t[off + len..]) + b
    ensures 0 <= start && start + len <= |p| && q == p[..start] + p[start + len..]
  {
    CutAround(a, t, b, off, len);
  }

  /** Cutting `[start, start + length)` out of `p == t + q` where the cut
      starts inside `t`: `r` is what `t` keeps after losing `cut`
      characters, followed by what `q` keeps. */
  lemma CutFromHead(t: string, q: string, start: nat, length: nat, cut: nat, p: string, r: string)
    requires start < |t| && start + length <= |t| + |q| && p == t + q
    requires cut == Min(length, |t| - start)
    requires r == (t[..start] + t[start + cut..]) + q[length - cut..]
    ensures start + length <= |p| && r == p[..start] + p[start + length..]
  {
    assert p[..start] == t[..start];
    if length <= |t| - start {
      assert p[start + length..] == t[start + length..] + q;
    } else {
      assert p[start + length..] == q[length - cut..];
      assert t[start + cut..] == [];
    }
  }

  /** Cutting `[start, start + length)` out of `p == t + q` where the cut
      starts at or after the end of `t`: `t` is kept whole. */
  lemma CutFromTail(t: string, q: string, start: nat, length: nat, p: string, r: string)
    requires |t| <= start && start + length <= |t| + |q| && p == t + q
    requires r == t + (q[..start - |t|] + q[start - |t| + length..])
    ensures start + length <= |p| && r == p[..start] + p[start + length..]
  {
    assert p[..start] == t + q[..start - |t|];
    assert p[start + length..] == q[start - |t| + length..];
  }

  /** Two adjacent slices of `s` join into one: `w == s[a..e]` is `x ==
      s[a..b]` followed by `y == s[b..e]`. */
  lemma SliceJoin(s: string, a: nat, b: nat, e: nat, w: string, x: string, y: string)
    requires a <= b <= e <= |s|
    requires w == s[a..e] && x == s[a..b] && y == s[b..e]
    ensures w == x + y
  {
    assert s[a..e] == s[a..b] + s[b..e];
  }

  /** A prefix of the second part of a concatenation extends the first. */
  lemma PrefixThrough(a: string, b: string, x: string)
    requires |x| <= |b| && b[..|x|] == x
    ensures |a + b| >= |a| + |x| && (a + b)[..|a| + |x|] == a + x
  {
    assert (a + b)[..|a| + |x|] == a + b[..|x|];
  }

  /** The characters JavaScript's `\s` class matches: the WhiteSpace and
      LineTerminator productions of ECMA-262 (section 11.2 and 11.3 of the
      2015 edition), that is TAB, VT, FF, SP, NBSP, ZWNBSP, every Zs
      character, LF, CR, LS and PS. */
  const SpaceChars: set<char> :=
    {'\t', '\n', '\U{000B}', '\U{000C}', '\r', ' ', '\U{00A0}', '\U{1680}',
     '\U{2000}', '\U{2001}', '\U{2002}', '\U{2003}', '\U{2004}', '\U{2005}',
     '\U{2006}', '\U{2007}', '\U{2008}', '\U{2009}', '\U{200A}',
     '\U{2028}', '\U{2029}', '\U{202F}', '\U{205F}', '\U{3000}', '\U{FEFF}'}

  predicate IsSpace(c: char)
  {
    c in SpaceChars
  }
}
