/**
 * The handful of Python string operations the analyzers rely on: `sub in s`,
 * `s.startswith(p)`, `s.strip()` and `s.upper()`.
 */
module Text {

  /** `s.startswith(p)` */
  predicate StartsWith(s: string, p: string) {
    |p| <= |s| && s[..|p|] == p
  }

  /** Python's `sub in s`, scanning from the left. */
  predicate Contains(s: string, sub: string)
    decreases |s|
  {
    StartsWith(s, sub) || (|s| > 0 && Contains(s[1..], sub))
  }

  /** Substring occurrence at position `i`. */
  ghost predicate OccursAt(s: string, sub: string, i: int) {
    0 <= i && i + |sub| <= |s| && s[i..i + |sub|] == sub
  }

  /** An occurrence at position `i` is found by the left-to-right scan. */
  lemma {:induction false} OccurrenceIsFound(s: string, sub: string, i: int)
    requires OccursAt(s, sub, i)
    ensures Contains(s, sub)
    decreases i
  {
    if i == 0 {
      assert s[..|sub|] == sub;
    } else {
      assert s[1..][i - 1..i - 1 + |sub|] == s[i..i + |sub|];
      OccurrenceIsFound(s[1..], sub, i - 1);
    }
  }

  /** A successful scan names an occurrence. */
  lemma {:induction false} FoundIsOccurrence(s: string, sub: string)
    requires Contains(s, sub)
    ensures exists i :: OccursAt(s, sub, i)
    decreases |s|
  {
    if StartsWith(s, sub) {
      assert OccursAt(s, sub, 0);
    } else {
      FoundIsOccurrence(s[1..], sub);
      var i :| OccursAt(s[1..], sub, i);
      assert s[i + 1..i + 1 + |sub|] == s[1..][i..i + |sub|];
      assert OccursAt(s, sub, i + 1);
    }
  }

  /** `Contains` is exactly "occurs at some position". */
  lemma ContainsIff(s: string, sub: string)
    ensures Contains(s, sub) <==> exists i :: OccursAt(s, sub, i)
  {
    if Contains(s, sub) {
      FoundIsOccurrence(s, sub);
    }
    forall i | OccursAt(s, sub, i) ensures Contains(s, sub) {
      OccurrenceIsFound(s, sub, i);
    }
  }

  /** The characters for which Python's `str.isspace()` holds, that is, what `strip()` removes. */
  predicate IsSpace(c: char) {
    c == ' ' || ('\t' <= c <= '\r') || ('\U{1c}' <= c <= '\U{1f}') || c == '\U{85}' || c == '\U{a0}'
    || c == '\U{1680}' || ('\U{2000}' <= c <= '\U{200a}') || c == '\U{2028}' || c == '\U{2029}'
    || c == '\U{202f}' || c == '\U{205f}' || c == '\U{3000}'
  }

  function StripLeft(s: string): (r: string)
    ensures |r| <= |s| && r == s[|s| - |r|..]
    ensures r != [] ==> !IsSpace(r[0])
    ensures forall i :: 0 <= i < |s| - |r| ==> IsSpace(s[i])
  {
    if s != [] && IsSpace(s[0]) then StripLeft(s[1..]) else s
  }

  function StripRight(s: string): (r: string)
    ensures |r| <= |s| && r == s[..|r|]
    ensures r != [] ==> !IsSpace(r[|r| - 1])
    ensures forall i :: |r| <= i < |s| ==> IsSpace(s[i])
  {
    if s != [] && IsSpace(s[|s| - 1]) then StripRight(s[..|s| - 1]) else s
  }

  /** `s.strip()`: the slice left once leading and trailing white space is removed. */
  function Strip(s: string): (r: string)
    ensures r != [] ==> !IsSpace(r[0]) && !IsSpace(r[|r| - 1])
    ensures |r| <= |s|
    ensures exists a, b :: 0 <= a <= b <= |s| && r == s[a..b] && IsStripWithin(s, 0, |s|, a, b)
  {
    assert s[0..|s|] == s;
    StripOfSlice(s, 0, |s|);
    StripRight(StripLeft(s))
  }

  /** Within `s[lo..hi]`, only white space lies before `a` and from `b` on. */
  predicate IsStripWithin(s: string, lo: nat, hi: nat, a: nat, b: nat)
    requires lo <= a <= b <= hi <= |s|
  {
    (forall i :: lo <= i < a ==> IsSpace(s[i])) && (forall i :: b <= i < hi ==> IsSpace(s[i]))
  }

  /** Stripping a slice leaves a slice of the whole text, with only white space cut from either end. */
  lemma StripOfSlice(s: string, lo: nat, hi: nat)
    requires lo <= hi <= |s|
    ensures exists a, b :: lo <= a <= b <= hi && StripRight(StripLeft(s[lo..hi])) == s[a..b] &&
              IsStripWithin(s, lo, hi, a, b)
  {
    var left := StripLeft(s[lo..hi]);
    var r := StripRight(left);
    TrimmedSlice(s, lo, hi, left, r);
  }

  /**
   * If `left` is `s[lo..hi]` with white space dropped at the front, and `r` is
   * `left` with white space dropped at the back, then `r` is a slice of `s`
   * with only white space around it inside `[lo, hi)`.
   */
  lemma TrimmedSlice(s: string, lo: nat, hi: nat, left: string, r: string)
    requires lo <= hi <= |s| && |left| <= hi - lo && |r| <= |left|
    requires left == s[lo..hi][hi - lo - |left|..]
    requires forall i :: 0 <= i < hi - lo - |left| ==> IsSpace(s[lo..hi][i])
    requires r == left[..|r|]
    requires forall i :: |r| <= i < |left| ==> IsSpace(left[i])
    ensures r == s[hi - |left|..hi - |left| + |r|]
    ensures IsStripWithin(s, lo, hi, hi - |left|, hi - |left| + |r|)
  {
    var a := hi - |left|;
    assert left == s[a..hi];
    forall i | lo <= i < a ensures IsSpace(s[i]) {
      assert s[i] == s[lo..hi][i - lo];
    }
    forall i | a + |r| <= i < hi ensures IsSpace(s[i]) {
      assert s[i] == left[i - a];
    }
  }

  /** `c.upper()` for ASCII letters; every other character is left unchanged. */
  function UpperChar(c: char): char {
    if 'a' <= c <= 'z' then (c as int - 32) as char else c
  }

  /** `s.upper()` restricted to ASCII letters. */
  function Upper(s: string): (r: string)
    ensures |r| == |s|
    ensures forall i :: 0 <= i < |s| ==> r[i] == UpperChar(s[i])
  {
    if s == [] then [] else [UpperChar(s[0])] + Upper(s[1..])
  }
}
