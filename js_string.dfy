/**
 * The three JavaScript string built-ins the filter relies on:
 * `String.prototype.trim`, `String.prototype.toLowerCase` and
 * `String.prototype.includes`. Strings are sequences of Unicode scalar values.
 */
module JsString {

  /** White space as `trim` strips it: the WhiteSpace and LineTerminator
      code points of ECMA-262 (tab, vertical tab, form feed, the byte order
      mark, every space separator of category Zs, LF, CR, LS and PS). */
  predicate IsWhiteSpace(c: char)
    ensures IsWhiteSpace(c) ==> !IsUpper(c)
  {
    || c == '\t' || c == '\n' || c == '\U{0B}' || c == '\U{0C}' || c == '\r'
    || c == ' ' || c == '\U{A0}' || c == '\U{1680}'
    || ('\U{2000}' <= c <= '\U{200A}')
    || c == '\U{2028}' || c == '\U{2029}' || c == '\U{202F}' || c == '\U{205F}'
    || c == '\U{3000}' || c == '\U{FEFF}'
  }

  /** Within ASCII, `trim` strips exactly space, tab, LF, CR, vertical tab
      and form feed. */
  lemma AsciiWhiteSpace(c: char)
    requires c <= '\U{7F}'
    ensures IsWhiteSpace(c) <==> c in " \t\n\r\U{0B}\U{0C}"
  {
  }

  /** Leading white space removed: the result is a suffix of `s`, everything
      dropped is white space, and the result does not start with white space. */
  function TrimStart(s: string): (r: string)
    ensures |r| <= |s| && SliceAt(s, r, |s| - |r|)
    ensures forall i :: 0 <= i < |s| - |r| ==> IsWhiteSpace(s[i])
    ensures r == [] || !IsWhiteSpace(r[0])
  {
    if |s| > 0 && IsWhiteSpace(s[0]) then
      SliceAtTrans(s, s[1..], TrimStart(s[1..]), 1, |s| - 1 - |TrimStart(s[1..])|);
      TrimStart(s[1..])
    else
      s
  }

  /** Trailing white space removed: the result is a prefix of `s`, everything
      dropped is white space, and the result does not end with white space. */
  function TrimEnd(s: string): (r: string)
    ensures |r| <= |s| && SliceAt(s, r, 0)
    ensures forall i :: |r| <= i < |s| ==> IsWhiteSpace(s[i])
    ensures r == [] || !IsWhiteSpace(r[|r| - 1])
  {
    if |s| > 0 && IsWhiteSpace(s[|s| - 1]) then
      SliceAtTrans(s, s[..|s| - 1], TrimEnd(s[..|s| - 1]), 0, 0);
      TrimEnd(s[..|s| - 1])
    else
      s
  }

  /** `s.trim()`: the slice of `s` left once white space is stripped from both ends. */
  function Trim(s: string): (r: string)
    ensures exists lo :: TrimmedAt(s, r, lo)
    ensures r == [] || (!IsWhiteSpace(r[0]) && !IsWhiteSpace(r[|r| - 1]))
  {
    TrimStartThenEnd(s);
    TrimEnd(TrimStart(s))
  }

  /** Trimming the start and then the end leaves a slice with only white
      space around it. */
  lemma TrimStartThenEnd(s: string)
    ensures TrimmedAt(s, TrimEnd(TrimStart(s)), |s| - |TrimStart(s)|)
  {
    var t := TrimStart(s);
    var r := TrimEnd(t);
    var lo := |s| - |t|;
    SliceAtTrans(s, t, r, lo, 0);
    forall i | lo + |r| <= i < |s|
      ensures IsWhiteSpace(s[i])
    {
      assert s[i] == t[i - lo];
    }
  }

  /** `r` is the slice `s[lo..lo + |r|]`, stated character by character. */
  ghost predicate SliceAt(s: string, r: string, lo: int) {
    && 0 <= lo && lo + |r| <= |s|
    && forall i :: 0 <= i < |r| ==> r[i] == s[lo + i]
  }

  /** A slice of a slice is a slice. */
  lemma SliceAtTrans(s: string, t: string, r: string, a: int, b: int)
    requires SliceAt(s, t, a) && SliceAt(t, r, b)
    ensures SliceAt(s, r, a + b)
  {
  }

  /** `r` is `s[lo..lo + |r|]` and everything of `s` around that slice is white space. */
  ghost predicate TrimmedAt(s: string, r: string, lo: int) {
    && SliceAt(s, r, lo)
    && (forall i :: 0 <= i < lo ==> IsWhiteSpace(s[i]))
    && (forall i :: lo + |r| <= i < |s| ==> IsWhiteSpace(s[i]))
  }

  /** The upper-case letters whose lower-case mapping is modelled: Latin A-Z,
      the Latin-1 capitals U+00C0-U+00DE (except the multiplication sign) and
      the basic Cyrillic capitals U+0400-U+042F. */
  predicate IsUpper(c: char) {
    || ('A' <= c <= 'Z')
    || ('\U{C0}' <= c <= '\U{DE}' && c != '\U{D7}')
    || ('\U{400}' <= c <= '\U{42F}')
  }

  /** The lower-case mapping of one character. */
  function LowerChar(c: char): (d: char)
    ensures !IsUpper(d)
    ensures !IsUpper(c) ==> d == c
    ensures IsWhiteSpace(d) <==> IsWhiteSpace(c)
  {
    if 'A' <= c <= 'Z' then (c as int + 32) as char
    else if '\U{C0}' <= c <= '\U{DE}' && c != '\U{D7}' then (c as int + 32) as char
    else if '\U{410}' <= c <= '\U{42F}' then (c as int + 32) as char
    else if '\U{400}' <= c <= '\U{40F}' then (c as int + 80) as char
    else c
  }

  /** `s.toLowerCase()`: character by character, and no upper-case letter is left. */
  function ToLower(s: string): (r: string)
    ensures |r| == |s|
    ensures forall i :: 0 <= i < |s| ==> r[i] == LowerChar(s[i])
    ensures forall i :: 0 <= i < |r| ==> !IsUpper(r[i])
  {
    seq(|s|, i requires 0 <= i < |s| => LowerChar(s[i]))
  }

  /** Lower-casing a second time changes nothing. */
  lemma ToLowerIdempotent(s: string)
    ensures ToLower(ToLower(s)) == ToLower(s)
  {
  }

  /** Lower-casing does not move white space, so it commutes with `trim`. */
  lemma {:induction false} TrimStartToLower(s: string)
    ensures TrimStart(ToLower(s)) == ToLower(TrimStart(s))
  {
    if |s| > 0 && IsWhiteSpace(s[0]) {
      assert ToLower(s)[1..] == ToLower(s[1..]);
      TrimStartToLower(s[1..]);
    }
  }

  lemma {:induction false} TrimEndToLower(s: string)
    ensures TrimEnd(ToLower(s)) == ToLower(TrimEnd(s))
  {
    if |s| > 0 && IsWhiteSpace(s[|s| - 1]) {
      assert ToLower(s)[..|s| - 1] == ToLower(s[..|s| - 1]);
      TrimEndToLower(s[..|s| - 1]);
    }
  }

  lemma TrimToLower(s: string)
    ensures Trim(ToLower(s)) == ToLower(Trim(s))
  {
    TrimStartToLower(s);
    TrimEndToLower(TrimStart(s));
  }

  /** A string that neither starts nor ends with white space is its own trim. */
  lemma TrimNoWhiteSpaceEnds(s: string)
    requires s != [] && !IsWhiteSpace(s[0]) && !IsWhiteSpace(s[|s| - 1])
    ensures Trim(s) == s
  {
  }

  /** `trim` is idempotent. */
  lemma TrimIdempotent(s: string)
    ensures Trim(Trim(s)) == Trim(s)
  {
    if Trim(s) != [] {
      TrimNoWhiteSpaceEnds(Trim(s));
    }
  }

  /** A string made of white space only trims to the empty string. */
  lemma AllWhiteSpaceTrimsToEmpty(s: string)
    requires forall i :: 0 <= i < |s| ==> IsWhiteSpace(s[i])
    ensures Trim(s) == []
  {
  }

  predicate StartsWith(s: string, prefix: string) {
    |prefix| <= |s| && s[..|prefix|] == prefix
  }

  /** `s.includes(needle)`: some position of `s` starts a copy of `needle`. */
  predicate Includes(s: string, needle: string)
    ensures needle == [] ==> Includes(s, needle)
    ensures Includes(s, needle) ==> |needle| <= |s|
    decreases |s|
  {
    StartsWith(s, needle) || (|s| > 0 && Includes(s[1..], needle))
  }

  ghost predicate OccursAt(s: string, needle: string, i: int) {
    0 <= i && i + |needle| <= |s| && s[i..i + |needle|] == needle
  }

  /** `Includes` is exactly "occurs at some index". */
  lemma {:induction false} IncludesIffOccurs(s: string, needle: string)
    ensures Includes(s, needle) <==> exists i :: OccursAt(s, needle, i)
  {
    if |s| > 0 {
      IncludesIffOccurs(s[1..], needle);
    }
    if Includes(s, needle) {
      if StartsWith(s, needle) {
        assert OccursAt(s, needle, 0);
      } else {
        var i :| OccursAt(s[1..], needle, i);
        assert s[1..][i..i + |needle|] == s[i + 1..i + 1 + |needle|];
        assert OccursAt(s, needle, i + 1);
      }
    }
    forall i | OccursAt(s, needle, i) ensures Includes(s, needle) {
      if i > 0 {
        assert s[1..][i - 1..i - 1 + |needle|] == s[i..i + |needle|];
        assert OccursAt(s[1..], needle, i - 1);
      }
    }
  }
}
