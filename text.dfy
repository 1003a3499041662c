/** The parts of Python's `str` methods the sheet code relies on: `strip()`, `lower()`
    and single-character `replace`. */
module Text {

  /** Python's `str.isspace()` for one character. */
  predicate IsSpace(c: char) {
    || '\t' <= c <= '\r'
    || '\U{1C}' <= c <= ' '
    || c == '\U{85}' || c == '\U{A0}' || c == '\U{1680}'
    || '\U{2000}' <= c <= '\U{200A}'
    || c == '\U{2028}' || c == '\U{2029}' || c == '\U{202F}' || c == '\U{205F}' || c == '\U{3000}'
  }

  /** Neither end of `s` is whitespace. */
  predicate Trimmed(s: string) {
    s == [] || (!IsSpace(s[0]) && !IsSpace(s[|s| - 1]))
  }

  /** `s.lstrip()`. */
  function StripStart(s: string): (r: string)
    ensures |r| <= |s| && r == s[|s| - |r|..]
    ensures r == [] || !IsSpace(r[0])
    ensures forall i :: 0 <= i < |s| - |r| ==> IsSpace(s[i])
  {
    if s != [] && IsSpace(s[0]) then StripStart(s[1..]) else s
  }

  /** `s.rstrip()`. */
  function StripEnd(s: string): (r: string)
    ensures |r| <= |s| && r == s[..|r|]
    ensures r == [] || !IsSpace(r[|r| - 1])
    ensures forall i :: |r| <= i < |s| ==> IsSpace(s[i])
  {
    if s != [] && IsSpace(s[|s| - 1]) then StripEnd(s[..|s| - 1]) else s
  }

  /** `s.strip()`: neither end of the result is whitespace, and (StripAround) exactly
      the leading and trailing whitespace is removed. */
  function Strip(s: string): (r: string)
    ensures Trimmed(r)
    ensures |r| <= |s|
  {
    StripEnd(StripStart(s))
  }

  /** All characters of `pad` are whitespace. */
  predicate AllSpace(pad: string) {
    forall i :: 0 <= i < |pad| ==> IsSpace(pad[i])
  }

  lemma {:induction false} StripStartAround(pad: string, t: string)
    requires AllSpace(pad) && (t == [] || !IsSpace(t[0]))
    ensures StripStart(pad + t) == t
  {
    if pad != [] {
      assert (pad + t)[0] == pad[0];
      assert (pad + t)[1..] == pad[1..] + t;
      StripStartAround(pad[1..], t);
    }
  }

  lemma {:induction false} StripEndAround(t: string, pad: string)
    requires AllSpace(pad) && (t == [] || !IsSpace(t[|t| - 1]))
    ensures StripEnd(t + pad) == t
  {
    if pad != [] {
      var n := |pad| - 1;
      assert (t + pad)[|t + pad| - 1] == pad[n];
      assert (t + pad)[..|t + pad| - 1] == t + pad[..n];
      StripEndAround(t, pad[..n]);
    }
  }

  /** Whitespace on either side of a string whose ends are not whitespace is exactly
      what `strip()` removes. */
  lemma StripAround(before: string, t: string, after: string)
    requires AllSpace(before) && AllSpace(after) && Trimmed(t)
    ensures Strip(before + t + after) == t
  {
    assert before + t + after == before + (t + after);
    if t == [] {
      assert AllSpace(before + after);
      StripStartAround(before + after, []);
      assert before + after + [] == before + after;
    } else {
      assert (t + after)[0] == t[0];
      StripStartAround(before, t + after);
      StripEndAround(t, after);
    }
  }

  /** Stripping a string whose ends are not whitespace changes nothing; in particular
      `strip()` is idempotent. */
  lemma StripTrimmed(s: string)
    requires Trimmed(s)
    ensures Strip(s) == s
  {
    StripAround([], s, []);
    assert [] + s + [] == s;
  }

  /** Python's `str.lower()` for one character, on the ASCII and Cyrillic letters. */
  function LowerChar(c: char): char {
    if 'A' <= c <= 'Z' then (c as int + 32) as char
    else if '\U{410}' <= c <= '\U{42F}' then (c as int + 32) as char
    else if '\U{400}' <= c <= '\U{40F}' then (c as int + 80) as char
    else c
  }

  /** Lowering neither creates nor removes whitespace, and never yields a space. */
  lemma LowerCharSpace(c: char)
    ensures IsSpace(LowerChar(c)) <==> IsSpace(c)
    ensures LowerChar(c) == ' ' <==> c == ' '
  {
  }

  /** Lowering twice is lowering once. */
  lemma LowerCharIdempotent(c: char)
    ensures LowerChar(LowerChar(c)) == LowerChar(c)
  {
  }

  /** `s.lower()`. */
  function Lower(s: string): (r: string)
    ensures |r| == |s| && forall i :: 0 <= i < |s| ==> r[i] == LowerChar(s[i])
  {
    seq(|s|, i requires 0 <= i < |s| => LowerChar(s[i]))
  }

  /** A string of lower-case characters is its own lower-case form. */
  lemma LowerFixed(s: string)
    requires forall i :: 0 <= i < |s| ==> LowerChar(s[i]) == s[i]
    ensures Lower(s) == s
  {
  }

  /** `s.replace(a, b)` for single characters `a` and `b`. */
  function ReplaceChar(s: string, a: char, b: char): (r: string)
    ensures |r| == |s| && forall i :: 0 <= i < |s| ==> r[i] == if s[i] == a then b else s[i]
  {
    seq(|s|, i requires 0 <= i < |s| => if s[i] == a then b else s[i])
  }

  /** Replacing a character that does not occur changes nothing. */
  lemma ReplaceAbsent(s: string, a: char, b: char)
    requires a !in s
    ensures ReplaceChar(s, a, b) == s
  {
  }
}
