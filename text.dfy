/** The string operations the store relies on: Python's `str.strip()` and `str.lower()`. */
module Text {

  /** Python's `str.isspace()` for one character: the characters `str.strip()` removes. */
  predicate IsSpace(c: char) {
    ('\t' <= c <= '\r') || ('\U{1C}' <= c <= '\U{1F}') || c == ' '
    || c == '\U{85}' || c == '\U{A0}' || c == '\U{1680}' || ('\U{2000}' <= c <= '\U{200A}')
    || c == '\U{2028}' || c == '\U{2029}' || c == '\U{202F}' || c == '\U{205F}' || c == '\U{3000}'
  }

  /** Neither end of `s` is whitespace. */
  predicate Stripped(s: string) {
    s == [] || (!IsSpace(s[0]) && !IsSpace(s[|s| - 1]))
  }

  /** `s.strip()`: whitespace is removed from both ends until neither end is
      whitespace. */
  function Strip(s: string): string {
    if s != [] && IsSpace(s[0]) then Strip(s[1..])
    else if s != [] && IsSpace(s[|s| - 1]) then Strip(s[..|s| - 1])
    else s
  }

  /** The result of `Strip` has no whitespace at either end. */
  lemma {:induction false} StripStripped(s: string)
    ensures Stripped(Strip(s))
  {
    if s != [] && IsSpace(s[0]) {
      StripStripped(s[1..]);
    } else if s != [] && IsSpace(s[|s| - 1]) {
      StripStripped(s[..|s| - 1]);
    }
  }

  /** `Strip` changes a string exactly when one of its ends is whitespace; in
      particular stripping twice is stripping once. */
  lemma StripFixes(s: string)
    ensures Strip(s) == s <==> Stripped(s)
  {
    StripStripped(s);
  }

  /** What `Strip` removes is whitespace at the two ends: the result is an infix
      of the input and everything outside it is whitespace. */
  lemma {:induction false} StripBounds(s: string) returns (lo: nat, hi: nat)
    ensures lo <= hi <= |s| && Strip(s) == s[lo..hi]
    ensures forall i :: 0 <= i < lo ==> IsSpace(s[i])
    ensures forall i :: hi <= i < |s| ==> IsSpace(s[i])
  {
    if s != [] && IsSpace(s[0]) {
      var l, h := StripBounds(s[1..]);
      lo, hi := l + 1, h + 1;
      assert s[1..][l..h] == s[lo..hi];
      forall i | hi <= i < |s| ensures IsSpace(s[i]) {
        assert s[i] == s[1..][i - 1];
      }
    } else if s != [] && IsSpace(s[|s| - 1]) {
      lo, hi := StripBounds(s[..|s| - 1]);
      assert s[..|s| - 1][lo..hi] == s[lo..hi];
    } else {
      lo, hi := 0, |s|;
    }
  }

  /** Python's `str.lower()` on one character, ASCII letters only. */
  function LowerChar(c: char): char {
    if 'A' <= c <= 'Z' then (c as int + 32) as char else c
  }

  /** `s.lower()` as far as ASCII letters go: every capital becomes the small letter
      at the same place in the alphabet, no capital is left, and every other
      character is kept. */
  function Lower(s: string): (r: string)
    ensures |r| == |s|
    ensures forall i :: 0 <= i < |r| ==> !('A' <= r[i] <= 'Z')
    ensures forall i :: 0 <= i < |s| && 'A' <= s[i] <= 'Z' ==>
      r[i] == "abcdefghijklmnopqrstuvwxyz"[s[i] as int - 'A' as int]
    ensures forall i :: 0 <= i < |s| && !('A' <= s[i] <= 'Z') ==> r[i] == s[i]
  {
    seq(|s|, i requires 0 <= i < |s| => LowerChar(s[i]))
  }
}
