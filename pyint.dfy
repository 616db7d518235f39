/** Python's `int()` applied to a string, as the dashboard uses it, and `str()` of an
    integer as its inverse. */
module PyInt {
  import opened Wrappers
  import opened Text

  predicate IsDigit(c: char) {
    '0' <= c <= '9'
  }

  predicate AllDigits(s: string) {
    forall i :: 0 <= i < |s| ==> IsDigit(s[i])
  }

  /** The value of a run of decimal digits, read most significant first. */
  function DigitsValue(s: string): nat
    requires AllDigits(s)
  {
    if s == [] then 0 else DigitsValue(s[..|s| - 1]) * 10 + (s[|s| - 1] as int - '0' as int)
  }

  /** `int(s)`: surrounding whitespace is ignored, then an optional `+` or `-` and at
      least one decimal digit must make up the rest; anything else is a `ValueError`,
      here `None`. A blank string never parses, and a parsed text consists of digits
      after at most one leading sign and ends in a digit, so a lone sign fails. */
  function ParseInt(s: string): (r: Option<int>)
    ensures Strip(s) == [] ==> r == None
    ensures r.Some? ==>
      var t := Strip(s);
      t != [] && IsDigit(t[|t| - 1])
      && forall i :: 0 <= i < |t| ==> IsDigit(t[i]) || (i == 0 && t[0] in "+-")
  {
    var t := Strip(s);
    var signed := t != [] && (t[0] == '+' || t[0] == '-');
    var digits := if signed then t[1..] else t;
    if digits != [] && AllDigits(digits) then
      var n: int := DigitsValue(digits);
      assert forall i :: 0 <= i < |t| ==> IsDigit(t[i]) || (i == 0 && signed) by {
        forall i | 0 <= i < |t| && !(i == 0 && signed) ensures IsDigit(t[i]) {
          assert signed ==> t[i] == digits[i - 1];
        }
      }
      Some(if signed && t[0] == '-' then -n else n)
    else
      None
  }

  function DigitChar(d: nat): char
    requires d < 10
  {
    ('0' as int + d) as char
  }

  /** The decimal digits of `n` without leading zeros, as `str(n)` writes them. */
  function Digits(n: nat): (s: string)
    ensures s != [] && AllDigits(s)
    ensures |s| > 1 ==> s[0] != '0'
  {
    if n < 10 then [DigitChar(n)] else Digits(n / 10) + [DigitChar(n % 10)]
  }

  /** `str(n)` for an integer. */
  function Show(n: int): string {
    if n < 0 then "-" + Digits(-n) else Digits(n)
  }

  lemma {:induction false} DigitsValueOfDigits(n: nat)
    ensures DigitsValue(Digits(n)) == n
  {
    if n >= 10 {
      DigitsValueOfDigits(n / 10);
      var s := Digits(n);
      assert s[..|s| - 1] == Digits(n / 10);
    }
  }

  /** `int(str(n)) == n`: every integer the application stores as text reads back
      as itself. */
  lemma ParseShow(n: int)
    ensures ParseInt(Show(n)) == Some(n)
  {
    var s := Show(n);
    assert Stripped(s);
    StripFixes(s);
    DigitsValueOfDigits(if n < 0 then -n else n);
    if n < 0 {
      assert s[1..] == Digits(-n);
    }
  }

  /** An optionally signed run of decimal digits has no whitespace to strip. */
  lemma SignedDigitsStripped(sign: string, d: string)
    requires sign in ["", "+", "-"] && d != [] && AllDigits(d)
    ensures Strip(sign + d) == sign + d
  {
    var t := sign + d;
    assert !IsSpace(t[0]) by {
      assert t[0] == if sign == "" then d[0] else sign[0];
    }
    assert !IsSpace(t[|t| - 1]) by {
      assert t[|t| - 1] == d[|d| - 1];
    }
    StripFixes(t);
  }

  /** Every text that strips to an optionally signed run of decimal digits parses, to
      the value of its digits with the sign applied: surrounding whitespace, leading
      zeros and a `+` are allowed, as `int(" 5 ")`, `int("007")` and `int("+5")` show. */
  lemma ParseSignedDigits(s: string, sign: string, d: string)
    requires sign in ["", "+", "-"] && d != [] && AllDigits(d)
    requires Strip(s) == sign + d
    ensures ParseInt(s)
      == Some(if sign == "-" then -(DigitsValue(d) as int) else DigitsValue(d) as int)
  {
    var t := sign + d;
    if sign == "" {
      assert t == d;
      assert !(t[0] == '+' || t[0] == '-') by {
        assert t[0] == d[0] && IsDigit(d[0]);
      }
    } else {
      assert t[0] == sign[0];
      assert t[1..] == d;
    }
  }
}
