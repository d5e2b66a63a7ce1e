/**
 * Decimal numerals: `str(n)` for Python integers, zero-padded fields as
 * `strftime` writes them, and the subset of Python's `int(str)` that accepts
 * ASCII input: surrounding whitespace, an optional sign, and decimal digits
 * with single underscores between them.
 */
module Numerals {
  import opened Options

  predicate IsDigit(c: char) {
    '0' <= c <= '9'
  }

  predicate AllDigits(s: string) {
    forall i :: 0 <= i < |s| ==> IsDigit(s[i])
  }

  function DigitValue(c: char): (d: nat)
    requires IsDigit(c)
    ensures d < 10
  {
    c as int - '0' as int
  }

  function DigitChar(d: nat): (c: char)
    requires d < 10
    ensures IsDigit(c) && DigitValue(c) == d
  {
    ('0' as int + d) as char
  }

  function Pow10(k: nat): (p: nat)
    ensures p >= 1
  {
    if k == 0 then 1 else 10 * Pow10(k - 1)
  }

  /** The value of a digit string read most significant digit first; leading zeros are allowed. */
  function DigitsValue(s: string): nat
    requires AllDigits(s)
  {
    if s == [] then 0 else DigitsValue(s[..|s| - 1]) * 10 + DigitValue(s[|s| - 1])
  }

  /** `str(n)` for a non-negative integer: the shortest decimal numeral, no leading zeros. */
  function NatToString(n: nat): (s: string)
    ensures s != [] && AllDigits(s)
    ensures s[0] == '0' ==> s == "0"
    ensures |s| == 1 <==> n < 10
  {
    if n < 10 then [DigitChar(n)] else NatToString(n / 10) + [DigitChar(n % 10)]
  }

  /** `str(i)` for any Python integer. */
  function IntToString(i: int): (s: string)
    ensures s != [] && (s[0] == '-' <==> i < 0)
    ensures i < 0 ==> s[1..] == NatToString(-i)
    ensures i >= 0 ==> s == NatToString(i)
  {
    if i < 0 then "-" + NatToString(-i) else NatToString(i)
  }

  /** A digit string holds no character other than digits. */
  lemma AllDigitsExclude(s: string, c: char)
    requires AllDigits(s) && !IsDigit(c)
    ensures c !in s
  {
    forall k | 0 <= k < |s| ensures s[k] != c {
      assert IsDigit(s[k]);
    }
  }

  /** `str(i)` holds only digits and a leading minus sign. */
  lemma IntToStringExclude(i: int, c: char)
    requires !IsDigit(c) && c != '-'
    ensures c !in IntToString(i)
  {
    var s := IntToString(i);
    if i < 0 {
      var digits := NatToString(-i);
      assert s == "-" + digits;
      forall k | 0 <= k < |s| ensures s[k] != c {
        if k > 0 {
          assert s[k] == digits[k - 1];
        }
      }
    } else {
      AllDigitsExclude(s, c);
    }
  }

  function Zeros(k: nat): (z: string)
    ensures |z| == k && AllDigits(z)
    ensures forall i :: 0 <= i < k ==> z[i] == '0'
  {
    if k == 0 then "" else Zeros(k - 1) + "0"
  }

  /** `n` written with at least `width` digits, left-padded with zeros (`%02d`, `%Y`). */
  function ZeroPad(n: nat, width: nat): (s: string)
    ensures AllDigits(s)
  {
    var digits := NatToString(n);
    if |digits| >= width then digits else Zeros(width - |digits|) + digits
  }

  lemma {:induction false} DigitsValueOfNatToString(n: nat)
    ensures DigitsValue(NatToString(n)) == n
  {
    if n >= 10 {
      var s := NatToString(n);
      assert s[..|s| - 1] == NatToString(n / 10);
      DigitsValueOfNatToString(n / 10);
    }
  }

  lemma {:induction false} NatToStringLength(n: nat, k: nat)
    requires n < Pow10(k)
    ensures |NatToString(n)| <= k || (n == 0 && k == 0)
  {
    assert Pow10(0) == 1 && Pow10(1) == 10;
    if n >= 10 {
      assert n / 10 < Pow10(k - 1);
      NatToStringLength(n / 10, k - 1);
    }
  }

  lemma {:induction false} ZerosValue(k: nat)
    ensures DigitsValue(Zeros(k)) == 0
  {
    if k > 0 {
      assert Zeros(k)[..k - 1] == Zeros(k - 1);
      ZerosValue(k - 1);
    }
  }

  lemma {:induction false} LeadingZerosValue(k: nat, s: string)
    requires AllDigits(s)
    ensures DigitsValue(Zeros(k) + s) == DigitsValue(s)
  {
    if s == [] {
      assert Zeros(k) + s == Zeros(k);
      ZerosValue(k);
    } else {
      var t := Zeros(k) + s;
      assert t[..|t| - 1] == Zeros(k) + s[..|s| - 1];
      LeadingZerosValue(k, s[..|s| - 1]);
    }
  }

  /** A zero-padded field of a value below 10^width has exactly `width` digits and reads back as the value. */
  lemma ZeroPadRoundTrip(n: nat, width: nat)
    requires width > 0 && n < Pow10(width)
    ensures |ZeroPad(n, width)| == width
    ensures DigitsValue(ZeroPad(n, width)) == n
  {
    NatToStringLength(n, width);
    DigitsValueOfNatToString(n);
    var digits := NatToString(n);
    if |digits| < width {
      LeadingZerosValue(width - |digits|, digits);
    }
  }

  // ---------------------------------------------------------------------
  // int(str)

  /** The ASCII characters `str.strip()` and `int()` treat as whitespace. */
  predicate IsSpace(c: char) {
    c == ' ' || c == '\t' || c == '\n' || c == '\r' || c == '\U{000b}' || c == '\U{000c}'
    || c == '\U{001c}' || c == '\U{001d}' || c == '\U{001e}' || c == '\U{001f}'
  }

  /** The index of the first non-space character at or after `i`, or `|s|`. */
  function FirstNonSpace(s: string, i: nat): (k: nat)
    requires i <= |s|
    ensures i <= k <= |s| && (k < |s| ==> !IsSpace(s[k]))
    ensures forall j :: i <= j < k ==> IsSpace(s[j])
    decreases |s| - i
  {
    if i < |s| && IsSpace(s[i]) then FirstNonSpace(s, i + 1) else i
  }

  /** One past the last non-space character before `j`, or `0`. */
  function LastNonSpace(s: string, j: nat): (k: nat)
    requires j <= |s|
    ensures k <= j && (k > 0 ==> !IsSpace(s[k - 1]))
    ensures forall i :: k <= i < j ==> IsSpace(s[i])
  {
    if j > 0 && IsSpace(s[j - 1]) then LastNonSpace(s, j - 1) else j
  }

  /** `s.strip()`: `s` without its leading and trailing whitespace. */
  function Strip(s: string): (t: string)
    ensures t != [] ==> !IsSpace(t[0]) && !IsSpace(t[|t| - 1])
  {
    var first, last := FirstNonSpace(s, 0), LastNonSpace(s, |s|);
    if first < last then s[first..last] else []
  }

  /** Digits with single underscores between them, as Python's `int()` accepts. */
  predicate IsNumeral(b: string) {
    && |b| > 0
    && IsDigit(b[0])
    && IsDigit(b[|b| - 1])
    && (forall i :: 0 <= i < |b| ==> IsDigit(b[i]) || b[i] == '_')
    && (forall i, j :: 0 <= i < |b| && 0 <= j < |b| && j == i + 1 && b[i] == '_' ==> IsDigit(b[j]))
  }

  function RemoveUnderscores(b: string): (d: string)
    ensures forall c :: c in d <==> c in b && c != '_'
    ensures (forall i :: 0 <= i < |b| ==> IsDigit(b[i]) || b[i] == '_') ==> AllDigits(d)
  {
    if b == [] then [] else (if b[0] == '_' then [] else [b[0]]) + RemoveUnderscores(b[1..])
  }

  function NumeralValue(b: string): nat
    requires IsNumeral(b)
  {
    DigitsValue(RemoveUnderscores(b))
  }

  /**
   * Python's `int(s)` on ASCII text: `None` where it raises `ValueError`.
   * Numerals of any length are parsed: the interpreter's digit limit for
   * `int()` and `str()` is not modelled.
   */
  function ParseInt(s: string): Option<int> {
    var t := Strip(s);
    if |t| > 0 && (t[0] == '-' || t[0] == '+') then
      if IsNumeral(t[1..]) then
        var magnitude: int := NumeralValue(t[1..]);
        Some(if t[0] == '-' then -magnitude else magnitude)
      else None
    else if IsNumeral(t) then Some(NumeralValue(t))
    else None
  }

  lemma {:induction false} RemoveUnderscoresOfDigits(s: string)
    requires AllDigits(s)
    ensures RemoveUnderscores(s) == s
  {
    if s != [] {
      RemoveUnderscoresOfDigits(s[1..]);
    }
  }

  lemma StripWithoutSpace(s: string)
    requires forall k :: 0 <= k < |s| ==> !IsSpace(s[k])
    ensures Strip(s) == s
  {
    assert FirstNonSpace(s, 0) == 0 || s == [];
    assert LastNonSpace(s, |s|) == |s|;
    assert s[0..|s|] == s;
  }

  lemma NumeralOfNatToString(n: nat)
    ensures IsNumeral(NatToString(n)) && NumeralValue(NatToString(n)) == n
  {
    RemoveUnderscoresOfDigits(NatToString(n));
    DigitsValueOfNatToString(n);
  }

  /** `int(str(i)) == i`. */
  lemma {:induction false} ParseIntOfIntToString(i: int)
    ensures ParseInt(IntToString(i)) == Some(i)
  {
    if i < 0 {
      ParseIntOfNegative(i);
    } else {
      ParseIntOfNatToString(i);
    }
  }

  lemma {:induction false} ParseIntOfNegative(i: int)
    requires i < 0
    ensures ParseInt(IntToString(i)) == Some(i)
  {
    NegativeParse(i);
    NegativeValue(i);
  }

  /** `str(i)` of a negative `i` parses as minus the value of its digits. */
  lemma {:induction false} NegativeParse(i: int)
    requires i < 0
    ensures ParseInt(IntToString(i)) == Some(-(DigitsValue(IntToString(i)[1..]) as int))
  {
    ParseIntOfSignedDigits(IntToString(i));
  }

  /** The digits of `str(i)` for a negative `i` are worth `-i`. */
  lemma {:induction false} NegativeValue(i: int)
    requires i < 0
    ensures DigitsValue(IntToString(i)[1..]) == -i
  {
    DigitsValueOfNumeral(IntToString(i)[1..], -i);
  }

  lemma DigitsValueOfNumeral(digits: string, n: nat)
    requires digits == NatToString(n)
    ensures AllDigits(digits) && DigitsValue(digits) == n
  {
    DigitsValueOfNatToString(n);
  }

  lemma {:induction false} ParseIntOfNatToString(n: nat)
    ensures ParseInt(IntToString(n)) == Some(n)
  {
    var s := IntToString(n);
    ParseIntOfDigits(s);
    DigitsValueOfNatToString(n);
  }

  /** `int(d)` is the value of a non-empty digit string `d`. */
  lemma {:induction false} ParseIntOfDigits(d: string)
    requires d != [] && AllDigits(d)
    ensures ParseInt(d) == Some(DigitsValue(d))
  {
    DigitsStripped(d);
    DigitsAreNumeral(d);
    var t := Strip(d);
    assert t == d && IsDigit(t[0]);
    assert !(t[0] == '-' || t[0] == '+');
    assert IsNumeral(t);
  }

  /** `int(s)` for `s` a minus sign and a non-empty digit string is minus the digits' value. */
  lemma {:induction false} ParseIntOfSignedDigits(s: string)
    requires |s| >= 2 && s[0] == '-' && AllDigits(s[1..])
    ensures ParseInt(s) == Some(-(DigitsValue(s[1..]) as int))
  {
    SignedDigitsStripped(s);
    DigitsAreNumeral(s[1..]);
    var t := Strip(s);
    assert t == s && t[0] == '-';
    assert IsNumeral(t[1..]);
  }

  lemma DigitsStripped(d: string)
    requires AllDigits(d)
    ensures Strip(d) == d
  {
    StripWithoutSpace(d);
  }

  lemma SignedDigitsStripped(s: string)
    requires |s| >= 1 && s[0] == '-' && AllDigits(s[1..])
    ensures Strip(s) == s
  {
    forall k | 0 <= k < |s| ensures !IsSpace(s[k]) {
      if k > 0 {
        assert s[k] == s[1..][k - 1];
      }
    }
    StripWithoutSpace(s);
  }

  /** A non-empty digit string is a numeral, worth its digits' value. */
  lemma DigitsAreNumeral(d: string)
    requires d != [] && AllDigits(d)
    ensures IsNumeral(d) && NumeralValue(d) == DigitsValue(d)
  {
    RemoveUnderscoresOfDigits(d);
  }
}
