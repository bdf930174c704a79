/**
 Python's `int(s)` applied to a `str`, in base 10, restricted to ASCII:
 which strings it accepts, the value it computes, and `str(n)`, the
 conversion back that it inverts.
 */
module PyInt {
  import opened PyStr

  /** By default CPython refuses with `ValueError` to convert a string
      holding more decimal digits than this. The limit holds in 3.11 and later
      and in the 3.7.14, 3.8.14, 3.9.14 and 3.10.7 security releases; earlier
      releases have none. */
  const MaxStrDigits: nat := 4300

  /** Python's `digitpart`: one or more digits, with single underscores
      allowed between two digits. */
  predicate IsDigitPart(s: string) {
    |s| > 0 && IsDigit(s[0]) && IsDigit(s[|s| - 1]) &&
    (forall i :: 0 <= i < |s| ==> IsDigit(s[i]) || s[i] == '_') &&
    (forall i :: 0 <= i < |s| - 1 ==> s[i] == '_' ==> s[i + 1] != '_')
  }

  /** Every character is a digit or an underscore. */
  predicate DigitsOrUnderscores(s: string) {
    forall i :: 0 <= i < |s| ==> IsDigit(s[i]) || s[i] == '_'
  }

  /** What follows an optional leading sign. */
  function Unsigned(t: string): (u: string)
    ensures |t| > 0 && IsSign(t[0]) ==> u == t[1..]
    ensures |t| == 0 || !IsSign(t[0]) ==> u == t
  {
    if |t| > 0 && IsSign(t[0]) then t[1..] else t
  }

  /** The literal grammar `int()` accepts: optional whitespace (`IsIntSpace`),
      an optional sign, a `digitpart`, optional whitespace. */
  predicate IsIntLiteral(s: string) {
    IsDigitPart(Unsigned(Strip(s)))
  }

  /** How many decimal digits `s` holds. */
  function DigitCount(s: string): (n: nat)
    ensures n <= |s|
  {
    if s == [] then 0
    else DigitCount(s[..|s| - 1]) + (if IsDigit(s[|s| - 1]) then 1 else 0)
  }

  /** `int(s)` returns normally, rather than raising `ValueError`: the literal
      is well formed and not longer than the digit limit. */
  predicate ParsesAsInt(s: string) {
    IsIntLiteral(s) && DigitCount(s) <= MaxStrDigits
  }

  function DigitValue(c: char): (d: nat)
    requires IsDigit(c)
    ensures d < 10
  {
    (c as int) - ('0' as int)
  }

  function DigitChar(d: nat): (c: char)
    requires d < 10
    ensures IsDigit(c) && DigitValue(c) == d
  {
    (('0' as int) + d) as char
  }

  /** The number a run of digits and underscores denotes, underscores ignored. */
  function DecimalValue(s: string): (v: nat)
    requires DigitsOrUnderscores(s)
  {
    if s == [] then 0
    else if s[|s| - 1] == '_' then DecimalValue(s[..|s| - 1])
    else DecimalValue(s[..|s| - 1]) * 10 + DigitValue(s[|s| - 1])
  }

  /** The value `int(s)` returns for a well-formed literal. */
  function IntValue(s: string): (v: int)
    requires IsIntLiteral(s)
  {
    var t := Strip(s);
    var v: int := DecimalValue(Unsigned(t));
    if t[0] == '-' then -v else v
  }

  /** The decimal digits of a non-negative `n`, with no length limit. */
  function NatToDecimal(n: nat): (s: string)
    ensures |s| > 0 && forall i :: 0 <= i < |s| ==> IsDigit(s[i])
  {
    if n < 10 then [DigitChar(n)] else NatToDecimal(n / 10) + [DigitChar(n % 10)]
  }

  /** The decimal rendering of `n`: a minus sign for a negative `n`, then the
      digits of `|n|`. It has no length limit; within 4300 digits it is what
      `str(n)` returns, and beyond that a CPython release with the digit
      limit raises `ValueError` from `str(n)` itself. */
  function IntToDecimal(n: int): (s: string) {
    if n < 0 then "-" + NatToDecimal(-n) else NatToDecimal(n)
  }

  /** Leading zeros do not change the value of a run of digits. */
  lemma {:induction false} DecimalValueLeadingZeros(k: nat, s: string)
    requires DigitsOrUnderscores(s)
    ensures DigitsOrUnderscores(Zeros(k) + s)
    ensures DecimalValue(Zeros(k) + s) == DecimalValue(s)
  {
    var z := Zeros(k) + s;
    assert forall i :: 0 <= i < |z| ==> z[i] == if i < k then '0' else s[i - k];
    if s == [] {
      assert z == Zeros(k);
      ZerosValue(k);
    } else {
      var p := s[..|s| - 1];
      assert z[..|z| - 1] == Zeros(k) + p;
      DecimalValueLeadingZeros(k, p);
    }
  }

  lemma {:induction false} ZerosValue(k: nat)
    ensures DigitsOrUnderscores(Zeros(k))
    ensures DecimalValue(Zeros(k)) == 0
  {
    if k > 0 {
      assert Zeros(k)[..k - 1] == Zeros(k - 1);
      ZerosValue(k - 1);
    }
  }

  /** The digits `str(n)` writes denote `n`. */
  lemma {:induction false} NatToDecimalValue(n: nat)
    ensures DigitsOrUnderscores(NatToDecimal(n))
    ensures DecimalValue(NatToDecimal(n)) == n
  {
    var s := NatToDecimal(n);
    if n >= 10 {
      assert s[..|s| - 1] == NatToDecimal(n / 10);
      NatToDecimalValue(n / 10);
    } else {
      assert s[..0] == [];
    }
  }

  /** Round trip: the decimal rendering of every integer `n` is a well-formed
      literal whose value is `n`; `int()` accepts it exactly when it is within
      the digit limit, which is also where it equals `str(n)`. */
  lemma IntToDecimalRoundTrip(n: int)
    ensures IsIntLiteral(IntToDecimal(n))
    ensures IntValue(IntToDecimal(n)) == n
    ensures ParsesAsInt(IntToDecimal(n)) <==> DigitCount(IntToDecimal(n)) <= MaxStrDigits
  {
    var m := if n < 0 then -n else n;
    var d := NatToDecimal(m);
    NatToDecimalValue(m);
    var s := IntToDecimal(n);
    assert s[|s| - 1] == d[|d| - 1];
    assert !IsIntSpace(s[0]) && !IsIntSpace(s[|s| - 1]);
    assert Strip(s) == s;
    if n < 0 {
      assert s[1..] == d;
    }
    assert Unsigned(s) == d;
    assert IsDigitPart(d);
  }

  /** Zeros in front of a `digitpart` leave a `digitpart`. */
  lemma PaddedDigitPart(k: nat, b: string)
    requires IsDigitPart(b)
    ensures IsDigitPart(Zeros(k) + b)
  {
    var z := Zeros(k) + b;
    assert forall i :: 0 <= i < |z| ==> z[i] == if i < k then '0' else b[i - k];
  }

  /** A literal without whitespace has none to strip. */
  lemma StripNoSpace(s: string)
    requires NoSpace(s)
    ensures Strip(s) == s
  {
    if s != [] {
      assert !IsIntSpace(s[0]) && !IsIntSpace(s[|s| - 1]);
    }
  }

  /** A non-empty run of digits is a `digitpart`. */
  lemma AllDigitsIsDigitPart(s: string)
    requires |s| > 0 && forall i :: 0 <= i < |s| ==> IsDigit(s[i])
    ensures IsDigitPart(s) && DigitsOrUnderscores(s)
  {
  }

  /** A `digitpart` with or without a sign in front is a literal without
      whitespace, and its value is the digits' value, negated after a minus. */
  lemma SignedDigitPart(r: string, z: string)
    requires IsDigitPart(z)
    requires r == z || (|r| > 0 && IsSign(r[0]) && r[1..] == z)
    ensures IsIntLiteral(r) && Unsigned(Strip(r)) == z
    ensures IntValue(r) == if r[0] == '-' then -(DecimalValue(z) as int) else DecimalValue(z)
  {
    assert !IsIntSpace(r[0]) && !IsIntSpace(r[|r| - 1]);
  }

  /** A string holding a character that is neither whitespace, a sign, a
      digit nor an underscore is not a literal. */
  lemma ForeignCharacterIsNotALiteral(s: string, i: nat)
    requires i < |s|
    requires !(IsIntSpace(s[i]) || IsSign(s[i]) || IsDigit(s[i]) || s[i] == '_')
    ensures !IsIntLiteral(s)
  {
    StripKeeps(s, i);
    var w := Strip(s);
    var k := i - StripStart(s);
    var body := Unsigned(w);
    var m := if IsSign(w[0]) then k - 1 else k;
    assert 0 <= m < |body| && body[m] == s[i];
  }

  /** Two underscores in a row never occur in a literal. */
  lemma DoubledUnderscoreIsNotALiteral(s: string, i: nat)
    requires i + 1 < |s| && s[i] == '_' && s[i + 1] == '_'
    ensures !IsIntLiteral(s)
  {
    StripKeeps(s, i);
    StripKeeps(s, i + 1);
    var w := Strip(s);
    var k := i - StripStart(s);
    var body := Unsigned(w);
    var m := if IsSign(w[0]) then k - 1 else k;
    assert 0 <= m && m + 1 < |body| && body[m] == '_' && body[m + 1] == '_';
  }

  /** Padding a literal that carries no whitespace with `zfill` gives a
      literal of the same value. */
  lemma ZFillKeepsValue(t: string, width: nat)
    requires IsIntLiteral(t) && NoSpace(t)
    ensures IsIntLiteral(ZFill(t, width))
    ensures IntValue(ZFill(t, width)) == IntValue(t)
  {
    StripNoSpace(t);
    var r := ZFill(t, width);
    if |t| < width {
      ZFillShape(t, width);
      var k := width - |t|;
      var b := Unsigned(t);
      var z := Zeros(k) + b;
      DecimalValueLeadingZeros(k, b);
      PaddedDigitPart(k, b);
      if IsSign(t[0]) {
        assert r == [t[0]] + z;
        assert r[1..] == z;
      } else {
        assert r == z;
      }
      SignedDigitPart(r, z);
      SignedDigitPart(t, b);
    }
  }

  /** Whitespace in the literal is why the previous lemma asks for none:
      `" 8"` is accepted, but its padding `"00 8"` is not a literal. */
  lemma PaddedSpaceIsNotALiteral()
    ensures IsIntLiteral(" 8")
    ensures ZFill(" 8", 4) == "00 8" && !IsIntLiteral("00 8")
  {
    SpacedLiteral();
    assert ZFill(" 8", 4) == "00 8" by {
      assert !IsSign(' ');
      assert Zeros(2) + " 8" == "00 8";
    }
    PaddedSpacedLiteral();
  }

  /** Whitespace around a literal is stripped: `int(" 8") == 8`. */
  lemma SpacedLiteral()
    ensures IsIntLiteral(" 8") && IntValue(" 8") == 8
  {
    assert IsIntSpace(' ') && !IsIntSpace('8');
    assert StripStart(" 8") == 1 && StripEnd(" 8") == 2;
    assert Strip(" 8") == "8";
    AllDigitsIsDigitPart("8");
    SignedDigitPart("8", "8");
    assert "8"[..0] == [];
  }

  /** An information separator (0x1C-0x1F) is not whitespace to `int()`:
      `int("\x1c8")` raises `ValueError`, and so does a literal ending in one. */
  lemma SeparatorIsNotALiteral(c: char, s: string)
    requires 0x1C <= c as int <= 0x1F
    ensures !IsIntLiteral([c] + s) && !IsIntLiteral(s + [c])
    ensures !ParsesAsInt("\U{1C}8")
  {
    ForeignCharacterIsNotALiteral([c] + s, 0);
    ForeignCharacterIsNotALiteral(s + [c], |s|);
    ForeignCharacterIsNotALiteral("\U{1C}8", 0);
  }

  /** Whitespace inside a literal is not: `int("00 8")` raises `ValueError`. */
  lemma PaddedSpacedLiteral()
    ensures !IsIntLiteral("00 8")
  {
    assert Strip("00 8") == "00 8";
    assert "00 8"[2] == ' ';
  }
}
