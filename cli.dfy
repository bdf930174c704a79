/**
 The `opep NUMBER` command up to the document it opens: the `NUMBER` argument
 is validated, then turned into the path of a bundled PEP file, either by
 zero-padding it into a file name or, for `random`, by picking one of the
 bundled markdown files.
 */
module Cli {
  import opened PyStr
  import opened PyInt

  /** The exceptions the modelled code can raise. */
  datatype Error =
    | BadParameter(message: string)  // raised by the argument callback; click reports a usage error
    | IndexError(message: string)    // raised by `random.choice` on an empty list

  datatype Result<T> = Ok(value: T) | Err(error: Error)

  /** The one argument accepted although it is not an integer. */
  const RandomToken: string := "random"

  const BadNumberMessage: string := "Argument should be an integer or 'random'"

  const EmptyChoiceMessage: string := "Cannot choose from an empty sequence"

  /** The directory of bundled documents, relative to the package. */
  const PepDir: string := "peps/"

  // ---------------------------------------------------------------------
  // Argument validation
  // ---------------------------------------------------------------------

  /** The callback of the `NUMBER` argument: the token itself when `int()`
      accepts it or when it is exactly `random`, a `BadParameter` otherwise. */
  function ValidateNumber(value: string): (r: Result<string>)
    ensures r.Ok? <==> ParsesAsInt(value) || value == RandomToken
    ensures r.Ok? ==> r.value == value
    ensures r.Err? ==> r.error == BadParameter(BadNumberMessage)
  {
    if ParsesAsInt(value) then Ok(value)
    else if value == RandomToken then Ok(value)
    else Err(BadParameter(BadNumberMessage))
  }

  /** `random` is accepted only by its own test: `int("random")` fails. */
  lemma RandomIsNotAnInt()
    ensures !IsIntLiteral(RandomToken)
    ensures ValidateNumber(RandomToken) == Ok(RandomToken)
  {
    assert !IsIntSpace('r') && !IsSign('r') && !IsDigit('r');
    assert Strip(RandomToken) == RandomToken;
  }

  /** Validating what validation returned accepts it again, unchanged. */
  lemma ValidateIdempotent(value: string)
    requires ValidateNumber(value).Ok?
    ensures ValidateNumber(ValidateNumber(value).value) == ValidateNumber(value)
  {
  }

  /** Every integer Python prints, `str(n)`, is accepted as it is, as long as
      it is within the digit limit. */
  lemma ValidateAcceptsDecimal(n: int)
    requires DigitCount(IntToDecimal(n)) <= MaxStrDigits
    ensures ValidateNumber(IntToDecimal(n)) == Ok(IntToDecimal(n))
  {
    IntToDecimalRoundTrip(n);
  }

  /** The accepted tokens keep their exact spelling: a sign and leading
      zeros survive validation. */
  lemma ValidateKeepsSpelling()
    ensures ValidateNumber("+8") == Ok("+8")
    ensures ValidateNumber("00008") == Ok("00008")
  {
    assert ParsesAsInt("+8") by {
      SignedDigitPart("+8", "8");
    }
    assert ParsesAsInt("00008") by {
      AllDigitsIsDigitPart("00008");
      SignedDigitPart("00008", "00008");
    }
  }

  /** A token holding any character other than whitespace, a sign, a digit
      or an underscore is rejected, unless it is `random`. */
  lemma ValidateRejectsForeignCharacter(value: string, i: nat)
    requires i < |value| && value != RandomToken
    requires !(IsIntSpace(value[i]) || IsSign(value[i]) || IsDigit(value[i]) || value[i] == '_')
    ensures ValidateNumber(value) == Err(BadParameter(BadNumberMessage))
  {
    ForeignCharacterIsNotALiteral(value, i);
  }

  /** A token that starts or ends with an information separator (0x1C-0x1F)
      is rejected: `int()` does not skip those characters. */
  lemma ValidateRejectsSeparator(c: char, s: string)
    requires 0x1C <= c as int <= 0x1F
    ensures ValidateNumber([c] + s) == Err(BadParameter(BadNumberMessage))
    ensures ValidateNumber(s + [c]) == Err(BadParameter(BadNumberMessage))
    ensures ValidateNumber("\U{1C}8") == Err(BadParameter(BadNumberMessage))
  {
    assert ([c] + s)[0] != RandomToken[0];
    assert (s + [c])[|s|] == c;
    ValidateRejectsForeignCharacter([c] + s, 0);
    ValidateRejectsForeignCharacter(s + [c], |s|);
    ValidateRejectsForeignCharacter("\U{1C}8", 0);
  }

  /** Examples: letters, a decimal point, an empty token and a doubled
      underscore are all rejected. */
  lemma ValidateRejects()
    ensures ValidateNumber("abc") == Err(BadParameter(BadNumberMessage))
    ensures ValidateNumber("1.5") == Err(BadParameter(BadNumberMessage))
    ensures ValidateNumber("") == Err(BadParameter(BadNumberMessage))
    ensures ValidateNumber("1__0") == Err(BadParameter(BadNumberMessage))
  {
    ValidateRejectsForeignCharacter("abc", 0);
    ValidateRejectsForeignCharacter("1.5", 1);
    DoubledUnderscoreIsNotALiteral("1__0", 1);
  }

  // ---------------------------------------------------------------------
  // Path of a numbered document
  // ---------------------------------------------------------------------

  /** The four-digit key under which the document numbered `n` is bundled. */
  function PepKey(n: nat): (k: string)
    requires n < 10000
    ensures |k| == 4 && forall i :: 0 <= i < 4 ==> IsDigit(k[i])
  {
    [DigitChar(n / 1000), DigitChar(n / 100 % 10), DigitChar(n / 10 % 10), DigitChar(n % 10)]
  }

  /** The key spells its number: reading it back gives `n`. */
  lemma PepKeyValue(n: nat)
    requires n < 10000
    ensures DigitsOrUnderscores(PepKey(n)) && DecimalValue(PepKey(n)) == n
  {
    var k := PepKey(n);
    assert k[..3][..2][..1][..0] == [];
    assert k[..3][..2][..1] == k[..1] && k[..3][..2] == k[..2];
    assert n / 1000 == n / 100 / 10 && n / 100 == n / 10 / 10;
    assert DecimalValue(k[..1]) == n / 1000;
    assert DecimalValue(k[..2]) == n / 100 by {
      assert n / 100 == n / 1000 * 10 + n / 100 % 10;
    }
    assert DecimalValue(k[..3]) == n / 10 by {
      assert n / 10 == n / 100 * 10 + n / 10 % 10;
    }
  }

  /** Every four-digit string is the key of the number it spells. */
  lemma DigitsArePepKey(d: string)
    requires |d| == 4 && forall i :: 0 <= i < 4 ==> IsDigit(d[i])
    ensures DigitsOrUnderscores(d) && DecimalValue(d) < 10000
    ensures PepKey(DecimalValue(d)) == d
  {
    assert d[..3][..2][..1][..0] == [];
    assert d[..3][..2][..1] == d[..1] && d[..3][..2] == d[..2];
    var a, b, c, e := DigitValue(d[0]), DigitValue(d[1]), DigitValue(d[2]), DigitValue(d[3]);
    var n := DecimalValue(d);
    assert DecimalValue(d[..1]) == a;
    assert DecimalValue(d[..2]) == a * 10 + b;
    assert DecimalValue(d[..3]) == (a * 10 + b) * 10 + c;
    assert n == a * 1000 + b * 100 + c * 10 + e;
    FourDigits(a, b, c, e);
    var k := PepKey(n);
    assert k[0] == d[0] && k[1] == d[1] && k[2] == d[2] && k[3] == d[3];
  }

  /** The digits of a four-digit number, read off by division. */
  lemma FourDigits(a: nat, b: nat, c: nat, e: nat)
    requires a < 10 && b < 10 && c < 10 && e < 10
    ensures var n := a * 1000 + b * 100 + c * 10 + e;
            n < 10000 && n / 1000 == a && n / 100 % 10 == b && n / 10 % 10 == c && n % 10 == e
  {
    var n := a * 1000 + b * 100 + c * 10 + e;
    assert n / 1000 == a;
    assert n / 100 == a * 10 + b;
    assert n / 10 == a * 100 + b * 10 + c;
  }

  /** `f"peps/pep-{number.zfill(4)}.md"`, the file opened for a numeric token. */
  function PepPath(number: string): (p: string)
    ensures |p| == |PepDir| + 7 + Max(|number|, 4)
  {
    PepDir + "pep-" + ZFill(number, 4) + ".md"
  }

  /** Two tokens open the same file exactly when they pad to the same key. */
  lemma PepPathSameKey(a: string, b: string)
    ensures PepPath(a) == PepPath(b) <==> ZFill(a, 4) == ZFill(b, 4)
  {
    if PepPath(a) == PepPath(b) {
      var ka, kb := ZFill(a, 4), ZFill(b, 4);
      assert |ka| == |kb|;
      assert PepPath(a)[9..9 + |ka|] == ka;
      assert PepPath(b)[9..9 + |kb|] == kb;
    }
  }

  /** A token's key is the canonical key of its value exactly when the token
      is at most four plain digits; a sign, whitespace, an underscore or a
      fifth digit all give a file name other than the key of its value.
      `DigitKeyToken` shows that such a name is no four-digit key at all. */
  lemma CanonicalKeyIff(t: string)
    requires IsIntLiteral(t)
    ensures (0 <= IntValue(t) < 10000 && ZFill(t, 4) == PepKey(IntValue(t))) <==>
            (|t| <= 4 && forall i :: 0 <= i < |t| ==> IsDigit(t[i]))
  {
    if |t| <= 4 && forall i :: 0 <= i < |t| ==> IsDigit(t[i]) {
      PlainTokenKey(t);
    } else if 0 <= IntValue(t) < 10000 && ZFill(t, 4) == PepKey(IntValue(t)) {
      DigitKeyToken(t);
    }
  }

  /** A token of at most four plain digits pads to the key of its value. */
  lemma PlainTokenKey(t: string)
    requires IsIntLiteral(t)
    requires |t| <= 4 && forall i :: 0 <= i < |t| ==> IsDigit(t[i])
    ensures 0 <= IntValue(t) < 10000 && ZFill(t, 4) == PepKey(IntValue(t))
  {
    assert |Unsigned(Strip(t))| <= |Strip(t)| <= |t|;
    assert t != [] && !IsSign(t[0]);
    AllDigitsIsDigitPart(t);
    SignedDigitPart(t, t);
    var k := 4 - |t|;
    var d := Zeros(k) + t;
    assert ZFill(t, 4) == d by {
      ZFillShape(t, 4);
    }
    DecimalValueLeadingZeros(k, t);
    PaddedDigits(k, t);
    DigitsArePepKey(d);
  }

  /** Zeros in front of digits leave only digits. */
  lemma PaddedDigits(k: nat, t: string)
    requires forall i :: 0 <= i < |t| ==> IsDigit(t[i])
    ensures forall i :: 0 <= i < k + |t| ==> IsDigit((Zeros(k) + t)[i])
  {
    var d := Zeros(k) + t;
    assert forall i :: 0 <= i < |d| ==> d[i] == if i < k then '0' else t[i - k];
  }

  /** A token that pads to four digits is itself made of digits only. */
  lemma DigitKeyToken(t: string)
    requires |ZFill(t, 4)| == 4 && forall i :: 0 <= i < 4 ==> IsDigit(ZFill(t, 4)[i])
    ensures |t| <= 4 && forall i :: 0 <= i < |t| ==> IsDigit(t[i])
  {
    ZFillShape(t, 4);
    var d := ZFill(t, 4);
    assert |t| < 4 && t != [] && IsSign(t[0]) ==> d[0] == t[0] && !IsDigit(d[0]);
    assert forall i :: 0 <= i < |t| ==> t[i] == d[i + (4 - |t|)];
  }

  /** The file opened for the number `n`, written as Python prints it, is the
      one bundled under `n`'s four-digit key. */
  lemma PepPathOfNumber(n: nat)
    requires n < 10000
    ensures PepPath(IntToDecimal(n)) == PepDir + "pep-" + PepKey(n) + ".md"
  {
    IntToDecimalRoundTrip(n);
    var t := IntToDecimal(n);
    assert |t| <= 4 by {
      NatToDecimalShort(n);
    }
    CanonicalKeyIff(t);
  }

  lemma {:induction false} NatToDecimalShort(n: nat)
    requires n < 10000
    ensures |NatToDecimal(n)| <= 4
  {
    if n >= 10 {
      NatToDecimalShort(n / 10);
      if n >= 1000 {
        assert n / 10 >= 100;
      }
      assert |NatToDecimal(n / 10)| <= 3 by {
        NatToDecimalShorter(n / 10);
      }
    }
  }

  lemma {:induction false} NatToDecimalShorter(m: nat)
    requires m < 1000
    ensures |NatToDecimal(m)| <= 3
  {
    if m >= 10 {
      NatToDecimalShorter(m / 10);
      if m >= 100 {
        assert |NatToDecimal(m / 10)| <= 2 by {
          assert m / 10 < 100;
          if m / 10 >= 10 {
            assert m / 100 < 10;
          }
        }
      }
    }
  }

  /** Different numbers open different files. */
  lemma DistinctNumbersDistinctPaths(n: nat, m: nat)
    requires n < 10000 && m < 10000 && n != m
    ensures PepPath(IntToDecimal(n)) != PepPath(IntToDecimal(m))
  {
    PepPathOfNumber(n);
    PepPathOfNumber(m);
    PepKeyValue(n);
    PepKeyValue(m);
    PepPathSameKey(IntToDecimal(n), IntToDecimal(m));
    IntToDecimalRoundTrip(n);
    IntToDecimalRoundTrip(m);
    CanonicalKeyIff(IntToDecimal(n));
    CanonicalKeyIff(IntToDecimal(m));
  }

  /** The document numbered 8 is looked up under the key `0008`. */
  lemma PepPathOfEight()
    ensures PepPath("8") == "peps/pep-0008.md"
  {
    ZFillShape("8", 4);
    assert Zeros(3) + "8" == "0008";
  }

  /** Because the token is padded as typed, a sign lands in front of the
      zeros and a long token is not cut down to four digits. */
  lemma PepPathOddTokens()
    ensures PepPath("-5") == "peps/pep--005.md"
    ensures PepPath("+8") == "peps/pep-+008.md"
    ensures PepPath("00008") == "peps/pep-00008.md"
  {
    assert PepPath("-5") == "peps/pep--005.md" by {
      ZFillShape("-5", 4);
      assert ['-'] + Zeros(2) + "-5"[1..] == "-005";
    }
    assert PepPath("+8") == "peps/pep-+008.md" by {
      ZFillShape("+8", 4);
      assert ['+'] + Zeros(2) + "+8"[1..] == "+008";
    }
  }

  // ---------------------------------------------------------------------
  // The `random` branch
  // ---------------------------------------------------------------------

  /** A directory entry the pattern `*.md` of `glob` matches: not hidden (a leading dot
      is not matched by `*`) and ending in `.md`. */
  predicate IsMarkdownName(name: string) {
    |name| >= 3 && name[0] != '.' && name[|name| - 3..] == ".md"
  }

  /** `glob.glob` of the pattern `*.md` in `peps`, over the entries of the `peps` directory, in
      the order the directory lists them. */
  function GlobMarkdown(listing: seq<string>): (paths: seq<string>)
    ensures |paths| <= |listing|
    ensures forall name :: name in listing && IsMarkdownName(name) ==> PepDir + name in paths
    ensures forall p :: p in paths ==> exists name :: name in listing && IsMarkdownName(name) && p == PepDir + name
  {
    if listing == [] then []
    else
      var rest := GlobMarkdown(listing[1..]);
      if IsMarkdownName(listing[0]) then [PepDir + listing[0]] + rest else rest
  }

  /** `random.choice(paths)`: some element of a non-empty list, and an
      `IndexError` for an empty one. Which element is left open. */
  method Choice(paths: seq<string>) returns (r: Result<string>)
    ensures r.Err? <==> paths == []
    ensures r.Err? ==> r.error == IndexError(EmptyChoiceMessage)
    ensures r.Ok? ==> r.value in paths
  {
    if paths == [] {
      r := Err(IndexError(EmptyChoiceMessage));
    } else {
      var i :| 0 <= i < |paths|;
      r := Ok(paths[i]);
    }
  }

  // ---------------------------------------------------------------------
  // The command
  // ---------------------------------------------------------------------

  /** The path the command opens for a validated token, given the entries of
      the `peps` directory: the padded file name for a number, one of the
      bundled markdown files for `random`. */
  method ResolvePath(number: string, listing: seq<string>) returns (r: Result<string>)
    ensures number != RandomToken ==> r == Ok(PepPath(number))
    ensures number == RandomToken ==>
              (r.Err? <==> GlobMarkdown(listing) == []) &&
              (r.Err? ==> r.error == IndexError(EmptyChoiceMessage)) &&
              (r.Ok? ==> r.value in GlobMarkdown(listing))
  {
    if number == RandomToken {
      r := Choice(GlobMarkdown(listing));
    } else {
      r := Ok(PepPath(number));
    }
  }

  /** The command from its raw argument to the path it opens: an argument
      that fails validation stops it before any file is looked at. */
  method Command(token: string, listing: seq<string>) returns (r: Result<string>)
    ensures r == Err(BadParameter(BadNumberMessage)) <==> !(ParsesAsInt(token) || token == RandomToken)
    ensures ParsesAsInt(token) ==> r == Ok(PepPath(token))
    ensures token == RandomToken ==>
              (r.Err? <==> GlobMarkdown(listing) == []) &&
              (r.Err? ==> r.error == IndexError(EmptyChoiceMessage)) &&
              (r.Ok? ==> exists name :: name in listing && IsMarkdownName(name) && r.value == PepDir + name)
  {
    var v := ValidateNumber(token);
    if v.Err? {
      r := Err(v.error);
    } else {
      if ParsesAsInt(token) {
        RandomIsNotAnInt();
      }
      r := ResolvePath(v.value, listing);
    }
  }
}
