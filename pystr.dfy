/**
 The parts of Python's `str` handling that the command relies on: the
 character classes `int()` uses, the whitespace `int()` skips at both ends of
 its argument, and `str.zfill(width)`. Only ASCII text is modelled.
 */
module PyStr {

  /** CPython's `Py_ISSPACE`, the whitespace `int()` skips around a literal:
      tab, line feed, vertical tab, form feed and carriage return (0x09-0x0D)
      and the space (0x20). The information separators 0x1C-0x1F, which
      `str.isspace()` also counts, are not in this set. */
  predicate IsIntSpace(c: char) {
    var n := c as int;
    n == 0x20 || 0x09 <= n <= 0x0D
  }

  /** An ASCII decimal digit. */
  predicate IsDigit(c: char) {
    '0' <= c <= '9'
  }

  /** The two characters `zfill` and `int()` treat as a sign. */
  predicate IsSign(c: char) {
    c == '+' || c == '-'
  }

  /** No character of `s` is whitespace. */
  predicate NoSpace(s: string) {
    forall i :: 0 <= i < |s| ==> !IsIntSpace(s[i])
  }

  /** The first position at or after `i` that does not hold whitespace, or
      `|s|` if there is none. */
  function SkipSpace(s: string, i: nat): (j: nat)
    requires i <= |s|
    ensures i <= j <= |s|
    ensures j < |s| ==> !IsIntSpace(s[j])
    ensures forall k :: i <= k < j ==> IsIntSpace(s[k])
    decreases |s| - i
  {
    if i < |s| && IsIntSpace(s[i]) then SkipSpace(s, i + 1) else i
  }

  /** The end of `s[lo..j]` once its trailing whitespace is dropped. */
  function SkipSpaceBack(s: string, lo: nat, j: nat): (e: nat)
    requires lo <= j <= |s|
    ensures lo <= e <= j
    ensures e > lo ==> !IsIntSpace(s[e - 1])
    ensures forall k :: e <= k < j ==> IsIntSpace(s[k])
  {
    if j > lo && IsIntSpace(s[j - 1]) then SkipSpaceBack(s, lo, j - 1) else j
  }

  /** Where the text `int()` reads starts in `s`. */
  function StripStart(s: string): (i: nat)
    ensures i <= |s|
  {
    SkipSpace(s, 0)
  }

  /** Where the text `int()` reads ends in `s`. */
  function StripEnd(s: string): (e: nat)
    ensures StripStart(s) <= e <= |s|
  {
    SkipSpaceBack(s, StripStart(s), |s|)
  }

  /** The part of `s` between its leading and its trailing whitespace, as
      `int()` skips them before and after the literal. Neither end of it is
      whitespace, every character of `s` that is not whitespace lies inside
      it, and a string whose ends are not whitespace is left as it is. */
  function Strip(s: string): (r: string)
    ensures |r| <= |s|
    ensures r == [] || (!IsIntSpace(r[0]) && !IsIntSpace(r[|r| - 1]))
    ensures forall k :: 0 <= k < |s| && !IsIntSpace(s[k]) ==> StripStart(s) <= k < StripEnd(s)
    ensures s == [] || (!IsIntSpace(s[0]) && !IsIntSpace(s[|s| - 1])) ==> r == s
  {
    s[StripStart(s)..StripEnd(s)]
  }

  /** A character that is not whitespace survives stripping, shifted by the
      length of the leading whitespace. */
  lemma StripKeeps(s: string, i: nat)
    requires i < |s| && !IsIntSpace(s[i])
    ensures StripStart(s) <= i < StripStart(s) + |Strip(s)|
    ensures Strip(s)[i - StripStart(s)] == s[i]
  {
  }

  /** A string of `n` zeros. */
  function Zeros(n: nat): (z: string)
    ensures |z| == n && forall i :: 0 <= i < n ==> z[i] == '0'
  {
    seq(n, _ => '0')
  }

  function Max(a: int, b: int): (m: int) {
    if a < b then b else a
  }

  /** `s.zfill(width)` as CPython computes it: a string at least `width` long
      is returned unchanged; a shorter one is padded on the left with zeros,
      and if its first character is a sign, that sign is swapped to the front
      of the padding. */
  function ZFill(s: string, width: nat): (r: string)
    ensures |r| == Max(|s|, width)
  {
    if |s| >= width then s
    else
      var fill := width - |s|;
      var u := Zeros(fill) + s;
      if |s| > 0 && IsSign(u[fill]) then u[0 := u[fill]][fill := '0'] else u
  }

  /** What `zfill` does, in terms of the parts of its argument: a long string
      is kept, an unsigned short one gets zeros in front of all of it, and a
      signed short one keeps its sign first and gets the zeros between the sign
      and the rest. */
  lemma ZFillShape(s: string, width: nat)
    ensures |s| >= width ==> ZFill(s, width) == s
    ensures |s| < width && (s == [] || !IsSign(s[0])) ==>
              ZFill(s, width) == Zeros(width - |s|) + s
    ensures |s| < width && s != [] && IsSign(s[0]) ==>
              ZFill(s, width) == [s[0]] + Zeros(width - |s|) + s[1..]
  {
    if |s| < width && s != [] && IsSign(s[0]) {
      var fill := width - |s|;
      var u := Zeros(fill) + s;
      var r := u[0 := u[fill]][fill := '0'];
      var expected := [s[0]] + Zeros(fill) + s[1..];
      assert |r| == |expected|;
      forall i | 0 <= i < |r| ensures r[i] == expected[i] {
        if i == 0 {
        } else if i <= fill {
        } else {
          assert r[i] == s[i - fill];
        }
      }
      assert r == expected;
    }
  }

  /** The last `|s|` characters of `s.zfill(width)` are `s` itself when `s`
      has no sign; when it has one, the result starts with that sign and ends
      with the characters after it, with only zeros between. */
  lemma ZFillKeepsDigits(s: string, width: nat)
    ensures var r := ZFill(s, width);
            (s == [] || !IsSign(s[0]) ==> r[|r| - |s|..] == s)
    ensures var r := ZFill(s, width);
            (s != [] && IsSign(s[0]) ==>
               r[0] == s[0] && r[|r| - |s| + 1..] == s[1..] &&
               forall i :: 0 < i <= |r| - |s| ==> r[i] == '0')
  {
    ZFillShape(s, width);
  }

  /** Padding a padded string again changes nothing. */
  lemma ZFillIdempotent(s: string, width: nat)
    ensures ZFill(ZFill(s, width), width) == ZFill(s, width)
  {
  }

  /** A string without whitespace keeps none after padding. */
  lemma ZFillNoSpace(s: string, width: nat)
    requires NoSpace(s)
    ensures NoSpace(ZFill(s, width))
  {
    ZFillShape(s, width);
    var r := ZFill(s, width);
    forall i | 0 <= i < |r| ensures !IsIntSpace(r[i]) {
      if |s| < width {
        var fill := width - |s|;
        if s != [] && IsSign(s[0]) {
          assert i == 0 || i <= fill ==> r[i] in "+-0";
          assert i > fill ==> r[i] == s[i - fill];
        } else {
          assert i >= fill ==> r[i] == s[i - fill];
        }
      }
    }
  }
}
