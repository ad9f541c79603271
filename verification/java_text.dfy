/** The few pieces of java.lang.String and java.util.Formatter behaviour the
    core relies on: `trim`, `isEmpty`, `toUpperCase`, `length` (in UTF-16 code
    units) and the `%04d` conversion. */
module JavaText {
  import opened Wrappers

  /** `String.trim` removes every leading and trailing code point at or below
      U+0020 (space and the ASCII control characters). */
  predicate IsTrimmable(c: char) {
    c <= ' '
  }

  function TrimStart(s: string): (r: string)
    ensures |r| <= |s| && r == s[|s| - |r|..]
    ensures forall i :: 0 <= i < |s| - |r| ==> IsTrimmable(s[i])
    ensures r == [] || !IsTrimmable(r[0])
    decreases |s|
  {
    if |s| > 0 && IsTrimmable(s[0]) then TrimStart(s[1..]) else s
  }

  function TrimEnd(s: string): (r: string)
    ensures |r| <= |s| && r == s[..|r|]
    ensures forall i :: |r| <= i < |s| ==> IsTrimmable(s[i])
    ensures r == [] || !IsTrimmable(r[|r| - 1])
    decreases |s|
  {
    if |s| > 0 && IsTrimmable(s[|s| - 1]) then TrimEnd(s[..|s| - 1]) else s
  }

  /** Java's `s.trim()`. */
  function Trim(s: string): (r: string)
    ensures exists lo, hi :: && 0 <= lo <= hi <= |s| && r == s[lo..hi]
                             && (forall i :: 0 <= i < lo ==> IsTrimmable(s[i]))
                             && (forall i :: hi <= i < |s| ==> IsTrimmable(s[i]))
    ensures r == [] || (!IsTrimmable(r[0]) && !IsTrimmable(r[|r| - 1]))
  {
    var t := TrimStart(s);
    var r := TrimEnd(t);
    TrimCuts(s, t, r);
    r
  }

  /** Where `Trim` cuts, given what `TrimStart` and `TrimEnd` promise: the
      characters before and after the kept slice are all trimmable. */
  lemma TrimCuts(s: string, t: string, r: string)
    requires |t| <= |s| && t == s[|s| - |t|..] && forall i :: 0 <= i < |s| - |t| ==> IsTrimmable(s[i])
    requires |r| <= |t| && r == t[..|r|] && forall i :: |r| <= i < |t| ==> IsTrimmable(t[i])
    ensures var lo := |s| - |t|;
      && 0 <= lo <= lo + |r| <= |s| && r == s[lo..lo + |r|]
      && (forall i :: 0 <= i < lo ==> IsTrimmable(s[i]))
      && (forall i :: lo + |r| <= i < |s| ==> IsTrimmable(s[i]))
  {
  }

  /** `s == null || s.trim().isEmpty()`, the blankness test of the
      registration checks. */
  predicate IsBlank(s: Option<string>) {
    s.None? || Trim(s.value) == ""
  }

  /** A string trims to nothing exactly when every code point in it is
      trimmable. */
  lemma {:induction false} TrimEmptyIff(s: string)
    ensures Trim(s) == "" <==> forall i :: 0 <= i < |s| ==> IsTrimmable(s[i])
  {
    var t := TrimStart(s);
    if !forall i :: 0 <= i < |s| ==> IsTrimmable(s[i]) {
      var k :| 0 <= k < |s| && !IsTrimmable(s[k]);
      assert k >= |s| - |t|;
      assert !IsTrimmable(t[k - (|s| - |t|)]);
    }
  }

  /** Java's `Character.toUpperCase` restricted to the code points whose
      upper case is an ASCII letter: `a`..`z`, dotless `ı` (U+0131) and long
      `ſ` (U+017F). Every other code point is left alone; since their upper
      cases are not ASCII letters, that changes no comparison against an
      all-ASCII upper-case word. */
  function UpperChar(c: char): (u: char)
    ensures 'a' <= c <= 'z' ==> u as int == c as int - 32
    ensures c == '\U{131}' ==> u == 'I'
    ensures c == '\U{17F}' ==> u == 'S'
    ensures !('a' <= c <= 'z') && c != '\U{131}' && c != '\U{17F}' ==> u == c
  {
    if 'a' <= c <= 'z' then (c as int - 32) as char
    else if c == '\U{131}' then 'I'
    else if c == '\U{17F}' then 'S'
    else c
  }

  /** `s.toUpperCase()`, code point by code point (see `UpperChar`). */
  function ToUpper(s: string): (r: string)
    ensures |r| == |s|
    ensures forall i :: 0 <= i < |s| ==> r[i] == UpperChar(s[i])
  {
    seq(|s|, i requires 0 <= i < |s| => UpperChar(s[i]))
  }

  /** `c` is the upper-case ASCII letter `w` written in some case: `w`
      itself, its lower-case form, or the dotless `ı` for I and the long `ſ`
      for S, both of which `toUpperCase` turns into those letters. */
  predicate Folds(c: char, w: char) {
    || c == w
    || c as int == w as int + 32
    || (w == 'I' && c == '\U{131}')
    || (w == 'S' && c == '\U{17F}')
  }

  predicate IsUpperWord(w: string) {
    forall i :: 0 <= i < |w| ==> 'A' <= w[i] <= 'Z'
  }

  /** Upper-casing a character gives the letter `w` exactly when the
      character is `w` in some case. */
  lemma UpperCharIs(c: char, w: char)
    requires 'A' <= w <= 'Z'
    ensures UpperChar(c) == w <==> Folds(c, w)
  {
  }

  /** Comparing `s.toUpperCase()` with an upper-case ASCII word matches the
      word written in any mixture of cases, and nothing else. */
  lemma ToUpperMatchesWord(s: string, w: string)
    requires IsUpperWord(w)
    ensures ToUpper(s) == w <==> |s| == |w| && forall i :: 0 <= i < |s| ==> Folds(s[i], w[i])
  {
    if |s| == |w| {
      forall i | 0 <= i < |s|
        ensures ToUpper(s)[i] == w[i] <==> Folds(s[i], w[i])
      {
        UpperCharIs(s[i], w[i]);
      }
      if forall i :: 0 <= i < |s| ==> Folds(s[i], w[i]) {
        assert ToUpper(s) == w;
      }
    }
  }

  /** `String.length()` counts UTF-16 code units: a code point above U+FFFF
      takes two of them. */
  function Utf16Length(s: string): (n: nat)
    ensures |s| <= n <= 2 * |s|
  {
    if |s| == 0 then 0
    else Utf16Length(s[..|s| - 1]) + (if s[|s| - 1] as int > 0xFFFF then 2 else 1)
  }

  /** On text drawn from the Basic Multilingual Plane the UTF-16 length is
      the number of code points. */
  lemma {:induction false} Utf16LengthBmp(s: string)
    requires forall i :: 0 <= i < |s| ==> s[i] as int <= 0xFFFF
    ensures Utf16Length(s) == |s|
  {
    if |s| > 0 {
      Utf16LengthBmp(s[..|s| - 1]);
    }
  }

  /** The UTF-16 length of a concatenation is the sum of the lengths. */
  lemma {:induction false} Utf16LengthAppend(a: string, b: string)
    ensures Utf16Length(a + b) == Utf16Length(a) + Utf16Length(b)
    decreases |b|
  {
    if |b| == 0 {
      assert a + b == a;
    } else {
      assert (a + b)[..|a + b| - 1] == a + b[..|b| - 1];
      Utf16LengthAppend(a, b[..|b| - 1]);
    }
  }

  // ----- decimal numerals and `%04d` -----

  predicate IsDigit(c: char) {
    '0' <= c <= '9'
  }

  predicate AllDigits(s: string) {
    forall i :: 0 <= i < |s| ==> IsDigit(s[i])
  }

  function DigitChar(d: nat): (c: char)
    requires d < 10
    ensures IsDigit(c)
  {
    ('0' as int + d) as char
  }

  function DigitValue(c: char): (d: nat)
    requires IsDigit(c)
    ensures d < 10 && DigitChar(d) == c
  {
    c as int - '0' as int
  }

  /** `Integer.toString(n)` for a non-negative `n`: no sign, no leading
      zeros. */
  function Decimal(n: nat): (r: string)
    ensures |r| >= 1 && AllDigits(r)
    ensures |r| > 1 ==> r[0] != '0'
    decreases n
  {
    if n < 10 then [DigitChar(n)] else Decimal(n / 10) + [DigitChar(n % 10)]
  }

  /** The value of a string of decimal digits (the empty string reads 0). */
  function ParseDecimal(s: string): nat
    requires AllDigits(s)
  {
    if |s| == 0 then 0 else ParseDecimal(s[..|s| - 1]) * 10 + DigitValue(s[|s| - 1])
  }

  function Zeros(k: nat): (r: string)
    ensures |r| == k && AllDigits(r)
    ensures forall i :: 0 <= i < k ==> r[i] == '0'
  {
    seq(k, i => '0')
  }

  /** `String.format("%04d", n)` for a non-negative `n`: the decimal numeral
      in ASCII digits, left-padded with zeros to four characters, never truncated. */
  function Format04(n: nat): (r: string)
    ensures AllDigits(r)
  {
    var d := Decimal(n);
    if |d| < 4 then Zeros(4 - |d|) + d else d
  }

  lemma {:induction false} DecimalRoundTrip(n: nat)
    ensures ParseDecimal(Decimal(n)) == n
    decreases n
  {
    if n >= 10 {
      var d := Decimal(n);
      DecimalRoundTrip(n / 10);
      assert d[..|d| - 1] == Decimal(n / 10);
    }
  }

  lemma {:induction false} ParseLeadingZeros(k: nat, s: string)
    requires AllDigits(s)
    ensures ParseDecimal(Zeros(k) + s) == ParseDecimal(s)
    decreases |s|
  {
    var z := Zeros(k) + s;
    if |s| == 0 {
      ParseZeros(k);
      assert z == Zeros(k);
    } else {
      assert z[..|z| - 1] == Zeros(k) + s[..|s| - 1];
      ParseLeadingZeros(k, s[..|s| - 1]);
    }
  }

  lemma {:induction false} ParseZeros(k: nat)
    ensures ParseDecimal(Zeros(k)) == 0
  {
    if k > 0 {
      assert Zeros(k)[..k - 1] == Zeros(k - 1);
      ParseZeros(k - 1);
    }
  }

  /** The `%04d` field reads back as the number it was made from. */
  lemma Format04RoundTrip(n: nat)
    ensures ParseDecimal(Format04(n)) == n
  {
    var d := Decimal(n);
    DecimalRoundTrip(n);
    if |d| < 4 {
      ParseLeadingZeros(4 - |d|, d);
    }
  }

  /** Hence distinct numbers give distinct `%04d` fields. */
  lemma Format04Injective(a: nat, b: nat)
    requires Format04(a) == Format04(b)
    ensures a == b
  {
    Format04RoundTrip(a);
    Format04RoundTrip(b);
  }

  /** The numeral of `n` has at most `k` digits exactly when `n < 10^k`. */
  lemma {:induction false} DecimalLength(n: nat, k: nat)
    requires k >= 1
    ensures |Decimal(n)| <= k <==> n < Pow10(k)
    decreases n
  {
    if n >= 10 {
      if k == 1 {
        assert |Decimal(n)| >= 2;
      } else {
        DecimalLength(n / 10, k - 1);
      }
    }
  }

  function Pow10(k: nat): (p: nat)
    ensures p >= 1
  {
    if k == 0 then 1 else 10 * Pow10(k - 1)
  }

  /** The `%04d` field is exactly four characters up to 9999 and widens,
      without wrapping or failing, beyond it. */
  lemma Format04Width(n: nat)
    ensures n <= 9999 ==> |Format04(n)| == 4
    ensures n > 9999 ==> |Format04(n)| == |Decimal(n)| > 4
  {
    DecimalLength(n, 4);
    assert Pow10(4) == 10000;
  }
}
