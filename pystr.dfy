/**
 * The parts of Python's `str` behaviour that the map script relies on,
 * restricted to ASCII text: character classes (`isspace`, `isdigit`,
 * `isalpha`), `strip`, `upper`, `lower`, `zfill`, substring search (`in`),
 * `str(n)` of a natural number and the `f"{n:,}"` thousands format.
 */
module PyStr {

  // ---------------------------------------------------------------------
  // Character classes
  // ---------------------------------------------------------------------

  predicate IsAsciiChar(c: char) { (c as int) < 128 }

  predicate IsAscii(s: string) { forall i :: 0 <= i < |s| ==> IsAsciiChar(s[i]) }

  /** The ASCII characters for which `str.isspace` holds: tab, line feed,
      vertical tab, form feed, carriage return, the four separators 0x1C-0x1F
      and the space. */
  predicate IsSpace(c: char) {
    (9 <= c as int <= 13) || (28 <= c as int <= 32)
  }

  predicate IsDigitChar(c: char) { '0' <= c <= '9' }

  predicate IsLowerChar(c: char) { 'a' <= c <= 'z' }

  predicate IsUpperChar(c: char) { 'A' <= c <= 'Z' }

  predicate IsAlphaChar(c: char) { IsLowerChar(c) || IsUpperChar(c) }

  /** Every character is a decimal digit (true of the empty string). */
  predicate OnlyDigits(s: string) { forall i :: 0 <= i < |s| ==> IsDigitChar(s[i]) }

  /** Python's `str.isdigit`: non-empty and all digits. */
  predicate IsDigits(s: string) { |s| > 0 && OnlyDigits(s) }

  /** No character is an ASCII lower-case letter. */
  predicate NoLower(s: string) { forall i :: 0 <= i < |s| ==> !IsLowerChar(s[i]) }

  // ---------------------------------------------------------------------
  // Case mapping
  // ---------------------------------------------------------------------

  function ToUpperChar(c: char): (u: char)
    ensures !IsLowerChar(u)
    ensures IsSpace(u) <==> IsSpace(c)
    ensures IsDigitChar(u) <==> IsDigitChar(c)
    ensures IsAlphaChar(u) <==> IsAlphaChar(c)
    ensures IsAsciiChar(c) ==> IsAsciiChar(u)
    ensures !IsLowerChar(c) ==> u == c
  {
    if IsLowerChar(c) then (c as int - 32) as char else c
  }

  function ToLowerChar(c: char): (l: char)
    ensures !IsUpperChar(l)
    ensures !IsUpperChar(c) ==> l == c
    ensures IsLowerChar(l) ==> c == l || c as int == l as int - 32
  {
    if IsUpperChar(c) then (c as int + 32) as char else c
  }

  /** `str.upper` on ASCII letters. */
  function Upper(s: string): (r: string)
    ensures |r| == |s|
    ensures forall i :: 0 <= i < |s| ==> r[i] == ToUpperChar(s[i])
    ensures NoLower(r)
    ensures NoLower(s) ==> r == s
  {
    seq(|s|, i requires 0 <= i < |s| => ToUpperChar(s[i]))
  }

  /** `str.lower` on ASCII letters. */
  function Lower(s: string): (r: string)
    ensures |r| == |s|
    ensures forall i :: 0 <= i < |s| ==> r[i] == ToLowerChar(s[i])
    ensures forall i :: 0 <= i < |r| ==> !IsUpperChar(r[i])
    ensures (forall i :: 0 <= i < |s| ==> !IsUpperChar(s[i])) ==> r == s
  {
    seq(|s|, i requires 0 <= i < |s| => ToLowerChar(s[i]))
  }

  // ---------------------------------------------------------------------
  // strip
  // ---------------------------------------------------------------------

  function StripLeft(s: string): (r: string)
    ensures |r| <= |s| && r == s[|s| - |r|..]
    ensures forall i :: 0 <= i < |s| - |r| ==> IsSpace(s[i])
    ensures |r| > 0 ==> !IsSpace(r[0])
  {
    if |s| > 0 && IsSpace(s[0]) then StripLeft(s[1..]) else s
  }

  function StripRight(s: string): (r: string)
    ensures |r| <= |s| && r == s[..|r|]
    ensures forall i :: |r| <= i < |s| ==> IsSpace(s[i])
    ensures |r| > 0 ==> !IsSpace(r[|r| - 1])
  {
    if |s| > 0 && IsSpace(s[|s| - 1]) then StripRight(s[..|s| - 1]) else s
  }

  /** `str.strip()` with no argument: drops leading and trailing whitespace.
      What remains is the slice of `s` from its first to its last
      non-whitespace character. */
  function Strip(s: string): (r: string)
    ensures |r| <= |StripLeft(s)| <= |s|
    ensures r == s[|s| - |StripLeft(s)|..][..|r|]
    ensures forall i :: 0 <= i < |s| - |StripLeft(s)| ==> IsSpace(s[i])
    ensures forall i :: |s| - |StripLeft(s)| + |r| <= i < |s| ==> IsSpace(s[i])
    ensures |r| > 0 ==> !IsSpace(r[0]) && !IsSpace(r[|r| - 1])
    ensures (|s| == 0 || (!IsSpace(s[0]) && !IsSpace(s[|s| - 1]))) ==> r == s
  {
    var l := StripLeft(s);
    var r := StripRight(l);
    StripTail(s, l, r);
    r
  }

  lemma StripTail(s: string, l: string, r: string)
    requires l == StripLeft(s) && r == StripRight(l)
    ensures forall i :: |s| - |l| + |r| <= i < |s| ==> IsSpace(s[i])
  {
    var k := |s| - |l|;
    assert l == s[k..];
    forall i | k + |r| <= i < |s| ensures IsSpace(s[i]) {
      assert |r| <= i - k < |l|;
      assert s[i] == l[i - k];
    }
  }

  /** Every character that strip keeps comes from its input. */
  lemma StripChars(s: string)
    ensures forall i :: 0 <= i < |Strip(s)| ==> Strip(s)[i] in s
  {
    var k := |s| - |StripLeft(s)|;
    var r := Strip(s);
    forall i | 0 <= i < |r| ensures r[i] in s {
      assert r[i] == s[k + i];
    }
  }

  // ---------------------------------------------------------------------
  // zfill
  // ---------------------------------------------------------------------

  function Zeros(n: nat): (z: string)
    ensures |z| == n
    ensures forall i :: 0 <= i < n ==> z[i] == '0'
  {
    seq(n, _ => '0')
  }

  predicate IsSign(c: char) { c == '+' || c == '-' }

  function Max(a: int, b: int): int { if a < b then b else a }

  /** `str.zfill(width)`: pads with '0' on the left up to `width`, putting
      the zeros after a leading sign; a string already at least `width` long
      is returned unchanged. */
  function ZFill(s: string, width: nat): (r: string)
    ensures |r| == Max(|s|, width)
    ensures |s| >= width ==> r == s
    ensures |s| < width && |s| > 0 && IsSign(s[0]) ==>
              r == [s[0]] + Zeros(width - |s|) + s[1..]
    ensures (|s| == 0 || !IsSign(s[0])) ==> r == Zeros(|r| - |s|) + s
  {
    if |s| >= width then s
    else if |s| > 0 && IsSign(s[0]) then [s[0]] + Zeros(width - |s|) + s[1..]
    else Zeros(width - |s|) + s
  }

  /** Every character of a zfill result is a '0' or a character of the
      input; the first and last characters come from the input's first and
      last characters, or are '0'. */
  lemma ZFillChars(s: string, width: nat)
    ensures forall i :: 0 <= i < |ZFill(s, width)| ==> ZFill(s, width)[i] == '0' || ZFill(s, width)[i] in s
    ensures |s| > 0 ==> ZFill(s, width)[0] == s[0] || ZFill(s, width)[0] == '0'
    ensures |s| > 0 ==> ZFill(s, width)[|ZFill(s, width)| - 1] == s[|s| - 1]
                        || ZFill(s, width)[|ZFill(s, width)| - 1] == '0'
  {
    var r := ZFill(s, width);
    if |s| < width && |s| > 0 && IsSign(s[0]) {
      forall i | 0 <= i < |r| ensures r[i] == '0' || r[i] in s {
        if i == 0 {
        } else if i <= width - |s| {
        } else {
          assert r[i] == s[1..][i - 1 - (width - |s|)];
        }
      }
    } else if |s| < width {
      forall i | 0 <= i < |r| ensures r[i] == '0' || r[i] in s {
        if i >= |r| - |s| {
          assert r[i] == s[i - (|r| - |s|)];
        }
      }
    }
  }

  /** zfill of a digit string is a digit string ending with the input. */
  lemma ZFillDigits(s: string, width: nat)
    requires IsDigits(s)
    ensures IsDigits(ZFill(s, width))
    ensures ZFill(s, width) == Zeros(|ZFill(s, width)| - |s|) + s
  {
    var r := ZFill(s, width);
    forall i | 0 <= i < |r| ensures IsDigitChar(r[i]) {
      if i >= |r| - |s| {
        assert r[i] == s[i - (|r| - |s|)];
      }
    }
  }

  // ---------------------------------------------------------------------
  // Decimal numerals
  // ---------------------------------------------------------------------

  function Pow10(k: nat): (p: nat)
    ensures p >= 1
  {
    if k == 0 then 1 else 10 * Pow10(k - 1)
  }

  function DigitChar(d: nat): (c: char)
    requires d < 10
    ensures IsDigitChar(c)
  {
    ('0' as int + d) as char
  }

  function DigitValue(c: char): (d: nat)
    requires IsDigitChar(c)
    ensures d < 10
  {
    c as int - '0' as int
  }

  /** The value of a string of decimal digits (the empty string reads as 0);
      leading zeros do not change it. */
  function DecimalValue(s: string): nat
    requires OnlyDigits(s)
  {
    if |s| == 0 then 0
    else DecimalValue(s[..|s| - 1]) * 10 + DigitValue(s[|s| - 1])
  }

  /** `str(n)` of a natural number: decimal digits, no leading zero. */
  function Decimal(n: nat): (r: string)
    ensures IsDigits(r)
    ensures |r| == 1 || r[0] != '0'
  {
    if n < 10 then [DigitChar(n)]
    else Decimal(n / 10) + [DigitChar(n % 10)]
  }

  /** `str(n)` reads back as n. */
  lemma {:induction false} DecimalRoundTrip(n: nat)
    ensures DecimalValue(Decimal(n)) == n
  {
    if n >= 10 {
      var r := Decimal(n);
      assert r[..|r| - 1] == Decimal(n / 10);
      DecimalRoundTrip(n / 10);
    }
  }

  /** `str(n)` has at most `k` digits when n < 10^k. */
  lemma {:induction false} DecimalLength(n: nat, k: nat)
    requires 1 <= k && n < Pow10(k)
    ensures |Decimal(n)| <= k
  {
    if n >= 10 {
      DecimalLength(n / 10, k - 1);
    }
  }

  lemma OnlyDigitsAppend(a: string, b: string)
    requires OnlyDigits(a) && OnlyDigits(b)
    ensures OnlyDigits(a + b)
  {
    forall i | 0 <= i < |a + b| ensures IsDigitChar((a + b)[i]) {
      if i >= |a| { assert (a + b)[i] == b[i - |a|]; }
    }
  }

  lemma ShiftDigit(x: int, p: int, y: int, d: int)
    ensures (x * p + y) * 10 + d == x * (10 * p) + (y * 10 + d)
  {
  }

  /** Reading a concatenation of digit strings. */
  lemma {:induction false} DecimalValueAppend(a: string, b: string)
    requires OnlyDigits(a) && OnlyDigits(b)
    ensures OnlyDigits(a + b)
    ensures DecimalValue(a + b) == DecimalValue(a) * Pow10(|b|) + DecimalValue(b)
  {
    OnlyDigitsAppend(a, b);
    if |b| > 0 {
      var b' := b[..|b| - 1];
      var d := DigitValue(b[|b| - 1]);
      assert (a + b)[..|a + b| - 1] == a + b';
      assert (a + b)[|a + b| - 1] == b[|b| - 1];
      DecimalValueAppend(a, b');
      assert DecimalValue(a + b) == DecimalValue(a + b') * 10 + d;
      assert DecimalValue(b) == DecimalValue(b') * 10 + d;
      assert Pow10(|b|) == 10 * Pow10(|b'|);
      ShiftDigit(DecimalValue(a), Pow10(|b'|), DecimalValue(b'), d);
    } else {
      assert a + b == a;
    }
  }

  lemma {:induction false} DecimalValueZeros(n: nat)
    ensures OnlyDigits(Zeros(n)) && DecimalValue(Zeros(n)) == 0
  {
    if n > 0 {
      assert Zeros(n)[..n - 1] == Zeros(n - 1);
      DecimalValueZeros(n - 1);
    }
  }

  /** Zero-padding a digit string keeps its value. */
  lemma ZFillValue(s: string, width: nat)
    requires IsDigits(s)
    ensures IsDigits(ZFill(s, width)) && DecimalValue(ZFill(s, width)) == DecimalValue(s)
  {
    ZFillDigits(s, width);
    var z := Zeros(|ZFill(s, width)| - |s|);
    DecimalValueZeros(|z|);
    DecimalValueAppend(z, s);
  }

  /** `str(n).zfill(w)` reads back as n. */
  lemma PaddedDecimalRoundTrip(n: nat, width: nat)
    ensures IsDigits(ZFill(Decimal(n), width))
    ensures DecimalValue(ZFill(Decimal(n), width)) == n
  {
    ZFillValue(Decimal(n), width);
    DecimalRoundTrip(n);
  }

  /** `str(n).zfill(w)` is exactly w characters long when n < 10^w. */
  lemma PaddedDecimalLength(n: nat, width: nat)
    requires 1 <= width && n < Pow10(width)
    ensures |ZFill(Decimal(n), width)| == width
  {
    DecimalLength(n, width);
  }

  // ---------------------------------------------------------------------
  // Thousands separators: f"{n:,}"
  // ---------------------------------------------------------------------

  /** Digits of n in groups of three separated by ','. */
  function Grouped(n: nat): string {
    if n < 1000 then Decimal(n)
    else Grouped(n / 1000) + "," + ZFill(Decimal(n % 1000), 3)
  }

  /** Digits and ',' only. */
  predicate IsGroupedText(s: string) {
    forall i :: 0 <= i < |s| ==> IsDigitChar(s[i]) || s[i] == ','
  }

  lemma GroupedTextAppend(a: string, b: string)
    requires IsGroupedText(a) && IsGroupedText(b)
    ensures IsGroupedText(a + b)
  {
    forall i | 0 <= i < |a + b| ensures IsDigitChar((a + b)[i]) || (a + b)[i] == ',' {
      if i >= |a| { assert (a + b)[i] == b[i - |a|]; }
    }
  }

  /** The grouped form holds digits and separators only. */
  lemma {:induction false} GroupedChars(n: nat)
    ensures |Grouped(n)| > 0
    ensures IsGroupedText(Grouped(n))
  {
    if n >= 1000 {
      GroupedChars(n / 1000);
      var head := Grouped(n / 1000);
      var tail := ZFill(Decimal(n % 1000), 3);
      ZFillDigits(Decimal(n % 1000), 3);
      assert IsGroupedText(",");
      GroupedTextAppend(head, ",");
      GroupedTextAppend(head + ",", tail);
    }
  }

  /** One more digit at the end: `str(n)` is `str(n // 10)` and one digit. */
  lemma DecimalLengthStep(n: nat)
    requires n >= 10
    ensures |Decimal(n)| == |Decimal(n / 10)| + 1
  {
  }

  /** `str(n)` is `str(n // 1000)` and three more digits. */
  lemma DecimalLengthThousand(n: nat)
    requires n >= 1000
    ensures |Decimal(n)| == |Decimal(n / 1000)| + 3
  {
    DecimalLengthStep(n);
    DecimalLengthStep(n / 10);
    DecimalLengthStep(n / 100);
    assert n / 10 / 10 == n / 100;
    assert n / 100 / 10 == n / 1000;
  }

  /** A character is a ',' exactly when a multiple of four characters,
      counted from the end, starts there: groups of three digits from the
      right. */
  predicate CommaPlaces(g: string) {
    forall i :: 0 <= i < |g| ==> (g[i] == ',' <==> (|g| - i) % 4 == 0)
  }

  lemma CommaPlacesAppend(h: string, t: string)
    requires CommaPlaces(h) && |t| == 3 && OnlyDigits(t)
    ensures CommaPlaces(h + "," + t)
  {
    var g := h + "," + t;
    forall i | 0 <= i < |g| ensures g[i] == ',' <==> (|g| - i) % 4 == 0 {
      if i < |h| {
        assert g[i] == h[i];
        assert |g| - i == (|h| - i) + 4;
      } else if i > |h| {
        assert g[i] == t[i - |h| - 1];
      }
    }
  }

  /** Where the separators go: the grouped form of n is as long as `str(n)`
      plus one ',' per full group of three digits, and its commas stand
      between groups of three digits counted from the right. */
  lemma {:induction false} GroupedLayout(n: nat)
    ensures |Grouped(n)| == |Decimal(n)| + (|Decimal(n)| - 1) / 3
    ensures CommaPlaces(Grouped(n))
  {
    var g := Grouped(n);
    if n < 1000 {
      assert Pow10(3) == 1000;
      DecimalLength(n, 3);
      forall i | 0 <= i < |g| ensures g[i] != ',' {
        assert IsDigitChar(g[i]);
      }
    } else {
      var q := n / 1000;
      var t := ZFill(Decimal(n % 1000), 3);
      GroupedLayout(q);
      assert Pow10(3) == 1000;
      PaddedDecimalLength(n % 1000, 3);
      PaddedDecimalRoundTrip(n % 1000, 3);
      DecimalLengthThousand(n);
      var d := |Decimal(q)|;
      assert (d + 3 - 1) / 3 == (d - 1) / 3 + 1;
      CommaPlacesAppend(Grouped(q), t);
    }
  }

  /** Python's `format(n, ",")` for an integer: never empty, and signed
      with a leading '-' exactly when n is negative. */
  function Thousands(n: int): (r: string)
    ensures |r| > 0
    ensures r[0] == '-' <==> n < 0
  {
    if n < 0 then
      GroupedChars(-n);
      "-" + Grouped(-n)
    else
      GroupedChars(n);
      Grouped(n)
  }

  /** After its sign, `format(n, ",")` has the length and the comma places
      of the grouped form of |n|. */
  lemma ThousandsLayout(n: int)
    ensures var r := Thousands(n);
      var m: nat := if n < 0 then -n else n;
      var g := if n < 0 then r[1..] else r;
      && |g| == |Decimal(m)| + (|Decimal(m)| - 1) / 3
      && CommaPlaces(g)
  {
    var m: nat := if n < 0 then -n else n;
    GroupedLayout(m);
    if n < 0 {
      assert Thousands(n)[1..] == Grouped(m);
    }
  }

  function RemoveCommas(s: string): (r: string)
    ensures forall i :: 0 <= i < |r| ==> r[i] != ','
    ensures |r| <= |s|
  {
    if |s| == 0 then ""
    else if s[|s| - 1] == ',' then RemoveCommas(s[..|s| - 1])
    else RemoveCommas(s[..|s| - 1]) + [s[|s| - 1]]
  }

  lemma {:induction false} RemoveCommasAppend(a: string, b: string)
    ensures RemoveCommas(a + b) == RemoveCommas(a) + RemoveCommas(b)
  {
    if |b| > 0 {
      assert (a + b)[..|a + b| - 1] == a + b[..|b| - 1];
      RemoveCommasAppend(a, b[..|b| - 1]);
    } else {
      assert a + b == a;
    }
  }

  lemma {:induction false} RemoveCommasDigits(s: string)
    requires IsGroupedText(s)
    ensures OnlyDigits(RemoveCommas(s))
  {
    if |s| > 0 {
      RemoveCommasDigits(s[..|s| - 1]);
      var p := RemoveCommas(s[..|s| - 1]);
      if s[|s| - 1] != ',' {
        assert forall i :: 0 <= i < |p| ==> (p + [s[|s| - 1]])[i] == p[i];
      }
    }
  }

  lemma {:induction false} RemoveCommasNoop(s: string)
    requires OnlyDigits(s)
    ensures RemoveCommas(s) == s
  {
    if |s| > 0 {
      RemoveCommasNoop(s[..|s| - 1]);
      assert s == s[..|s| - 1] + [s[|s| - 1]];
    }
  }

  /** Digits and ',' only, with an optional leading '-'. */
  predicate IsThousandsText(s: string) {
    forall i :: 0 <= i < |s| ==> IsDigitChar(s[i]) || s[i] == ',' || (i == 0 && s[i] == '-')
  }

  /** Reads back a numeral written with thousands separators. */
  function ParseThousands(s: string): int
    requires IsThousandsText(s)
  {
    if |s| > 0 && s[0] == '-' then
      var t := s[1..];
      assert forall i :: 0 <= i < |t| ==> t[i] == s[i + 1];
      RemoveCommasDigits(t);
      -(DecimalValue(RemoveCommas(t)) as int)
    else
      RemoveCommasDigits(s);
      DecimalValue(RemoveCommas(s))
  }

  /** Without its separators, the grouped form of n >= 1000 is that of
      n / 1000 followed by the last three digits. */
  lemma GroupedStep(n: nat)
    requires n >= 1000
    ensures RemoveCommas(Grouped(n)) == RemoveCommas(Grouped(n / 1000)) + ZFill(Decimal(n % 1000), 3)
  {
    var head := Grouped(n / 1000);
    var tail := ZFill(Decimal(n % 1000), 3);
    ZFillDigits(Decimal(n % 1000), 3);
    RemoveCommasAppend(head + ",", tail);
    RemoveCommasAppend(head, ",");
    assert RemoveCommas(",") == "";
    RemoveCommasNoop(tail);
  }

  /** Dropping the separators from the grouped form gives back n. */
  lemma {:induction false} GroupedRoundTrip(n: nat)
    ensures OnlyDigits(RemoveCommas(Grouped(n)))
    ensures DecimalValue(RemoveCommas(Grouped(n))) == n
  {
    GroupedChars(n);
    RemoveCommasDigits(Grouped(n));
    if n < 1000 {
      RemoveCommasNoop(Decimal(n));
      DecimalRoundTrip(n);
    } else {
      var q, m := n / 1000, n % 1000;
      var tail := ZFill(Decimal(m), 3);
      GroupedRoundTrip(q);
      var h := RemoveCommas(Grouped(q));
      GroupedStep(n);
      ZFillValue(Decimal(m), 3);
      DecimalRoundTrip(m);
      assert Pow10(3) == 1000;
      PaddedDecimalLength(m, 3);
      DecimalValueAppend(h, tail);
      assert n == q * 1000 + m;
    }
  }

  /** A negative number is written as '-' and the grouped form of its
      magnitude, and reads back as itself. */
  lemma NegativeThousandsRoundTrip(m: nat)
    requires m > 0
    ensures IsThousandsText("-" + Grouped(m))
    ensures ParseThousands("-" + Grouped(m)) == -(m as int)
  {
    var g := Grouped(m);
    var t := "-" + g;
    assert t[1..] == g;
    GroupedChars(m);
    forall i | 0 <= i < |t| ensures IsDigitChar(t[i]) || t[i] == ',' || (i == 0 && t[i] == '-') {
      if i > 0 { assert t[i] == g[i - 1]; }
    }
    GroupedRoundTrip(m);
  }

  /** A non-negative number is written in grouped form and reads back as
      itself. */
  lemma GroupedParses(n: nat)
    ensures IsThousandsText(Grouped(n))
    ensures ParseThousands(Grouped(n)) == n
  {
    var g := Grouped(n);
    GroupedChars(n);
    assert g[0] != '-';
    GroupedRoundTrip(n);
  }

  /** The thousands format is read back to the same integer. */
  lemma ThousandsRoundTrip(n: int)
    ensures IsThousandsText(Thousands(n))
    ensures ParseThousands(Thousands(n)) == n
  {
    if n < 0 {
      var m: nat := -n;
      NegativeThousandsRoundTrip(m);
      assert Thousands(n) == "-" + Grouped(m);
    } else {
      GroupedParses(n);
      assert Thousands(n) == Grouped(n);
    }
  }

  // ---------------------------------------------------------------------
  // Substrings
  // ---------------------------------------------------------------------

  /** `w` occurs in `s` starting at index i. */
  predicate OccursAt(s: string, w: string, i: nat) {
    i + |w| <= |s| && s[i..i + |w|] == w
  }

  /** Python's `w in s`. */
  predicate Contains(s: string, w: string)
    ensures Contains(s, w) ==> |w| <= |s|
    ensures |w| == 0 ==> Contains(s, w)
  {
    assert |w| == 0 ==> OccursAt(s, w, 0);
    exists i: nat :: i <= |s| && OccursAt(s, w, i)
  }

  // ---------------------------------------------------------------------
  // Joining
  // ---------------------------------------------------------------------

  /** An occurrence that ends inside a is an occurrence in a + b. */
  lemma OccursPrefix(a: string, b: string, w: string, i: nat)
    requires i + |w| <= |a|
    ensures OccursAt(a + b, w, i) <==> OccursAt(a, w, i)
  {
    assert (a + b)[i..i + |w|] == a[i..i + |w|];
  }

  /** An occurrence in b at j is an occurrence in a + b at |a| + j. */
  lemma OccursShift(a: string, b: string, w: string, j: nat)
    ensures OccursAt(a + b, w, |a| + j) <==> OccursAt(b, w, j)
  {
    if j + |w| <= |b| {
      assert (a + b)[|a| + j..|a| + j + |w|] == b[j..j + |w|];
    }
  }

  /** w occurs in a + (w + b) at |a|. */
  lemma OccursMiddle(a: string, w: string, b: string)
    ensures OccursAt(a + (w + b), w, |a|)
    ensures Contains(a + (w + b), w)
  {
    SliceAfter(a, w, b);
    assert OccursAt(a + (w + b), w, |a|);
  }

  /** `"".join(parts)`: the pieces one after another. */
  function Concat(parts: seq<string>): string {
    if |parts| == 0 then "" else Concat(parts[..|parts| - 1]) + parts[|parts| - 1]
  }

  lemma {:induction false} ConcatAppend(a: seq<string>, b: seq<string>)
    ensures Concat(a + b) == Concat(a) + Concat(b)
  {
    if |b| == 0 {
      assert a + b == a;
    } else {
      var front, last := b[..|b| - 1], b[|b| - 1];
      assert (a + b)[..|a + b| - 1] == a + front;
      assert (a + b)[|a + b| - 1] == last;
      assert Concat(b) == Concat(front) + last;
      ConcatAppend(a, front);
      assert Concat(a + b) == (Concat(a) + Concat(front)) + last;
    }
  }

  lemma ConcatTake(parts: seq<string>, i: nat)
    requires i < |parts|
    ensures Concat(parts[..i + 1]) == Concat(parts[..i]) + parts[i]
  {
    assert parts[..i + 1][..i] == parts[..i];
  }

  lemma ConcatSplit(parts: seq<string>, k: nat)
    requires k <= |parts|
    ensures Concat(parts) == Concat(parts[..k]) + Concat(parts[k..])
  {
    var front, back := parts[..k], parts[k..];
    calc {
      Concat(parts);
      { assert parts == front + back; }
      Concat(front + back);
      { ConcatAppend(front, back); }
      Concat(front) + Concat(back);
    }
  }

  /** Each piece sits in the joined text between the pieces before it and
      the pieces after it. */
  lemma ConcatAt(parts: seq<string>, i: nat)
    requires i < |parts|
    ensures Concat(parts) == Concat(parts[..i]) + parts[i] + Concat(parts[i + 1..])
  {
    ConcatSplit(parts, i + 1);
    ConcatTake(parts, i);
  }

  /** The middle piece of `a + (x + b)` sits at offset |a|. */
  lemma SliceAfter(a: string, x: string, b: string)
    ensures |a + (x + b)| == |a| + |x| + |b|
    ensures (a + (x + b))[|a|..|a| + |x|] == x
  {
    var s := a + (x + b);
    assert forall k :: 0 <= k < |x| ==> s[|a|..|a| + |x|][k] == x[k];
  }

  /** In `a + (x + (b + (y + c)))`, x sits at offset |a| and y at offset
      |a| + |x| + |b|. */
  lemma SliceTwo(a: string, x: string, b: string, y: string, c: string)
    ensures var s := a + (x + (b + (y + c)));
      && |s| == |a| + |x| + |b| + |y| + |c|
      && s[|a|..|a| + |x|] == x
      && s[|a| + |x| + |b|..|a| + |x| + |b| + |y|] == y
  {
    SliceAfter(a, x, b + (y + c));
    assert a + (x + (b + (y + c))) == (a + x + b) + (y + c);
    SliceAfter(a + x + b, y, c);
  }

  /** The prefix of `a + b` of length |a| is a, and the rest is b. */
  lemma SliceSplit(a: string, b: string)
    ensures (a + b)[..|a|] == a && (a + b)[|a|..] == b
  {
  }

  /** Piece i of a join starts where the join of the pieces before it ends. */
  lemma ConcatPiece(parts: seq<string>, i: nat)
    requires i < |parts|
    ensures |Concat(parts[..i])| + |parts[i]| == |Concat(parts[..i + 1])|
    ensures |Concat(parts[..i])| + |parts[i]| <= |Concat(parts)|
    ensures Concat(parts)[|Concat(parts[..i])|..|Concat(parts[..i])| + |parts[i]|] == parts[i]
  {
    ConcatTake(parts, i);
    ConcatAt(parts, i);
    var a, b := Concat(parts[..i]), Concat(parts[i + 1..]);
    assert a + parts[i] + b == a + (parts[i] + b);
    SliceAfter(a, parts[i], b);
  }

  /** The join of eleven pieces. */
  lemma Concat11(a0: string, a1: string, a2: string, a3: string, a4: string, a5: string,
                 a6: string, a7: string, a8: string, a9: string, a10: string)
    ensures Concat([a0, a1, a2, a3, a4, a5, a6, a7, a8, a9, a10])
            == a0 + a1 + a2 + a3 + a4 + a5 + a6 + a7 + a8 + a9 + a10
  {
    var s := [a0, a1, a2, a3, a4, a5, a6, a7, a8, a9, a10];
    assert s[..0] == [];
    ConcatTake(s, 0);
    ConcatTake(s, 1);
    ConcatTake(s, 2);
    ConcatTake(s, 3);
    ConcatTake(s, 4);
    ConcatTake(s, 5);
    ConcatTake(s, 6);
    ConcatTake(s, 7);
    ConcatTake(s, 8);
    ConcatTake(s, 9);
    ConcatTake(s, 10);
    assert s[..11] == s;
  }
}
