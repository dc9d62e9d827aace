/**
 * The join key between the population table and the AGEB polygons:
 * the AGEB code normaliser `format_ageb` and the CVEGEO key built from the
 * entity, municipality, locality and AGEB columns.
 */
module Ageb {
  import opened PyStr

  /** `str(v).strip().upper()`, the first step of `format_ageb`. */
  function Normalize(raw: string): (s: string)
    ensures |s| <= |raw|
    ensures NoLower(s)
    ensures |s| > 0 ==> !IsSpace(s[0]) && !IsSpace(s[|s| - 1])
    ensures IsAscii(raw) ==> IsAscii(s)
    ensures (NoLower(raw) && (|raw| == 0 || (!IsSpace(raw[0]) && !IsSpace(raw[|raw| - 1])))) ==> s == raw
  {
    StripChars(raw);
    Upper(Strip(raw))
  }

  /** A letter followed by one or more digits, such as "A12". */
  predicate IsLetterCode(s: string) {
    |s| > 0 && IsAlphaChar(s[0]) && IsDigits(s[1..])
  }

  /** The case split of `format_ageb`, applied to the normalised text `s`:
      a blank or "NAN" becomes "0000"; a numeric code is zero-padded to four
      digits; a letter followed by digits keeps the letter and pads the
      digits to three; anything else goes through `zfill(4)`. */
  function FormatCode(s: string): (r: string)
    ensures |r| == Max(4, |s|)
    ensures (s == "" || s == "NAN") ==> r == "0000"
    ensures IsDigits(s) ==> r == Zeros(|r| - |s|) + s
    ensures IsLetterCode(s) ==> r == [s[0]] + Zeros(|r| - |s|) + s[1..]
    ensures s != "" && s != "NAN" && !IsDigits(s) && !IsLetterCode(s) ==> r == ZFill(s, 4)
  {
    if s == "NAN" || s == "" then
      assert s == "" || (!IsDigitChar(s[0]) && !IsDigitChar(s[1..][0]));
      "0000"
    else if IsDigits(s) then
      ZFillDigits(s, 4);
      ZFill(s, 4)
    else if |s| > 0 && IsAlphaChar(s[0]) && IsDigits(s[1..]) then
      ZFillDigits(s[1..], 3);
      [s[0]] + ZFill(s[1..], 3)
    else
      ZFill(s, 4)
  }

  /** `format_ageb`, for ASCII input: normalise, then split on the shape
      of the code. */
  function FormatAgeb(raw: string): (r: string)
    requires IsAscii(raw)
    ensures |r| >= 4
    ensures IsAscii(r)
    ensures r == FormatCode(Normalize(raw))
  {
    var s := Normalize(raw);
    FormatCodeChars(s);
    FormatCode(s)
  }

  /** Every character of a formatted code is a '0' or comes from the
      normalised input; its first and last characters are not whitespace
      when the input's are not. */
  lemma FormatCodeChars(s: string)
    ensures forall i :: 0 <= i < |FormatCode(s)| ==> FormatCode(s)[i] == '0' || FormatCode(s)[i] in s
    ensures (|s| == 0 || (!IsSpace(s[0]) && !IsSpace(s[|s| - 1]))) ==>
              !IsSpace(FormatCode(s)[0]) && !IsSpace(FormatCode(s)[|FormatCode(s)| - 1])
  {
    var r := FormatCode(s);
    if s == "" || s == "NAN" {
    } else if IsDigits(s) {
      ZFillChars(s, 4);
    } else if IsLetterCode(s) {
      var d := ZFill(s[1..], 3);
      assert r == [s[0]] + d;
      ZFillChars(s[1..], 3);
      forall i | 0 <= i < |r| ensures r[i] == '0' || r[i] in s {
        if i > 0 {
          assert r[i] == d[i - 1];
          if r[i] != '0' {
            var j :| 0 <= j < |s[1..]| && s[1..][j] == r[i];
            assert s[j + 1] == r[i];
          }
        }
      }
      assert r[|r| - 1] == d[|d| - 1];
    } else {
      ZFillChars(s, 4);
    }
  }

  /** A code of four or more characters is its own format: every branch
      leaves it unchanged. */
  lemma FormatCodeFixes(t: string)
    requires |t| >= 4
    ensures FormatCode(t) == t
  {
    if IsLetterCode(t) {
      assert t == [t[0]] + t[1..];
    }
  }

  /** A code that came out of `format_ageb` is left as it is by a second
      pass: the normaliser is idempotent. */
  lemma FormatAgebIdempotent(raw: string)
    requires IsAscii(raw)
    ensures FormatAgeb(FormatAgeb(raw)) == FormatAgeb(raw)
  {
    var s := Normalize(raw);
    var r := FormatAgeb(raw);
    FormatCodeChars(s);
    assert NoLower(r) by {
      forall i | 0 <= i < |r| ensures !IsLowerChar(r[i]) {
        assert r[i] == '0' || r[i] in s;
      }
    }
    assert Normalize(r) == r;
    FormatCodeFixes(r);
  }

  /** A lone letter is not a letter code: it goes through `zfill(4)`. */
  lemma LoneLetterExample()
    ensures FormatCode("A") == "000A"
  {
    assert !IsDigitChar("A"[0]);
    assert |"A"[1..]| == 0;
    assert ZFill("A", 4) == Zeros(3) + "A";
  }

  /** A letter and one digit keep the letter and pad the digit to three. */
  lemma LetterCodeExample()
    ensures FormatCode("A7") == "A007"
  {
    assert "A7"[1..] == "7";
    assert IsLetterCode("A7");
    assert ZFill("7", 3) == Zeros(2) + "7";
  }

  /** Padding a short code that is not all digits still leaves a non-digit
      in it, and puts a '0' or a sign in front. */
  lemma NotDigitsAfterPadding(s: string)
    requires 0 < |s| < 4 && !IsDigits(s)
    ensures !IsDigits(ZFill(s, 4))
    ensures ZFill(s, 4)[0] == '0' || IsSign(ZFill(s, 4)[0])
  {
    var r := ZFill(s, 4);
    if IsSign(s[0]) {
      assert r[0] == s[0];
    } else {
      var j :| 0 <= j < |s| && !IsDigitChar(s[j]);
      assert r == Zeros(4 - |s|) + s;
      assert r[4 - |s| + j] == s[j];
      assert r[0] == '0';
    }
  }

  /** The CVEGEO key: entity, municipality and locality zero-padded to
      2, 3 and 4 digits, followed by the formatted AGEB code. */
  function Cvegeo(ent: nat, mun: nat, loc: nat, ageb: string): (key: string)
    requires IsAscii(ageb)
    ensures |key| >= 13
  {
    ZFill(Decimal(ent), 2) + ZFill(Decimal(mun), 3) + ZFill(Decimal(loc), 4) + FormatAgeb(ageb)
  }

  /** With codes in range and a four-character AGEB code, the key is 13
      characters long and its slices at offsets 2, 5 and 9 give back the
      padded parts, which read back as the original numbers. */
  lemma CvegeoSplit(ent: nat, mun: nat, loc: nat, ageb: string)
    requires IsAscii(ageb)
    requires ent < 100 && mun < 1000 && loc < 10000 && |FormatAgeb(ageb)| == 4
    ensures |Cvegeo(ent, mun, loc, ageb)| == 13
    ensures Cvegeo(ent, mun, loc, ageb)[..2] == ZFill(Decimal(ent), 2)
    ensures Cvegeo(ent, mun, loc, ageb)[2..5] == ZFill(Decimal(mun), 3)
    ensures Cvegeo(ent, mun, loc, ageb)[5..9] == ZFill(Decimal(loc), 4)
    ensures Cvegeo(ent, mun, loc, ageb)[9..] == FormatAgeb(ageb)
    ensures IsDigits(Cvegeo(ent, mun, loc, ageb)[..9])
    ensures IsDigits(Cvegeo(ent, mun, loc, ageb)[..2]) && DecimalValue(Cvegeo(ent, mun, loc, ageb)[..2]) == ent
    ensures IsDigits(Cvegeo(ent, mun, loc, ageb)[2..5]) && DecimalValue(Cvegeo(ent, mun, loc, ageb)[2..5]) == mun
    ensures IsDigits(Cvegeo(ent, mun, loc, ageb)[5..9]) && DecimalValue(Cvegeo(ent, mun, loc, ageb)[5..9]) == loc
  {
    var e, m, l := ZFill(Decimal(ent), 2), ZFill(Decimal(mun), 3), ZFill(Decimal(loc), 4);
    assert Pow10(2) == 100 && Pow10(3) == 1000 && Pow10(4) == 10000;
    PaddedDecimalLength(ent, 2);
    PaddedDecimalLength(mun, 3);
    PaddedDecimalLength(loc, 4);
    PaddedDecimalRoundTrip(ent, 2);
    PaddedDecimalRoundTrip(mun, 3);
    PaddedDecimalRoundTrip(loc, 4);
    FourParts(e, m, l, FormatAgeb(ageb));
    OnlyDigitsAppend(e, m);
    OnlyDigitsAppend(e + m, l);
  }

  /** The slices of a key made of parts 2, 3 and 4 characters long. */
  lemma FourParts(e: string, m: string, l: string, a: string)
    requires |e| == 2 && |m| == 3 && |l| == 4
    ensures var key := e + m + l + a;
      && |key| == 9 + |a|
      && key[..9] == e + m + l
      && key[..2] == e && key[2..5] == m && key[5..9] == l && key[9..] == a
  {
    var prefix := e + m + l;
    assert (prefix + a)[..9] == prefix;
    assert prefix[..2] == e;
    assert prefix[2..5] == m;
    assert prefix[5..9] == l;
  }
}
