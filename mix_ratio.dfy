/**
 * The `leftPct` form field: read with default "50", parsed as a decimal
 * integer, clamped to [0, 100]; a value that does not parse gives 50
 * (project.py:61-65).
 */
module MixRatio {
  import opened Wrappers

  /** The value of an ASCII decimal digit. */
  function DigitValue(c: char): (d: nat)
    requires '0' <= c <= '9'
    ensures d < 10
  {
    c as int - '0' as int
  }

  /** The digit character for `d`. */
  function DigitChar(d: nat): (c: char)
    requires d < 10
    ensures '0' <= c <= '9' && DigitValue(c) == d
  {
    (d + '0' as int) as char
  }

  predicate AllDigits(s: string) {
    forall i :: 0 <= i < |s| ==> '0' <= s[i] <= '9'
  }

  /** The value of a string of decimal digits, most significant first. */
  function DigitsValue(s: string): (n: nat)
    requires AllDigits(s)
    ensures |s| > 0 && s[0] == '0' ==> n == DigitsValue(s[1..])
  {
    if |s| == 0 then 0
    else
      var init := s[..|s| - 1];
      assert AllDigits(init) by {
        forall i | 0 <= i < |init| ensures '0' <= init[i] <= '9' {
          assert init[i] == s[i];
        }
      }
      var n := DigitsValue(init) * 10 + DigitValue(s[|s| - 1]);
      assert |s| > 0 && s[0] == '0' ==> n == DigitsValue(s[1..]) by {
        if |s| > 1 && s[0] == '0' {
          assert init[1..] == s[1..][..|s| - 2];
          assert s[1..][|s| - 2] == s[|s| - 1];
        }
      }
      n
  }

  /** Text `int()` accepts here: digits, or a '+' or '-' followed by at least one digit. */
  predicate IsIntText(text: string) {
    |text| > 0 &&
    (AllDigits(text) || ((text[0] == '+' || text[0] == '-') && |text| > 1 && AllDigits(text[1..])))
  }

  /**
   * `int(text)` for an optional '+' or '-' followed by one or more ASCII
   * digits; anything else raises ValueError, here `None`.
   */
  function ParseInt(text: string): (r: Option<int>)
    ensures r.None? <==> !IsIntText(text)
    ensures |text| > 0 && AllDigits(text) ==> r == Some(DigitsValue(text))
    ensures IsIntText(text) && text[0] == '-' ==> r == Some(-(DigitsValue(text[1..]) as int))
    ensures IsIntText(text) && text[0] == '+' ==> r == Some(DigitsValue(text[1..]) as int)
  {
    if |text| > 0 && (text[0] == '+' || text[0] == '-') then
      var body := text[1..];
      if |body| > 0 && AllDigits(body) then
        var v: int := DigitsValue(body);
        Some(if text[0] == '-' then -v else v)
      else None
    else if |text| > 0 && AllDigits(text) then Some(DigitsValue(text))
    else None
  }

  /** The decimal rendering of `n`, without a sign or leading zeros. */
  function FormatNat(n: nat): (s: string)
    ensures |s| > 0 && AllDigits(s)
    ensures |s| > 1 ==> s[0] != '0'
  {
    if n < 10 then [DigitChar(n)]
    else
      var s := FormatNat(n / 10) + [DigitChar(n % 10)];
      assert s[0] == FormatNat(n / 10)[0];
      s
  }

  /** The decimal rendering of `n` with '-' for negatives, as `str(n)` gives it. */
  function FormatInt(n: int): (s: string)
    ensures |s| > 0
  {
    if n < 0 then "-" + FormatNat(-n) else FormatNat(n)
  }

  /** Digits read back what `FormatNat` wrote. */
  lemma {:induction false} DigitsValueFormatNat(n: nat)
    ensures DigitsValue(FormatNat(n)) == n
  {
    var s := FormatNat(n);
    if n >= 10 {
      DigitsValueFormatNat(n / 10);
      assert s[..|s| - 1] == FormatNat(n / 10);
    }
  }

  /** Parsing what `str` prints gives back the integer. */
  lemma ParseFormatRoundTrip(n: int)
    ensures ParseInt(FormatInt(n)) == Some(n)
  {
    if n < 0 {
      DigitsValueFormatNat(-n);
      assert FormatInt(n)[1..] == FormatNat(-n);
    } else {
      DigitsValueFormatNat(n);
    }
  }

  /** `max(0, min(100, n))` */
  function Clamp(n: int): (r: int)
    ensures 0 <= r <= 100
    ensures 0 <= n <= 100 ==> r == n
    ensures n > 100 ==> r == 100
    ensures n < 0 ==> r == 0
  {
    if n < 0 then 0 else if n > 100 then 100 else n
  }

  /** The clamp applied to a parse result, with 50 for a failed parse. */
  function NormalizeRatio(parsed: Option<int>): (r: int)
    ensures 0 <= r <= 100
    ensures parsed.None? ==> r == 50
    ensures parsed.Some? && 0 <= parsed.value <= 100 ==> r == parsed.value
    ensures parsed.Some? && parsed.value > 100 ==> r == 100
    ensures parsed.Some? && parsed.value < 0 ==> r == 0
  {
    match parsed
    case None => 50
    case Some(n) => Clamp(n)
  }

  /** The ratio the endpoint derives from the form value `request.form.get('leftPct', '50')`. */
  function LeftPct(field: Option<string>): (r: int)
    ensures 0 <= r <= 100
    ensures field.None? ==> r == 50
  {
    var r := NormalizeRatio(ParseInt(field.GetOr("50")));
    assert field.None? ==> r == 50 by {
      if field.None? {
        assert "50"[0] == '5' && "50"[1] == '0';
        ParseFormatRoundTrip(50);
        assert FormatInt(50) == "50";
      }
    }
    r
  }

  /** Normalising an already normalised ratio changes nothing. */
  lemma NormalizeRatioIdempotent(parsed: Option<int>)
    ensures NormalizeRatio(Some(NormalizeRatio(parsed))) == NormalizeRatio(parsed)
  {
  }

  /** Every ratio in [0, 100] written in decimal reaches the blend unchanged. */
  lemma LeftPctInRange(n: int)
    requires 0 <= n <= 100
    ensures LeftPct(Some(FormatInt(n))) == n
  {
    ParseFormatRoundTrip(n);
  }

  /** Any integer text decides the ratio by the clamp alone. */
  lemma LeftPctOfInteger(n: int)
    ensures LeftPct(Some(FormatInt(n))) == Clamp(n)
  {
    ParseFormatRoundTrip(n);
  }

  /** Every text `int()` refuses falls back to 50. */
  lemma LeftPctNonInteger(text: string)
    requires !IsIntText(text)
    ensures LeftPct(Some(text)) == 50
  {
  }

  /** Signed text with leading zeros, or with '+', is read by its digits: "-05" is 0, "+7" is 7. */
  lemma LeftPctSigned()
    ensures LeftPct(Some("-05")) == 0
    ensures LeftPct(Some("+7")) == 7
    ensures LeftPct(Some("5x")) == 50 && LeftPct(Some("-")) == 50 && LeftPct(Some("1.5")) == 50
  {
    assert "-05"[1..] == "05" && AllDigits("05");
    assert "+7"[1..] == "7" && AllDigits("7");
    assert DigitsValue("7") == 7 by { assert "7"[..0] == ""; }
    assert !AllDigits("5x") by { assert "5x"[1] == 'x'; }
    assert !AllDigits("1.5") by { assert "1.5"[1] == '.'; }
    assert !AllDigits("-") by { assert "-"[0] == '-'; }
  }

  /** "150" behaves as 100. */
  lemma LeftPctAbove()
    ensures LeftPct(Some("150")) == 100
  {
    LeftPctOfInteger(150);
    assert FormatInt(150) == "150";
  }

  /** "-10" behaves as 0. */
  lemma LeftPctBelow()
    ensures LeftPct(Some("-10")) == 0
  {
    LeftPctOfInteger(-10);
    assert FormatInt(-10) == "-10";
  }

  /** "abc" and an empty value fall back to 50. */
  lemma LeftPctUnparsable()
    ensures LeftPct(Some("abc")) == 50
    ensures LeftPct(Some("")) == 50
  {
    assert !AllDigits("abc") by { assert !('0' <= "abc"[0] <= '9'); }
  }
}
