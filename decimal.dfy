/** Decimal text for times in thumbnail/views.py: the two-decimal `:.2f`
    formatting of the screenshot time, and the subset of Python's `float()`
    that reads plain decimal numerals back. */
module Decimal {
  import opened Wrappers

  predicate IsDigit(c: char)
  {
    '0' <= c <= '9'
  }

  predicate AllDigits(s: string)
  {
    forall i :: 0 <= i < |s| ==> IsDigit(s[i])
  }

  /** The characters a numeral accepted by `ParseNumber` is made of. */
  predicate IsNumeralChar(c: char)
  {
    IsDigit(c) || c == '.' || c == '+' || c == '-'
  }

  function DigitValue(c: char): nat
    requires IsDigit(c)
  {
    c as nat - '0' as nat
  }

  function DigitChar(d: nat): (c: char)
    requires d < 10
    ensures IsDigit(c) && DigitValue(c) == d
  {
    ('0' as nat + d) as char
  }

  /** The number a string of decimal digits denotes (most significant first). */
  function DigitsValue(s: string): nat
    requires AllDigits(s)
  {
    if s == [] then 0 else DigitsValue(s[..|s| - 1]) * 10 + DigitValue(s[|s| - 1])
  }

  function Pow10(k: nat): (p: nat)
    ensures p >= 1
  {
    if k == 0 then 1 else 10 * Pow10(k - 1)
  }

  /** Decimal digits of `n` without leading zeros, as `str(n)` writes them. */
  function NatToDigits(n: nat): (s: string)
    ensures |s| >= 1 && AllDigits(s)
    ensures DigitsValue(s) == n
    ensures s[0] == '0' ==> n == 0
    ensures n == 0 ==> s == "0"
    decreases n
  {
    if n < 10 then [DigitChar(n)]
    else
      var s := NatToDigits(n / 10) + [DigitChar(n % 10)];
      assert s[..|s| - 1] == NatToDigits(n / 10);
      s
  }

  /** The two digits after the dot for `frac` hundredths (`frac < 100`). */
  function TwoDigits(frac: nat): string
    requires frac < 100
  {
    [DigitChar(frac / 10), DigitChar(frac % 10)]
  }

  /** Unsigned `:.2f` text for `m` hundredths: the whole part, a dot and
      exactly two digits. */
  function FixedBody(m: nat): string
  {
    NatToDigits(m / 100) + "." + TwoDigits(m % 100)
  }

  /** The magnitude of `h`. */
  function Magnitude(h: int): nat
  {
    if h < 0 then -h else h
  }

  /** `f'{t:.2f}'` for the time `h` hundredths of a second: a minus sign for a
      negative time, then `FixedBody` of its magnitude. The text is made of
      digits, one sign and one dot, and ends in a dot and exactly two digits. */
  function FormatFixed2(h: int): (s: string)
    ensures forall i :: 0 <= i < |s| ==> IsNumeralChar(s[i])
    ensures |s| >= 4 && s[|s| - 3] == '.' && IsDigit(s[|s| - 2]) && IsDigit(s[|s| - 1])
    ensures s[0] == '-' <==> h < 0
  {
    if h < 0 then "-" + FixedBody(Magnitude(h)) else FixedBody(h)
  }

  /** The two-decimal rounding of `:.2f`, as a whole number of hundredths:
      the nearest one, with a tie going up. */
  function RoundHundredths(t: real): (h: int)
    ensures (h as real) - 0.5 <= t * 100.0 < (h as real) + 0.5
    ensures t - 0.005 < (h as real) / 100.0 <= t + 0.005
  {
    (t * 100.0 + 0.5).Floor
  }

  /** Index of the first `c` in `s`. */
  function IndexOf(s: string, c: char): (k: nat)
    requires c in s
    ensures k < |s| && s[k] == c && c !in s[..k]
  {
    if s[0] == c then 0 else 1 + IndexOf(s[1..], c)
  }

  /** The value of the numeral `whole.frac`. */
  function NumeralValue(whole: string, frac: string): real
    requires AllDigits(whole) && AllDigits(frac)
  {
    DigitsValue(whole) as real + DigitsValue(frac) as real / Pow10(|frac|) as real
  }

  /** `v` with the sign `sign` ("", "+" or "-") applied. */
  function Signed(sign: string, v: real): real
  {
    if sign == "-" then -v else v
  }

  /** The unsigned numerals: only digits and dots, at most one dot, and at
      least one digit ("12", "12.5", "12.", ".5"; not ".", "1.2.3", ""). */
  predicate IsUnsignedNumeral(s: string)
  {
    (forall i :: 0 <= i < |s| ==> IsDigit(s[i]) || s[i] == '.') &&
    (forall i, j :: 0 <= i < j < |s| && s[i] == '.' ==> s[j] != '.') &&
    (exists i :: 0 <= i < |s| && IsDigit(s[i]))
  }

  /** The numerals `ParseNumber` accepts: an unsigned numeral, possibly after
      one `+` or `-`. */
  predicate IsNumeral(s: string)
  {
    IsUnsignedNumeral(s) || (|s| > 0 && (s[0] == '+' || s[0] == '-') && IsUnsignedNumeral(s[1..]))
  }

  /** An unsigned numeral: digits, or digits and a dot and digits, with at
      least one digit on one side of the dot. */
  function ParseUnsigned(s: string): (r: Option<real>)
    ensures r.Some? ==> r.value >= 0.0
  {
    if '.' in s then
      var k := IndexOf(s, '.');
      var whole, frac := s[..k], s[k + 1..];
      if |whole| + |frac| > 0 && AllDigits(whole) && AllDigits(frac) then
        Some(NumeralValue(whole, frac))
      else None
    else if |s| > 0 && AllDigits(s) then Some(DigitsValue(s) as real)
    else None
  }

  /** `float(s)` on a plain decimal numeral with an optional sign; any other
      text is a `ValueError`, here `None`. */
  function ParseNumber(s: string): (r: Option<real>)
    ensures s == "" ==> r.None?
    ensures |s| > 0 && AllDigits(s) ==> r == Some(DigitsValue(s) as real)
  {
    if |s| > 0 && (s[0] == '-' || s[0] == '+') then
      match ParseUnsigned(s[1..])
      case None => None
      case Some(v) =>
        Some(if s[0] == '-' then -v else v)
    else ParseUnsigned(s)
  }

  /** `ParseUnsigned` accepts exactly the unsigned numerals. */
  lemma {:induction false} ParseUnsignedAccepts(s: string)
    ensures ParseUnsigned(s).Some? <==> IsUnsignedNumeral(s)
  {
    if '.' in s {
      var k := IndexOf(s, '.');
      var whole, frac := s[..k], s[k + 1..];
      assert forall i :: 0 <= i < |frac| ==> frac[i] == s[k + 1 + i];
      assert forall i :: 0 <= i < |whole| ==> whole[i] == s[i];
      if ParseUnsigned(s).Some? {
        if |whole| > 0 {
          assert IsDigit(s[0]);
        } else {
          assert IsDigit(s[k + 1]);
        }
      }
    } else {
      if IsUnsignedNumeral(s) {
        assert AllDigits(s) by {
          forall i | 0 <= i < |s| ensures IsDigit(s[i]) {
            assert s[i] in s;
          }
        }
      }
      if ParseUnsigned(s).Some? {
        assert IsDigit(s[0]);
      }
    }
  }

  /** `ParseNumber` accepts exactly the numerals: every other string is a
      `ValueError` (for instance "", ".", "1.2.3", "+-1", "12a"). */
  lemma {:induction false} ParseNumberAccepts(s: string)
    ensures ParseNumber(s).Some? <==> IsNumeral(s)
  {
    ParseUnsignedAccepts(s);
    if |s| > 0 {
      ParseUnsignedAccepts(s[1..]);
      if s[0] == '-' || s[0] == '+' {
        assert !IsUnsignedNumeral(s) by {
          assert !(IsDigit(s[0]) || s[0] == '.');
        }
      }
    }
  }

  /** A numeral is made of digits, signs and dots only. */
  lemma NumeralChars(s: string)
    requires IsNumeral(s)
    ensures forall i :: 0 <= i < |s| ==> IsNumeralChar(s[i])
  {
    if !IsUnsignedNumeral(s) {
      assert forall i :: 1 <= i < |s| ==> s[i] == s[1..][i - 1];
    }
  }

  /** `ParseUnsigned` reads `whole.frac` as its value. */
  lemma {:induction false} ParseUnsignedFraction(whole: string, frac: string)
    requires AllDigits(whole) && AllDigits(frac) && |whole| + |frac| > 0
    ensures ParseUnsigned(whole + "." + frac) == Some(NumeralValue(whole, frac))
  {
    var body := whole + "." + frac;
    assert '.' in body && IndexOf(body, '.') == |whole| by {
      assert body[|whole|] == '.';
      forall i | 0 <= i < |whole| ensures body[i] != '.' {
        assert IsDigit(whole[i]);
      }
      IndexOfFirst(body, '.', |whole|);
    }
    assert body[..|whole|] == whole && body[|whole| + 1..] == frac;
  }

  /** A minus sign in front of an unsigned numeral negates its value. */
  lemma ParseNegative(body: string)
    requires |body| > 0 && (IsDigit(body[0]) || body[0] == '.')
    requires ParseUnsigned(body).Some?
    ensures ParseNumber("-" + body) == Some(-ParseUnsigned(body).value)
  {
    assert ("-" + body)[0] == '-' && ("-" + body)[1..] == body;
  }

  /** A plus sign in front of an unsigned numeral leaves its value. */
  lemma ParsePositive(body: string)
    requires |body| > 0 && (IsDigit(body[0]) || body[0] == '.')
    requires ParseUnsigned(body).Some?
    ensures ParseNumber("+" + body) == ParseUnsigned(body)
  {
    assert ("+" + body)[0] == '+' && ("+" + body)[1..] == body;
  }

  /** A sign in front of an unsigned numeral applies to its value. */
  lemma ParseSigned(sign: string, body: string)
    requires sign == "" || sign == "+" || sign == "-"
    requires |body| > 0 && (IsDigit(body[0]) || body[0] == '.')
    requires ParseUnsigned(body).Some?
    ensures ParseNumber(sign + body) == Some(Signed(sign, ParseUnsigned(body).value))
  {
    if sign == "-" {
      ParseNegative(body);
    } else if sign == "+" {
      ParsePositive(body);
    } else {
      assert sign + body == body;
    }
  }

  /** The value of a fractional numeral `sign whole.frac`. */
  lemma ParseFractionValue(sign: string, whole: string, frac: string)
    requires sign == "" || sign == "+" || sign == "-"
    requires AllDigits(whole) && AllDigits(frac) && |whole| + |frac| > 0
    ensures ParseNumber(sign + (whole + "." + frac)) == Some(Signed(sign, NumeralValue(whole, frac)))
  {
    var body := whole + "." + frac;
    ParseUnsignedFraction(whole, frac);
    assert body[0] == if |whole| > 0 then whole[0] else '.';
    assert |whole| > 0 ==> IsDigit(whole[0]);
    ParseSigned(sign, body);
  }

  /** The value of a whole numeral `sign digits`. */
  lemma {:induction false} ParseIntegerValue(sign: string, digits: string)
    requires sign == "" || sign == "+" || sign == "-"
    requires |digits| > 0 && AllDigits(digits)
    ensures ParseNumber(sign + digits) == Some(Signed(sign, DigitsValue(digits) as real))
  {
    assert '.' !in digits by {
      forall i | 0 <= i < |digits| ensures digits[i] != '.' {
        assert IsDigit(digits[i]);
      }
    }
    ParseSigned(sign, digits);
  }

  /** The two digits after the dot denote the number of hundredths. */
  lemma {:induction false} TwoDigitsValue(frac: nat)
    requires frac < 100
    ensures AllDigits(TwoDigits(frac)) && DigitsValue(TwoDigits(frac)) == frac
  {
    var hi := [DigitChar(frac / 10)];
    var two := hi + [DigitChar(frac % 10)];
    assert two[..1] == hi && hi[..0] == [];
    assert DigitsValue(hi) == DigitValue(DigitChar(frac / 10)) == frac / 10;
    assert DigitsValue(two) == DigitsValue(hi) * 10 + DigitValue(DigitChar(frac % 10));
    assert two == TwoDigits(frac);
  }

  /** The numeral `FixedBody` writes for `m` hundredths has the value `m / 100`. */
  lemma {:induction false} FixedBodyValue(m: nat)
    ensures AllDigits(TwoDigits(m % 100))
    ensures NumeralValue(NatToDigits(m / 100), TwoDigits(m % 100)) == m as real / 100.0
  {
    TwoDigitsValue(m % 100);
    assert Pow10(2) == 100;
    assert m == (m / 100) * 100 + m % 100;
    assert (m as real) / 100.0 == ((m / 100) as real) + ((m % 100) as real) / 100.0;
  }

  /** `FixedBody` reads back as `m / 100`. */
  lemma {:induction false} FixedBodyParses(m: nat)
    ensures ParseUnsigned(FixedBody(m)) == Some(m as real / 100.0)
  {
    FixedBodyValue(m);
    ParseUnsignedFraction(NatToDigits(m / 100), TwoDigits(m % 100));
  }

  /** A minus sign and `FixedBody` of the magnitude of a negative time `h`
      read back as `h`. */
  lemma NegativeFixedBodyParses(h: int)
    requires h < 0
    ensures ParseNumber("-" + FixedBody(Magnitude(h))) == Some(h as real / 100.0)
  {
    var body := FixedBody(Magnitude(h));
    FixedBodyParses(Magnitude(h));
    assert body[0] == NatToDigits(Magnitude(h) / 100)[0];
    ParseNegative(body);
  }

  /** The text `FormatFixed2` writes for a negative time reads back as that time. */
  lemma FormatThenParseNegative(h: int)
    requires h < 0
    ensures ParseNumber(FormatFixed2(h)) == Some(h as real / 100.0)
  {
    NegativeFixedBodyParses(h);
  }

  /** The text `FormatFixed2` writes for a time that is not negative reads back as that time. */
  lemma FormatThenParseNonNegative(h: int)
    requires h >= 0
    ensures ParseNumber(FormatFixed2(h)) == Some(h as real / 100.0)
  {
    var body := FixedBody(h);
    FixedBodyParses(h);
    assert body[0] == NatToDigits(h / 100)[0];
    assert FormatFixed2(h) == body;
  }

  /** Reading back what `FormatFixed2` wrote gives the time it was given. */
  lemma FormatThenParse(h: int)
    ensures ParseNumber(FormatFixed2(h)) == Some(h as real / 100.0)
  {
    if h < 0 {
      FormatThenParseNegative(h);
    } else {
      FormatThenParseNonNegative(h);
    }
  }

  /** `IndexOf` finds the first occurrence: none lies before index `k`. */
  lemma IndexOfFirst(s: string, c: char, k: nat)
    requires k < |s| && s[k] == c && forall i :: 0 <= i < k ==> s[i] != c
    ensures c in s && IndexOf(s, c) == k
  {
    // Dafny's automatic induction on `s` suffices
  }
}
