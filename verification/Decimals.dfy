/** Decimal digits: `str(int)`, `int(str)`, and Python's `Decimal` to and from text. */
module Decimals {
  import opened Text
  import opened Numerals

  function DigitChar(d: nat): char
    requires d < 10
  {
    ('0' as int + d) as char
  }

  function DigitVals(s: string): (ds: seq<nat>)
    requires AllDigits(s)
    ensures |ds| == |s|
    ensures forall i | 0 <= i < |ds| :: ds[i] < 10
  {
    seq(|s|, i requires 0 <= i < |s| => s[i] as int - '0' as int)
  }

  /** The number a string of digits spells. */
  function NatValue(s: string): nat
    requires AllDigits(s)
  {
    Value(DigitVals(s), 10)
  }

  /** `str(n)` */
  function NatText(n: nat): (s: string)
    ensures s != "" && AllDigits(s)
  {
    if n < 10 then [DigitChar(n)] else NatText(n / 10) + [DigitChar(n % 10)]
  }

  function IntText(n: int): string {
    if n < 0 then "-" + NatText(-n) else NatText(n)
  }

  function Zeros(n: nat): (s: string)
    ensures |s| == n && AllDigits(s)
  {
    seq(n, _ => '0')
  }

  lemma NatValueSnoc(s: string, c: char)
    requires AllDigits(s) && IsDigit(c)
    ensures AllDigits(s + [c])
    ensures NatValue(s + [c]) == NatValue(s) * 10 + (c as int - '0' as int)
  {
    assert DigitVals(s + [c])[..|s|] == DigitVals(s);
  }

  lemma {:induction false} NatRoundTrip(n: nat)
    ensures NatValue(NatText(n)) == n
  {
    if n < 10 {
      NatValueSnoc("", DigitChar(n));
      assert "" + [DigitChar(n)] == NatText(n);
      assert NatValue("") == 0;
    } else {
      NatRoundTrip(n / 10);
      NatValueSnoc(NatText(n / 10), DigitChar(n % 10));
    }
  }

  lemma NatTextInjective(m: nat, n: nat)
    requires NatText(m) == NatText(n)
    ensures m == n
  {
    NatRoundTrip(m);
    NatRoundTrip(n);
  }

  lemma IntTextInjective(m: int, n: int)
    requires IntText(m) == IntText(n)
    ensures m == n
  {
    assert IntText(m)[0] == '-' <==> m < 0;
    assert IntText(n)[0] == '-' <==> n < 0;
    if m < 0 {
      assert IntText(m)[1..] == IntText(n)[1..];
      NatTextInjective(-m, -n);
    } else if m >= 0 && n >= 0 {
      NatTextInjective(m, n);
    }
  }

  lemma DigitValsConcat(s: string, t: string)
    requires AllDigits(s) && AllDigits(t)
    ensures AllDigits(s + t)
    ensures DigitVals(s + t) == DigitVals(s) + DigitVals(t)
  {
    assert forall i | |s| <= i < |s + t| :: (s + t)[i] == t[i - |s|];
  }

  lemma NatValueConcat(s: string, t: string)
    requires AllDigits(s) && AllDigits(t)
    ensures AllDigits(s + t)
    ensures NatValue(s + t) == NatValue(s) * Pow(10, |t|) + NatValue(t)
  {
    hide Value, Pow, DigitVals;
    DigitValsConcat(s, t);
    ValueConcat(DigitVals(s), DigitVals(t), 10);
  }

  lemma {:induction false} NatValueZeros(n: nat)
    ensures NatValue(Zeros(n)) == 0
  {
    if n == 0 {
    } else {
      NatValueZeros(n - 1);
      NatValueSnoc(Zeros(n - 1), '0');
      assert Zeros(n) == Zeros(n - 1) + ['0'];
    }
  }

  lemma NatValueLeadingZeros(n: nat, s: string)
    requires AllDigits(s)
    ensures AllDigits(Zeros(n) + s) && NatValue(Zeros(n) + s) == NatValue(s)
  {
    NatValueConcat(Zeros(n), s);
    NatValueZeros(n);
  }

  lemma NatValueTrailingZeros(s: string, n: nat)
    requires AllDigits(s)
    ensures AllDigits(s + Zeros(n)) && NatValue(s + Zeros(n)) == NatValue(s) * Pow(10, n)
  {
    NatValueConcat(s, Zeros(n));
    NatValueZeros(n);
  }

  // ------------------------------------------------------------------ int(str)

  predicate AllPlain(s: string) {
    forall i | 0 <= i < |s| :: !IsSpace(s[i]) && s[i] != '_'
  }

  function RemoveUnderscores(s: string): string {
    if s == "" then ""
    else if s[0] == '_' then RemoveUnderscores(s[1..])
    else [s[0]] + RemoveUnderscores(s[1..])
  }

  lemma {:induction false} PlainIsClean(s: string)
    requires AllPlain(s)
    ensures Strip(s) == s && RemoveUnderscores(s) == s
  {
    if s == "" {
    } else {
      PlainIsClean(s[1..]);
      assert [s[0]] + s[1..] == s;
    }
  }

  /** Underscores stand only between digits. */
  predicate IsUnderscoredNumber(s: string) {
    && s != "" && IsDigit(s[0]) && IsDigit(s[|s| - 1])
    && (forall i | 0 <= i < |s| :: IsDigit(s[i]) || s[i] == '_')
    && (forall i | 0 <= i < |s| - 1 :: IsDigit(s[i]) || IsDigit(s[i + 1]))
  }

  lemma {:induction false} DigitsRemain(s: string)
    requires forall i | 0 <= i < |s| :: IsDigit(s[i]) || s[i] == '_'
    ensures AllDigits(RemoveUnderscores(s))
  {
    if s == "" {
    } else {
      DigitsRemain(s[1..]);
    }
  }

  /** `int(s)`, ASCII digits only; None is ValueError. */
  function ParseInt(s: string): Option<int> {
    var clean := Strip(s);
    var signed := clean != "" && clean[0] in "+-";
    var digits := if signed then clean[1..] else clean;
    if !IsUnderscoredNumber(digits) then None else
      DigitsRemain(digits);
      var n: int := NatValue(RemoveUnderscores(digits));
      Some(if signed && clean[0] == '-' then -n else n)
  }

  lemma ParseDigits(s: string)
    requires s != "" && AllDigits(s)
    ensures ParseInt(s) == Some(NatValue(s))
  {
    PlainIsClean(s);
  }

  // ------------------------------------------------------------------ Decimal

  /** A finite Decimal: `(-1)^neg * coeff * 10^exp`. */
  datatype Dec = Dec(neg: bool, coeff: nat, exp: int)

  /** Index of the first exponent marker, or `|s|`. */
  function FindE(s: string): (i: nat)
    ensures i <= |s|
    ensures forall j | 0 <= j < i :: s[j] != 'e' && s[j] != 'E'
    ensures i < |s| ==> s[i] == 'e' || s[i] == 'E'
  {
    if s == "" || s[0] == 'e' || s[0] == 'E' then 0 else 1 + FindE(s[1..])
  }

  function ParseSigned(s: string): Option<int> {
    var digits := if s != "" && s[0] in "+-" then s[1..] else s;
    if digits == "" || !AllDigits(digits) then None else
      var n: int := NatValue(digits);
      Some(if s[0] == '-' then -n else n)
  }

  /** Coefficient and exponent of a number without a sign. */
  function ParseUnsigned(body: string): Option<(nat, int)> {
    var e := FindE(body);
    var mantissa := body[..e];
    var exp := if e == |body| then Some(0) else ParseSigned(body[e + 1..]);
    var p := Find(mantissa, '.');
    var whole := mantissa[..p];
    var fraction := if p < |mantissa| then mantissa[p + 1..] else "";
    if exp.None? || !AllDigits(whole + fraction) || whole + fraction == "" then None
    else Some((NatValue(whole + fraction), exp.value - |fraction|))
  }

  /** The numeric strings `Decimal(s)` reads, after stripping and dropping underscores; None is InvalidOperation, NaN or
      an infinity. */
  function ParseDecimal(s: string): Option<Dec> {
    var signed := s != "" && s[0] in "+-";
    match ParseUnsigned(if signed then s[1..] else s)
    case None => None
    case Some((coeff, exp)) => Some(Dec(signed && s[0] == '-', coeff, exp))
  }

  function Sign(neg: bool): string {
    if neg then "-" else ""
  }

  function Fraction(fraction: string): string {
    if fraction == "" then "" else "." + fraction
  }

  /** `"E%+d"`, and nothing for exponent 0 */
  function Exponent(exp: int): string {
    if exp == 0 then "" else if exp < 0 then "E-" + NatText(-exp) else "E+" + NatText(exp)
  }

  /** A number's text from its parts. */
  function Spell(neg: bool, whole: string, fraction: string, exp: int): string {
    Sign(neg) + whole + Fraction(fraction) + Exponent(exp)
  }

  lemma ParseOfExponent(exp: int)
    requires exp != 0
    ensures Exponent(exp)[0] == 'E' && ParseSigned(Exponent(exp)[1..]) == Some(exp)
  {
    var magnitude := if exp < 0 then -exp else exp;
    NatRoundTrip(magnitude);
    assert Exponent(exp)[1..][1..] == NatText(magnitude);
  }

  lemma FindFirst(s: string, c: char, i: nat)
    requires i <= |s| && (forall j | 0 <= j < i :: s[j] != c) && (i < |s| ==> s[i] == c)
    ensures Find(s, c) == i
  {
  }

  lemma MantissaParts(whole: string, fraction: string)
    requires AllDigits(whole) && AllDigits(fraction)
    ensures var m := whole + Fraction(fraction);
      && Find(m, '.') == |whole| && m[..|whole|] == whole
      && (|whole| < |m| ==> m[|whole| + 1..] == fraction)
      && (|whole| == |m| <==> fraction == "")
      && (forall j | 0 <= j < |m| :: IsDigit(m[j]) || m[j] == '.')
  {
    hide Find;
    var m := whole + Fraction(fraction);
    if fraction != "" {
      assert m == whole + "." + fraction;
      assert m[|whole|] == '.';
    } else {
      assert m == whole;
    }
    FindFirst(m, '.', |whole|);
  }

  lemma ExponentSplit(mantissa: string, exp: int)
    requires forall j | 0 <= j < |mantissa| :: IsDigit(mantissa[j]) || mantissa[j] == '.'
    ensures var body := mantissa + Exponent(exp);
      && FindE(body) == |mantissa| && body[..|mantissa|] == mantissa
      && (exp == 0 ==> |mantissa| == |body|)
      && (exp != 0 ==> |mantissa| < |body| && ParseSigned(body[|mantissa| + 1..]) == Some(exp))
  {
    var body := mantissa + Exponent(exp);
    if exp != 0 {
      ParseOfExponent(exp);
      assert body[|mantissa|] == 'E';
      assert body[|mantissa| + 1..] == Exponent(exp)[1..];
    }
  }

  lemma ParseUnsignedOf(whole: string, fraction: string, exp: int)
    requires AllDigits(whole) && AllDigits(fraction) && whole != ""
    ensures AllDigits(whole + fraction)
    ensures ParseUnsigned(whole + Fraction(fraction) + Exponent(exp))
         == Some((NatValue(whole + fraction), exp - |fraction|))
  {
    hide Find, FindE, ParseSigned, Exponent, Fraction;
    MantissaParts(whole, fraction);
    ExponentSplit(whole + Fraction(fraction), exp);
  }

  /** Reading a spelt number gives its parts back. */
  lemma ParseOfSpelling(neg: bool, whole: string, fraction: string, exp: int)
    requires AllDigits(whole) && AllDigits(fraction) && whole != ""
    ensures AllDigits(whole + fraction)
    ensures ParseDecimal(Spell(neg, whole, fraction, exp))
         == Some(Dec(neg, NatValue(whole + fraction), exp - |fraction|))
  {
    hide ParseUnsigned, Exponent, Fraction, NatValue;
    ParseUnsignedOf(whole, fraction, exp);
    var s, body := Spell(neg, whole, fraction, exp), whole + Fraction(fraction) + Exponent(exp);
    assert s == Sign(neg) + body;
    if neg {
      assert s[1..] == body;
    } else {
      assert s == body && s[0] == whole[0];
    }
  }

  lemma SpellingIsPlain(neg: bool, whole: string, fraction: string, exp: int)
    requires AllDigits(whole) && AllDigits(fraction)
    ensures AllPlain(Spell(neg, whole, fraction, exp))
  {
  }

  /** `str(Decimal)`: plain notation for exponents in `(-6, 0]` of the leading digit, scientific otherwise. */
  function DecimalText(d: Dec): string {
    var digits := NatText(d.coeff);
    var leftDigits := d.exp + |digits|;
    var dotPlace := if d.exp <= 0 && leftDigits > -6 then leftDigits else 1;
    if dotPlace <= 0 then Spell(d.neg, "0", Zeros(-dotPlace) + digits, leftDigits - dotPlace)
    else if dotPlace >= |digits| then Spell(d.neg, digits + Zeros(dotPlace - |digits|), "", leftDigits - dotPlace)
    else Spell(d.neg, digits[..dotPlace], digits[dotPlace..], leftDigits - dotPlace)
  }

  /** `Decimal(str(d))` is `d`, digit for digit. */
  lemma DecimalRoundTrip(d: Dec)
    ensures ParseDecimal(DecimalText(d)) == Some(d)
    ensures AllPlain(DecimalText(d))
  {
    hide ParseDecimal, NatValue, Spell;
    var digits := NatText(d.coeff);
    NatRoundTrip(d.coeff);
    var leftDigits := d.exp + |digits|;
    var dotPlace := if d.exp <= 0 && leftDigits > -6 then leftDigits else 1;
    if dotPlace <= 0 {
      SpellingParses(d.neg, "0", Zeros(-dotPlace) + digits, 0);
      NatValueLeadingZeros(1 - dotPlace, digits);
      assert "0" + (Zeros(-dotPlace) + digits) == Zeros(1 - dotPlace) + digits;
    } else if dotPlace >= |digits| {
      assert digits + Zeros(dotPlace - |digits|) == digits == digits + "";
      SpellingParses(d.neg, digits, "", leftDigits - dotPlace);
    } else {
      assert digits[..dotPlace] + digits[dotPlace..] == digits;
      SpellingParses(d.neg, digits[..dotPlace], digits[dotPlace..], leftDigits - dotPlace);
    }
  }

  lemma SpellingParses(neg: bool, whole: string, fraction: string, exp: int)
    requires AllDigits(whole) && AllDigits(fraction) && whole != ""
    ensures AllDigits(whole + fraction)
    ensures ParseDecimal(Spell(neg, whole, fraction, exp))
         == Some(Dec(neg, NatValue(whole + fraction), exp - |fraction|))
    ensures AllPlain(Spell(neg, whole, fraction, exp))
  {
    ParseOfSpelling(neg, whole, fraction, exp);
    SpellingIsPlain(neg, whole, fraction, exp);
  }

  // ------------------------------------------------------------------ character by character

  /** Decimal digits, printed and read: the last character is the last digit. */
  lemma DigitsExact(n: nat, s: string, k: nat)
    requires AllDigits(s) && k < 10
    ensures NatText(n) == (if n < 10 then "" else NatText(n / 10)) + ["0123456789"[n % 10]]
    ensures NatValue("") == 0
    ensures AllDigits(s + ["0123456789"[k]]) && NatValue(s + ["0123456789"[k]]) == 10 * NatValue(s) + k
  {
    hide NatValue;
    forall d: nat | d < 10 ensures "0123456789"[d] == DigitChar(d) {
    }
    NatValueSnoc(s, "0123456789"[k]);
    NoDigits();
    assert "" + [DigitChar(n % 10)] == [DigitChar(n % 10)];
  }

  lemma NoDigits()
    ensures NatValue("") == 0
  {
  }

  lemma {:induction false} UnderscoresExact(a: string, b: string, c: char)
    ensures RemoveUnderscores(a + b) == RemoveUnderscores(a) + RemoveUnderscores(b)
    ensures RemoveUnderscores([c]) == if c == '_' then "" else [c]
  {
    if a == "" {
      assert a + b == b;
    } else {
      UnderscoresExact(a[1..], b, c);
      assert (a + b)[1..] == a[1..] + b;
    }
  }

  /** Digits, with single underscores between them. */
  predicate GroupedDigits(digits: string) {
    && digits != "" && (forall i | 0 <= i < |digits| :: digits[i] in "0123456789_")
    && digits[0] != '_' && digits[|digits| - 1] != '_'
    && (forall i | 0 <= i < |digits| - 1 :: digits[i] != '_' || digits[i + 1] != '_')
  }

  predicate EndsPlain(s: string) {
    s != "" ==> !IsSpace(s[0]) && !IsSpace(s[|s| - 1])
  }

  /** What `int` reads: blanks around, a sign, and digits with single underscores between them; and nothing else. */
  lemma ParseIntExact(s: string, before: string, sign: string, digits: string, after: string)
    requires s == before + sign + digits + after && AllSpace(before) && AllSpace(after) && sign in {"", "+", "-"}
    requires EndsPlain(digits) && (digits != "" ==> digits[0] !in "+-")
    ensures GroupedDigits(digits) ==> AllDigits(RemoveUnderscores(digits))
    ensures ParseInt(s) ==
      if GroupedDigits(digits) then Some(Signed(sign, NatValue(RemoveUnderscores(digits)))) else None
  {
    hide ParseInt, Strip, NatValue, RemoveUnderscores, IsUnderscoredNumber, GroupedDigits;
    SignedStrips(s, before, sign, digits, after);
    UnderscoredExact(digits);
    ParseIntOf(s, sign, digits);
  }

  lemma SignedStrips(s: string, before: string, sign: string, digits: string, after: string)
    requires s == before + sign + digits + after && AllSpace(before) && AllSpace(after) && sign in {"", "+", "-"}
    requires EndsPlain(digits)
    ensures Strip(s) == sign + digits
  {
    hide Strip;
    SignsAreNotBlank(sign);
    var clean := sign + digits;
    assert s == before + clean + after;
    assert digits != "" ==> clean[|clean| - 1] == digits[|digits| - 1];
    StripExact(before, clean, after);
  }

  function Signed(sign: string, n: int): int {
    if sign == "-" then -n else n
  }

  lemma ParseIntOf(s: string, sign: string, digits: string)
    requires Strip(s) == sign + digits && sign in {"", "+", "-"} && (digits != "" ==> digits[0] !in "+-")
    ensures IsUnderscoredNumber(digits) ==> AllDigits(RemoveUnderscores(digits))
    ensures ParseInt(s) ==
      if IsUnderscoredNumber(digits) then Some(Signed(sign, NatValue(RemoveUnderscores(digits)))) else None
  {
    hide Strip, NatValue, RemoveUnderscores, IsUnderscoredNumber;
    UnderscoredExact(digits);
    SignSplits(sign, digits);
  }

  lemma SignSplits(sign: string, digits: string)
    requires sign in {"", "+", "-"} && (digits != "" ==> digits[0] !in "+-")
    ensures var clean := sign + digits;
      && (clean != "" && clean[0] in "+-" <==> sign != "")
      && (sign != "" ==> clean[1..] == digits && (clean[0] == '-' <==> sign == "-"))
      && (sign == "" ==> clean == digits)
  {
  }

  lemma UnderscoredExact(digits: string)
    ensures IsUnderscoredNumber(digits) <==> GroupedDigits(digits)
    ensures IsUnderscoredNumber(digits) ==> AllDigits(RemoveUnderscores(digits))
  {
    hide RemoveUnderscores;
    forall i | 0 <= i < |digits|
      ensures IsDigit(digits[i]) || digits[i] == '_' <==> digits[i] in "0123456789_"
      ensures IsDigit(digits[i]) ==> digits[i] != '_'
    {
      ClassesExact(digits[i]);
      assert "0123456789_" == "0123456789" + "_";
    }
    if IsUnderscoredNumber(digits) {
      DigitsRemain(digits);
    }
  }

  lemma SignsAreNotBlank(sign: string)
    requires sign in {"", "+", "-"}
    ensures sign != "" ==> |sign| == 1 && !IsSpace(sign[0]) && sign[0] in "+-"
  {
  }

  /** What `Decimal` reads: a sign, digits with perhaps a point before, between or behind them, and perhaps an exponent,
      of either case and sign. */
  lemma ParseDecimalReads(sign: string, whole: string, point: string, fraction: string, marker: string, expSign: string,
                          expDigits: string)
    requires sign in {"", "+", "-"} && expSign in {"", "+", "-"}
    requires AllDigits(whole) && AllDigits(fraction) && whole + fraction != ""
    requires point == "." || (point == "" && fraction == "")
    requires (marker in {"e", "E"} && expDigits != "" && AllDigits(expDigits)) || marker + expSign + expDigits == ""
    ensures AllDigits(whole + fraction) && AllDigits(expDigits)
    ensures ParseDecimal(sign + whole + point + fraction + marker + expSign + expDigits)
         == Some(Dec(sign == "-", NatValue(whole + fraction),
                     Signed(expSign, NatValue(expDigits)) - |fraction|))
  {
    hide NatValue, ParseUnsigned;
    var body := whole + point + fraction + (marker + expSign + expDigits);
    ParseUnsignedReads(whole, point, fraction, marker, expSign, expDigits);
    Ungroup(sign, whole, point, fraction, marker, expSign, expDigits);
    assert body[0] == (if whole != "" then whole[0] else '.');
    assert sign != "" ==> (sign + body)[1..] == body;
    assert sign == "" ==> sign + body == body;
  }

  lemma Ungroup(sign: string, whole: string, point: string, fraction: string, marker: string, expSign: string,
                expDigits: string)
    ensures sign + whole + point + fraction + marker + expSign + expDigits
         == sign + (whole + point + fraction + (marker + expSign + expDigits))
  {
  }

  lemma ParseUnsignedReads(whole: string, point: string, fraction: string, marker: string, expSign: string,
                           expDigits: string)
    requires expSign in {"", "+", "-"}
    requires AllDigits(whole) && AllDigits(fraction) && whole + fraction != ""
    requires point == "." || (point == "" && fraction == "")
    requires (marker in {"e", "E"} && expDigits != "" && AllDigits(expDigits)) || marker + expSign + expDigits == ""
    ensures AllDigits(whole + fraction) && AllDigits(expDigits)
    ensures ParseUnsigned(whole + point + fraction + (marker + expSign + expDigits))
         == Some((NatValue(whole + fraction), Signed(expSign, NatValue(expDigits)) - |fraction|))
  {
    hide NatValue, Find, FindE, ParseSigned;
    var mantissa := whole + point + fraction;
    NoDigits();
    PointedMantissa(whole, point, fraction);
    ReadExponent(mantissa, marker, expSign, expDigits);
    assert marker == "" ==> expDigits == "";
  }

  lemma PointedMantissa(whole: string, point: string, fraction: string)
    requires AllDigits(whole) && AllDigits(fraction) && (point == "." || (point == "" && fraction == ""))
    ensures var m := whole + point + fraction;
      && Find(m, '.') == |whole| && m[..|whole|] == whole
      && (|whole| < |m| ==> m[|whole| + 1..] == fraction) && (|whole| == |m| ==> fraction == "")
      && (forall j | 0 <= j < |m| :: IsDigit(m[j]) || m[j] == '.')
  {
    hide Find;
    var m := whole + point + fraction;
    if point == "." {
      assert m[|whole|] == '.';
    } else {
      assert m == whole;
    }
    FindFirst(m, '.', |whole|);
  }

  lemma ReadExponent(mantissa: string, marker: string, expSign: string, expDigits: string)
    requires forall j | 0 <= j < |mantissa| :: IsDigit(mantissa[j]) || mantissa[j] == '.'
    requires expSign in {"", "+", "-"}
    requires (marker in {"e", "E"} && expDigits != "" && AllDigits(expDigits)) || marker + expSign + expDigits == ""
    ensures AllDigits(expDigits)
    ensures var body := mantissa + (marker + expSign + expDigits);
      && FindE(body) == |mantissa| && body[..|mantissa|] == mantissa
      && (marker == "" ==> |mantissa| == |body|)
      && (marker != "" ==> |mantissa| < |body| && ParseSigned(body[|mantissa| + 1..])
                             == Some(Signed(expSign, NatValue(expDigits))))
  {
    hide NatValue, FindE, ParseSigned;
    var tail := marker + expSign + expDigits;
    var body := mantissa + tail;
    if marker != "" {
      assert tail[0] == marker[0] && tail[1..] == expSign + expDigits;
      assert body[|mantissa| + 1..] == tail[1..];
      ParseSignedReads(expSign, expDigits);
    } else {
      assert body == mantissa;
    }
    FirstE(body, |mantissa|);
  }

  lemma ParseSignedReads(sign: string, digits: string)
    requires sign in {"", "+", "-"} && digits != "" && AllDigits(digits)
    ensures ParseSigned(sign + digits) == Some(Signed(sign, NatValue(digits)))
  {
    hide NatValue;
    SignSplits(sign, digits);
  }

  lemma FirstE(s: string, i: nat)
    requires i <= |s| && (forall j | 0 <= j < i :: s[j] != 'e' && s[j] != 'E') && (i < |s| ==> s[i] in "eE")
    ensures FindE(s) == i
  {
  }

  /** And no character but those of a number. */
  lemma ParseDecimalRefuses(s: string, i: nat)
    requires i < |s| && s[i] !in "0123456789.+-eE"
    ensures ParseDecimal(s).None?
  {
    hide ParseUnsigned;
    NotOfANumber(s[i]);
    if s[0] in "+-" {
      assert i > 0 && s[1..][i - 1] == s[i];
      ParseUnsignedRefuses(s[1..], i - 1);
    } else {
      ParseUnsignedRefuses(s, i);
    }
  }

  lemma NotOfANumber(c: char)
    requires c !in "0123456789.+-eE"
    ensures !IsDigit(c) && c !in "+-" && c != '.' && c != 'e' && c != 'E'
  {
    ClassesExact(c);
    assert "0123456789.+-eE" == "0123456789" + "." + "+-" + "e" + "E";
  }

  lemma ParseUnsignedRefuses(body: string, k: nat)
    requires k < |body| && !IsDigit(body[k]) && body[k] !in "+-" && body[k] != '.' && body[k] != 'e' && body[k] != 'E'
    ensures ParseUnsigned(body).None?
  {
    hide NatValue, Find, FindE, ParseSigned;
    var e := FindE(body);
    var mantissa := body[..e];
    var p := Find(mantissa, '.');
    var whole, fraction := mantissa[..p], if p < |mantissa| then mantissa[p + 1..] else "";
    if k > e {
      assert body[e + 1..][k - e - 1] == body[k];
      ParseSignedRefuses(body[e + 1..], k - e - 1);
    } else if k < e {
      var j := if k < p then k else k - 1;
      assert (whole + fraction)[j] == body[k];
    }
  }

  lemma ParseSignedRefuses(s: string, k: nat)
    requires k < |s| && !IsDigit(s[k]) && s[k] !in "+-"
    ensures ParseSigned(s).None?
  {
    hide NatValue;
    if s[0] in "+-" {
      assert s[1..][k - 1] == s[k];
    }
  }
}
