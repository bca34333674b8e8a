/** The facilitator's own amount reader, `parse_raw`, and the spellings it is allowed to see. */
module Amounts {
  import opened Text
  import opened Numerals
  import opened Decimals
  import opened Units

  /** `parse_raw`; None is ValueError. */
  function ParseRaw(amount: string): Option<int> {
    var clean := Strip(amount);
    var dot := Find(clean, '.');
    if clean == "" then Some(0)
    else if dot == |clean| then ParseInt(clean)
    else
      var whole, fraction := clean[..dot], (clean[dot + 1..] + Zeros(30))[..30];
      match (ParseInt(if whole == "" then "0" else whole), ParseInt(fraction))
      case (Some(w), Some(f)) => Some(w * Pow(10, 30) + f)
      case _ => None
  }

  /** `is_amount_string`: digits, and optionally a point and 1 to 30 digits */
  predicate IsAmountString(s: string) {
    var dot := Find(s, '.');
    && dot > 0 && AllDigits(s[..dot])
    && (dot < |s| ==> AllDigits(s[dot + 1..]) && 1 <= |s| - dot - 1 <= 30)
  }

  // ------------------------------------------------------------------ the two readers

  /** The parts of a plain amount. */
  function WholePart(s: string): (w: string)
    requires IsAmountString(s)
    ensures w != "" && AllDigits(w)
  {
    s[..Find(s, '.')]
  }

  function FractionPart(s: string): (f: string)
    requires IsAmountString(s)
    ensures |f| <= 30 && AllDigits(f)
  {
    if Find(s, '.') < |s| then s[Find(s, '.') + 1..] else ""
  }

  lemma AmountParts(s: string)
    requires IsAmountString(s)
    ensures s == WholePart(s) + Fraction(FractionPart(s))
    ensures '.' in s <==> FractionPart(s) != ""
    ensures AllPlain(s) && Strip(s) == s
  {
    var whole, fraction := WholePart(s), FractionPart(s);
    assert s == whole + Fraction(fraction);
    SpellingIsPlain(false, whole, fraction, 0);
    SpellPlain(whole, fraction);
    PlainIsClean(s);
  }

  lemma PartsAreAmount(whole: string, fraction: string)
    requires AllDigits(whole) && AllDigits(fraction) && whole != "" && |fraction| <= 30
    ensures var s := whole + Fraction(fraction);
      IsAmountString(s) && WholePart(s) == whole && FractionPart(s) == fraction
  {
    MantissaParts(whole, fraction);
  }

  /** What `parse_raw` reads off a plain amount: without a point a number of raw, with one a number of nano, of which
      the 30-digit cut drops no digit. */
  lemma ParseRawOfAmount(s: string)
    requires IsAmountString(s)
    ensures AllDigits(WholePart(s) + FractionPart(s))
    ensures ParseRaw(s) == Some(if FractionPart(s) == "" then NatValue(WholePart(s))
                                else NatValue(WholePart(s) + FractionPart(s)) * Pow(10, 30 - |FractionPart(s)|))
  {
    hide NatValue, Pow, ParseInt, IsAmountString, Zeros, Strip;
    AmountParts(s);
    var whole, fraction := WholePart(s), FractionPart(s);
    ParseDigits(whole);
    if fraction == "" {
      assert s == whole;
      FindFirst(s, '.', |s|);
    } else {
      MantissaParts(whole, fraction);
      CutDropsNothing(fraction);
      var padded := fraction + Zeros(30 - |fraction|);
      ParseDigits(padded);
      NatValueConcat(whole, padded);
      assert whole + padded == (whole + fraction) + Zeros(30 - |fraction|);
      NatValueTrailingZeros(whole + fraction, 30 - |fraction|);
    }
  }

  lemma CutDropsNothing(fraction: string)
    requires |fraction| <= 30
    ensures (fraction + Zeros(30))[..30] == fraction + Zeros(30 - |fraction|)
  {
  }

  /** On every plain amount the two readers agree, up to the unit a spelling without a point is in. */
  lemma ReadersAgree(s: string)
    requires IsAmountString(s)
    ensures ParseRaw(s).Some? && NanoToRaw(s).Some?
    ensures '.' in s ==> ParseRaw(s).value == NanoToRaw(s).value
    ensures '.' !in s ==> ParseRaw(s).value * Pow(10, 30) == NanoToRaw(s).value
  {
    hide NatValue, Pow, ParseRaw, NanoToRaw, WholePart, FractionPart, IsAmountString;
    AmountParts(s);
    ParseRawOfAmount(s);
    PlainToRaw(WholePart(s), FractionPart(s));
    assert WholePart(s) + "" == WholePart(s);
  }

  /** A whole number of nano. */
  ghost predicate IsWholeNano(raw: nat) {
    exists nano: nat :: raw == nano * Pow(10, 30)
  }

  /** `parse_raw` reads what `nano_str` prints exactly when the amount is zero or not a whole number of nano; a whole
      number of nano is printed without a point, and read back as that many raw. */
  lemma ParseRawOfNanoStr(raw: nat)
    ensures ParseRaw(NanoStr(raw)) == Some(raw) <==> raw == 0 || !IsWholeNano(raw)
    ensures forall nano: nat | raw == nano * Pow(10, 30) :: ParseRaw(NanoStr(raw)) == Some(nano)
  {
    hide NatValue, Pow, ParseRaw, NanoStr, WholeOf, PlacesOf, KeptPlaces, IsAmountString, WholePart, FractionPart;
    var whole, kept := WholeOf(raw), KeptPlaces(raw);
    NanoStrShape(raw);
    NanoStrValue(raw);
    PartsAreAmount(whole, kept);
    ParseRawOfAmount(NanoStr(raw));
    assert whole + "" == whole;
    WholeNanoHasNoPlaces(raw);
    if kept == "" {
      forall nano: nat | raw == nano * Pow(10, 30) ensures nano == NatValue(whole) {
        EqualMultiples(nano, NatValue(whole));
      }
      BigUnit(NatValue(whole));
    }
  }

  lemma BigUnit(n: nat)
    ensures n == 0 ==> n * Pow(10, 30) == 0
    ensures n > 0 ==> n * Pow(10, 30) > n
  {
    assert Pow(10, 2) == 100;
    PowAdd(10, 2, 28);
    PowPositive(10, 28);
    assert Pow(10, 30) >= 100;
    assert n > 0 ==> n * Pow(10, 30) >= n * 100;
  }

  lemma EqualMultiples(m: nat, n: nat)
    requires m * Pow(10, 30) == n * Pow(10, 30)
    ensures m == n
  {
    PowPositive(10, 30);
    DivModSplit(m, Pow(10, 30), 0);
    DivModSplit(n, Pow(10, 30), 0);
  }

  /** The places vanish exactly on whole numbers of nano. */
  lemma WholeNanoHasNoPlaces(raw: nat)
    ensures KeptPlaces(raw) == "" <==> IsWholeNano(raw)
  {
    hide NatValue, Pow, WholeOf, PlacesOf, KeptPlaces;
    var whole, places, kept := WholeOf(raw), PlacesOf(raw), KeptPlaces(raw);
    ValueOfWholeAndPlaces(raw);
    NatValueConcat(whole, places);
    if kept == "" {
      assert places == Zeros(30);
      NatValueZeros(30);
      assert raw == NatValue(whole) * Pow(10, 30);
    } else {
      ValueOfKept(kept);
      if IsWholeNano(raw) {
        var nano: nat :| raw == nano * Pow(10, 30);
        NatValueTrailingZeros(kept, 30 - |kept|);
        PowPositive(10, 30 - |kept|);
        MulPositive(NatValue(kept), Pow(10, 30 - |kept|));
        NatValueBound(places);
        DivModSplit(nano, Pow(10, 30), 0);
        DivModSplit(NatValue(whole), Pow(10, 30), NatValue(places));
      }
    }
  }

  lemma MulPositive(m: nat, n: nat)
    requires m > 0 && n > 0
    ensures m * n > 0
  {
  }

  lemma NatValueBound(s: string)
    requires AllDigits(s)
    ensures NatValue(s) < Pow(10, |s|)
  {
    ValueBound(DigitVals(s), 10);
  }

  lemma ValueOfKept(s: string)
    requires AllDigits(s) && s != "" && s[|s| - 1] != '0'
    ensures NatValue(s) > 0
  {
    var init, last := s[..|s| - 1], s[|s| - 1];
    assert s == init + [last];
    NatValueSnoc(init, last);
  }

  // ------------------------------------------------------------------ what else `parse_raw` reads

  /** Blanks around an amount are not read, and no text at all reads as 0. */
  lemma ParseRawOfBlanks(before: string, s: string, after: string)
    requires AllSpace(before) && AllSpace(after) && AllPlain(s)
    ensures ParseRaw(before + s + after) == ParseRaw(s)
    ensures AllSpace(before + after) && ParseRaw(before + after) == Some(0)
  {
    hide ParseInt, Find, Strip, Pow;
    StripExact(before, s, after);
    PlainIsClean(s);
    StripExact(before, "", after);
    assert before + "" + after == before + after;
  }

  /** With a point: perhaps a sign, perhaps no digit before the point, and any number of digits after it, of which the
      first thirty count. The sign goes with the whole part only. */
  lemma ParseRawWithPoint(s: string, sign: string, whole: string, fraction: string)
    requires s == sign + whole + "." + fraction
    requires sign in {"", "+", "-"} && AllDigits(whole) && AllDigits(fraction) && (sign != "" ==> whole != "")
    ensures var cut := (fraction + seq(30, _ => '0'))[..30];
      && AllDigits(cut)
      && ParseRaw(s) == Some(Signed(sign, NatValue(whole)) * Pow(10, 30) + NatValue(cut))
  {
    hide ParseInt, NatValue, Pow, Strip, Find;
    assert Zeros(30) == seq(30, _ => '0');
    SignedIsPlain(s, sign, whole, fraction);
    PlainIsClean(s);
    FindFirst(s, '.', |sign + whole|);
    ParseDigits((fraction + seq(30, _ => '0'))[..30]);
    WholePartReads(sign, whole);
  }

  lemma WholePartReads(sign: string, whole: string)
    requires sign in {"", "+", "-"} && AllDigits(whole) && (sign != "" ==> whole != "")
    ensures ParseInt(if sign + whole == "" then "0" else sign + whole) == Some(Signed(sign, NatValue(whole)))
  {
    hide ParseInt, NatValue, RemoveUnderscores, GroupedDigits, EndsPlain;
    if whole == "" {
      ParseDigits("0");
      OneZero();
      NoDigits();
    } else {
      PlainDigits(whole);
      assert sign + whole == "" + sign + whole + "";
      ParseIntExact(sign + whole, "", sign, whole, "");
    }
  }

  lemma OneZero()
    ensures NatValue("0") == 0
  {
    NatValueZeros(1);
    assert Zeros(1) == "0";
  }

  lemma PlainDigits(whole: string)
    requires AllDigits(whole) && whole != ""
    ensures RemoveUnderscores(whole) == whole && GroupedDigits(whole) && EndsPlain(whole) && whole[0] !in "+-"
  {
    PlainIsClean(whole);
    forall i | 0 <= i < |whole| ensures whole[i] in "0123456789_" && whole[i] != '_' {
      ClassesExact(whole[i]);
      assert "0123456789_" == "0123456789" + "_";
    }
  }

  lemma SignedIsPlain(s: string, sign: string, whole: string, fraction: string)
    requires s == sign + whole + "." + fraction
    requires sign in {"", "+", "-"} && AllDigits(whole) && AllDigits(fraction)
    ensures AllPlain(s) && forall j | 0 <= j < |sign + whole| :: s[j] != '.'
    ensures s[|sign + whole|] == '.' && s[..|sign + whole|] == sign + whole && s[|sign + whole| + 1..] == fraction
  {
  }
}
