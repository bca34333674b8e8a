/** `nano_sdk/units.py`: raw and nano, exact in both directions. */
module Units {
  import opened Text
  import opened Numerals
  import opened Decimals

  const RAW_EXPONENT := 30

  /** `_rescale(d, RAW_EXPONENT)` read as an integer; None when it is negative or not one. */
  function ToRaw(d: Dec): Option<nat> {
    if d.neg && d.coeff > 0 then None
    else if d.exp + RAW_EXPONENT >= 0 then Some(d.coeff * Pow(10, d.exp + RAW_EXPONENT))
    else
      PowPositive(10, -(d.exp + RAW_EXPONENT));
      var unit := Pow(10, -(d.exp + RAW_EXPONENT));
      if Rem(d.coeff, unit) == 0 then Some(Quot(d.coeff, unit)) else None
  }

  /** `nano_to_raw` on a string; None is ValueError. */
  function NanoToRaw(s: string): Option<nat> {
    match ParseDecimal(RemoveUnderscores(Strip(s)))
    case None => None
    case Some(d) => ToRaw(d)
  }

  /** `raw_to_nano` */
  function RawToNano(raw: int): Dec {
    Dec(raw < 0, if raw < 0 then -raw else raw, -RAW_EXPONENT)
  }

  /** `format(d, "f")` for an exponent of at most 0 */
  function FormatF(d: Dec): string
    requires d.exp <= 0
  {
    var digits := NatText(d.coeff);
    var dotPlace := d.exp + |digits|;
    if dotPlace < 0 then Spell(d.neg, "0", Zeros(-dotPlace) + digits, 0)
    else Spell(d.neg, if dotPlace == 0 then "0" else digits[..dotPlace], digits[dotPlace..], 0)
  }

  /** `s.rstrip(c)` */
  function RStrip(s: string, c: char): string {
    if s != "" && s[|s| - 1] == c then RStrip(s[..|s| - 1], c) else s
  }

  /** `nano_str` */
  function NanoStr(raw: int): string {
    var text := FormatF(RawToNano(raw));
    if '.' in text then RStrip(RStrip(text, '0'), '.') else text
  }

  // ------------------------------------------------------------------ conversion to raw

  /** A value converts exactly when it is a non-negative whole number of raw, and then to that number. */
  lemma ToRawExact(d: Dec, raw: nat)
    ensures ToRaw(d) == Some(raw) <==>
      && !(d.neg && d.coeff > 0)
      && (if d.exp + RAW_EXPONENT >= 0 then d.coeff * Pow(10, d.exp + RAW_EXPONENT) == raw
          else d.coeff == raw * Pow(10, -(d.exp + RAW_EXPONENT)))
  {
    if d.exp + RAW_EXPONENT < 0 {
      var unit := Pow(10, -(d.exp + RAW_EXPONENT));
      PowPositive(10, -(d.exp + RAW_EXPONENT));
      DivModSplit(raw, unit, 0);
    }
  }

  /** A plain decimal with at most 30 places converts to its digits, scaled by the places it leaves out. */
  lemma PlainToRaw(whole: string, fraction: string)
    requires AllDigits(whole) && AllDigits(fraction) && whole != "" && |fraction| <= 30
    ensures AllDigits(whole + fraction)
    ensures NanoToRaw(whole + Fraction(fraction)) == Some(NatValue(whole + fraction) * Pow(10, 30 - |fraction|))
  {
    hide ParseDecimal, NatValue, Pow, Fraction, Spell, AllPlain, Strip, RemoveUnderscores;
    var s := Spell(false, whole, fraction, 0);
    SpellingParses(false, whole, fraction, 0);
    SpellPlain(whole, fraction);
    PlainIsClean(s);
  }

  lemma SpellPlain(whole: string, fraction: string)
    ensures Spell(false, whole, fraction, 0) == whole + Fraction(fraction)
  {
  }

  /** `nano_to_raw(raw_to_nano(raw)) == raw`, through the Decimal's own text; a negative amount is refused. */
  lemma RawToNanoRoundTrip(raw: int)
    ensures NanoToRaw(DecimalText(RawToNano(raw))) == if raw < 0 then None else Some(raw)
  {
    DecimalRoundTrip(RawToNano(raw));
    PlainIsClean(DecimalText(RawToNano(raw)));
    assert Pow(10, 0) == 1;
  }

  // ------------------------------------------------------------------ nano_str

  /** The two halves of `format(raw_to_nano(raw), "f")`. */
  function WholeOf(raw: nat): (s: string)
    ensures s != "" && AllDigits(s)
  {
    var digits := NatText(raw);
    if |digits| <= 30 then "0" else digits[..|digits| - 30]
  }

  function PlacesOf(raw: nat): (s: string)
    ensures |s| == 30 && AllDigits(s)
  {
    var digits := NatText(raw);
    if |digits| <= 30 then Zeros(30 - |digits|) + digits else digits[|digits| - 30..]
  }

  lemma FormatIsWholeAndPlaces(raw: nat)
    ensures FormatF(RawToNano(raw)) == WholeOf(raw) + Fraction(PlacesOf(raw))
  {
    hide Spell, Fraction;
    SpellPlain(WholeOf(raw), PlacesOf(raw));
    var digits := NatText(raw);
    if |digits| == 30 {
      assert Zeros(0) + digits == digits == digits[0..];
    }
  }

  lemma ValueOfWholeAndPlaces(raw: nat)
    ensures AllDigits(WholeOf(raw) + PlacesOf(raw))
    ensures NatValue(WholeOf(raw) + PlacesOf(raw)) == raw
  {
    hide NatValue;
    var digits := NatText(raw);
    NatRoundTrip(raw);
    if |digits| <= 30 {
      NatValueLeadingZeros(31 - |digits|, digits);
      assert WholeOf(raw) + PlacesOf(raw) == Zeros(31 - |digits|) + digits;
    } else {
      assert WholeOf(raw) + PlacesOf(raw) == digits;
    }
  }

  lemma {:induction false} RStripSplits(s: string, c: char)
    ensures var t := RStrip(s, c);
      && |t| <= |s| && t == s[..|t|]
      && (forall i | |t| <= i < |s| :: s[i] == c)
      && (t != "" ==> t[|t| - 1] != c)
  {
    if s != "" && s[|s| - 1] == c {
      RStripSplits(s[..|s| - 1], c);
    }
  }

  lemma RStripIs(s: string, c: char, t: string)
    requires |t| <= |s| && t == s[..|t|]
    requires forall i | |t| <= i < |s| :: s[i] == c
    requires t != "" ==> t[|t| - 1] != c
    ensures RStrip(s, c) == t
  {
    RStripSplits(s, c);
  }

  /** The places that `nano_str` keeps. */
  function KeptPlaces(raw: nat): (s: string)
    ensures |s| <= 30 && AllDigits(s)
    ensures s != "" ==> s[|s| - 1] != '0'
    ensures PlacesOf(raw) == s + Zeros(30 - |s|)
  {
    RStripSplits(PlacesOf(raw), '0');
    RStrip(PlacesOf(raw), '0')
  }

  lemma RStripZeros(s: string, n: nat)
    requires s != "" && s[|s| - 1] != '0'
    ensures RStrip(s + Zeros(n), '0') == s
  {
    hide RStrip;
    RStripIs(s + Zeros(n), '0', s);
  }

  lemma TrimZeros(whole: string, kept: string, n: nat)
    requires kept != "" ==> kept[|kept| - 1] != '0'
    ensures RStrip(whole + "." + (kept + Zeros(n)), '0') == whole + "." + kept
  {
    hide RStrip, Zeros;
    assert whole + "." + (kept + Zeros(n)) == (whole + "." + kept) + Zeros(n);
    RStripZeros(whole + "." + kept, n);
  }

  lemma TrimPoint(whole: string, kept: string)
    requires AllDigits(whole) && whole != "" && AllDigits(kept)
    ensures RStrip(whole + "." + kept, '.') == whole + Fraction(kept)
  {
    hide RStrip;
    if kept == "" {
      assert whole + "." + kept == whole + ".";
      assert IsDigit(whole[|whole| - 1]);
      RStripIs(whole + ".", '.', whole);
    } else {
      assert whole + "." + kept == whole + ("." + kept);
      assert IsDigit(kept[|kept| - 1]);
      RStripIs(whole + "." + kept, '.', whole + "." + kept);
    }
  }

  /** `nano_str` prints the whole part and the places up to the last that is not zero. */
  lemma NanoStrShape(raw: nat)
    ensures NanoStr(raw) == WholeOf(raw) + Fraction(KeptPlaces(raw))
  {
    hide WholeOf, PlacesOf, FormatF, KeptPlaces, RStrip;
    var whole, places := WholeOf(raw), PlacesOf(raw);
    FormatIsWholeAndPlaces(raw);
    assert whole + Fraction(places) == whole + "." + places;
    assert (whole + "." + places)[|whole|] == '.';
    TrimZeros(whole, KeptPlaces(raw), 30 - |KeptPlaces(raw)|);
    TrimPoint(whole, KeptPlaces(raw));
  }

  lemma NanoStrValue(raw: nat)
    ensures AllDigits(WholeOf(raw) + KeptPlaces(raw))
    ensures NatValue(WholeOf(raw) + KeptPlaces(raw)) * Pow(10, 30 - |KeptPlaces(raw)|) == raw
  {
    hide NatValue, Pow, WholeOf, PlacesOf, KeptPlaces;
    var whole, kept := WholeOf(raw), KeptPlaces(raw);
    ValueOfWholeAndPlaces(raw);
    assert whole + PlacesOf(raw) == (whole + kept) + Zeros(30 - |kept|);
    NatValueTrailingZeros(whole + kept, 30 - |kept|);
  }

  /** No trailing zero after a point, and no trailing point. */
  lemma NanoStrIsTrimmed(raw: nat)
    ensures var s := NanoStr(raw);
      s != "" && s[|s| - 1] != '.' && ('.' in s ==> s[|s| - 1] != '0')
  {
    hide NanoStr, WholeOf, KeptPlaces;
    NanoStrShape(raw);
    var whole, kept := WholeOf(raw), KeptPlaces(raw);
    if kept == "" {
      assert NanoStr(raw) == whole;
    } else {
      var s := NanoStr(raw);
      assert s[|s| - 1] == kept[|kept| - 1];
      assert IsDigit(kept[|kept| - 1]);
    }
  }

  /** Printing and parsing undo each other. */
  lemma NanoStrRoundTrip(raw: nat)
    ensures NanoToRaw(NanoStr(raw)) == Some(raw)
  {
    hide NanoToRaw, NanoStr, NatValue, Pow, WholeOf, KeptPlaces;
    NanoStrShape(raw);
    NanoStrValue(raw);
    PlainToRaw(WholeOf(raw), KeptPlaces(raw));
  }

  /** Blanks around an amount of nano are not read. */
  lemma NanoToRawOfBlanks(before: string, s: string, after: string)
    requires AllSpace(before) && AllSpace(after) && AllPlain(s)
    ensures NanoToRaw(before + s + after) == NanoToRaw(s)
  {
    hide ParseDecimal, Strip;
    StripExact(before, s, after);
    PlainIsClean(s);
  }

  /** A negative amount is printed as its absolute value after a minus sign. */
  lemma NanoStrNegative(raw: int)
    requires raw > 0
    ensures NanoStr(-raw) == "-" + NanoStr(raw)
  {
    hide RStrip, FormatF, Fraction;
    var text := FormatF(RawToNano(raw));
    FormatNegative(raw);
    FormatIsWholeAndPlaces(raw);
    NanoStrShape(raw);
    var whole, places, kept := WholeOf(raw), PlacesOf(raw), KeptPlaces(raw);
    SignedTrim(raw);
    FractionHasPoint(whole, places);
    assert ("-" + text)[1 + |whole|] == '.';
  }

  lemma FractionHasPoint(whole: string, places: string)
    requires |places| == 30
    ensures whole + Fraction(places) == whole + "." + places && (whole + Fraction(places))[|whole|] == '.'
  {
  }

  lemma FormatNegative(raw: int)
    requires raw > 0
    ensures FormatF(RawToNano(-raw)) == "-" + FormatF(RawToNano(raw))
  {
    hide NatText;
    assert RawToNano(-raw) == RawToNano(raw).(neg := true);
    SpellNegative();
  }

  lemma SpellNegative()
    ensures forall whole, fraction :: Spell(true, whole, fraction, 0) == "-" + Spell(false, whole, fraction, 0)
  {
    forall whole, fraction ensures Spell(true, whole, fraction, 0) == "-" + Spell(false, whole, fraction, 0) {
      assert Spell(false, whole, fraction, 0) == whole + Fraction(fraction);
    }
  }

  lemma SignedTrim(raw: nat)
    ensures var whole, kept := WholeOf(raw), KeptPlaces(raw);
      RStrip(RStrip("-" + (whole + "." + PlacesOf(raw)), '0'), '.') == "-" + (whole + Fraction(kept))
  {
    hide RStrip, WholeOf, PlacesOf, KeptPlaces;
    var whole, places, kept := WholeOf(raw), PlacesOf(raw), KeptPlaces(raw);
    var signed := "-" + whole;
    assert "-" + (whole + "." + places) == signed + "." + (kept + Zeros(30 - |kept|));
    TrimZeros(signed, kept, 30 - |kept|);
    if kept == "" {
      assert signed + "." + kept == signed + ".";
      assert signed[|signed| - 1] == whole[|whole| - 1] && IsDigit(whole[|whole| - 1]);
      RStripIs(signed + ".", '.', signed);
    } else {
      assert IsDigit(kept[|kept| - 1]);
      RStripIs(signed + "." + kept, '.', signed + "." + kept);
    }
    assert signed + Fraction(kept) == "-" + (whole + Fraction(kept));
  }
}
