/** `bytes.hex()` and `bytes.fromhex()` */
module Hex {
  import opened Text
  import opened Bytes

  const DIGITS := "0123456789abcdef"

  function HexVal(c: char): (v: nat)
    requires IsHexChar(c)
    ensures v < 16
  {
    if IsDigit(c) then c as int - '0' as int
    else if c <= 'F' then c as int - 'A' as int + 10
    else c as int - 'a' as int + 10
  }

  /** Half `i` of a byte string: its high and low nibbles in turn. */
  function Nibble(b: ByteString, i: nat): (v: nat)
    requires i < 2 * |b|
    ensures v < 16
  {
    if i % 2 == 0 then b[i / 2] / 16 else b[i / 2] % 16
  }

  /** `b.hex()` */
  function HexText(b: ByteString): (s: string)
    ensures |s| == 2 * |b|
  {
    seq(2 * |b|, i requires 0 <= i < 2 * |b| => DIGITS[Nibble(b, i)])
  }

  /** What `bytes.fromhex` skips between bytes. */
  predicate IsBlank(c: char) {
    c == ' ' || '\t' <= c <= '\r'
  }

  /** `bytes.fromhex(s)`; None is ValueError. */
  function FromHex(s: string): Option<ByteString> {
    if s == "" then Some([])
    else if IsBlank(s[0]) then FromHex(s[1..])
    else if |s| == 1 || !IsHexChar(s[0]) || !IsHexChar(s[1]) then None
    else
      match FromHex(s[2..])
      case None => None
      case Some(rest) => Some([FromPair(s[0], s[1])] + rest)
  }

  function FromPair(high: char, low: char): (b: Byte)
    requires IsHexChar(high) && IsHexChar(low)
  {
    16 * HexVal(high) + HexVal(low)
  }

  lemma DigitValue(v: nat)
    requires v < 16
    ensures IsHexChar(DIGITS[v]) && HexVal(DIGITS[v]) == v
    ensures IsHexChar(UpperChar(DIGITS[v])) && HexVal(UpperChar(DIGITS[v])) == v
  {
    if v < 10 {
      assert DIGITS[..10] == "0123456789";
    } else {
      assert DIGITS[10..] == "abcdef";
      assert DIGITS[v] == DIGITS[10..][v - 10];
    }
  }

  lemma {:induction false} PairsRead(s: string, b: ByteString)
    requires |s| == 2 * |b|
    requires forall i | 0 <= i < |s| :: IsHexChar(s[i]) && HexVal(s[i]) == Nibble(b, i)
    ensures FromHex(s) == Some(b)
  {
    hide HexVal, Nibble;
    if b != [] {
      NibblesOf(b, 0);
      forall i | 0 <= i < |s[2..]| ensures Nibble(b[1..], i) == Nibble(b, i + 2) {
        NibbleShift(b, i);
      }
      PairsRead(s[2..], b[1..]);
      assert IsHexChar(s[0]) && IsHexChar(s[1]) && FromPair(s[0], s[1]) == b[0];
      assert [b[0]] + b[1..] == b;
    }
  }

  lemma NibbleShift(b: ByteString, i: nat)
    requires i + 2 < 2 * |b|
    ensures Nibble(b[1..], i) == Nibble(b, i + 2)
  {
    assert (i + 2) / 2 == i / 2 + 1 && (i + 2) % 2 == i % 2;
  }

  /** Hex characters alone, in pairs, read as a byte a pair. */
  lemma {:induction false} AllHexReads(s: string)
    requires AllHex(s) && |s| % 2 == 0
    ensures FromHex(s).Some? && |s| == 2 * |FromHex(s).value|
  {
    if s != "" {
      AllHexReads(s[2..]);
    }
  }

  lemma NibblesOf(b: ByteString, i: nat)
    requires i < |b|
    ensures 16 * Nibble(b, 2 * i) + Nibble(b, 2 * i + 1) == b[i]
  {
    assert (2 * i) / 2 == i && (2 * i + 1) / 2 == i;
  }

  /** Hex text in either case reads back as the bytes it was printed from. */
  lemma HexRoundTrip(b: ByteString)
    ensures FromHex(HexText(b)) == Some(b)
    ensures FromHex(Upper(HexText(b))) == Some(b)
  {
    hide HexVal, IsHexChar, UpperChar, Nibble, FromHex;
    var s := HexText(b);
    forall i | 0 <= i < |s|
      ensures IsHexChar(s[i]) && HexVal(s[i]) == Nibble(b, i)
      ensures IsHexChar(Upper(s)[i]) && HexVal(Upper(s)[i]) == Nibble(b, i)
    {
      DigitValue(Nibble(b, i));
    }
    PairsRead(s, b);
    PairsRead(Upper(s), b);
  }

  lemma HexInjective(a: ByteString, b: ByteString)
    requires HexText(a) == HexText(b)
    ensures a == b
  {
    HexRoundTrip(a);
    HexRoundTrip(b);
  }

  /** A byte is printed as its two hex digits, the high one first. */
  lemma HexTextExact(b: ByteString, i: nat)
    requires i < |b|
    ensures HexText(b)[2 * i] == "0123456789abcdef"[b[i] / 16]
    ensures HexText(b)[2 * i + 1] == "0123456789abcdef"[b[i] % 16]
  {
    assert (2 * i) / 2 == i && (2 * i + 1) / 2 == i;
  }

  /** What `bytes.fromhex` reads, from the left: a blank is skipped, two hex digits are a byte, and anything else is
      refused. */
  lemma FromHexExact(c: char, d: char, rest: string)
    ensures c in " \t\n\U{b}\U{c}\r" ==> FromHex([c] + rest) == FromHex(rest)
    ensures FromHex("") == Some([])
    ensures c in "0123456789abcdefABCDEF" && d in "0123456789abcdefABCDEF" ==>
      (FromHex([c, d] + rest).Some? <==> FromHex(rest).Some?)
    ensures c !in " \t\n\U{b}\U{c}\r" && c !in "0123456789abcdefABCDEF" ==> FromHex([c] + rest).None?
    ensures c in "0123456789abcdefABCDEF" && d !in "0123456789abcdefABCDEF" ==> FromHex([c, d] + rest).None?
    ensures c in "0123456789abcdefABCDEF" ==> FromHex([c]).None?
  {
    ClassesExact(c);
    ClassesExact(d);
    BlanksExact(c);
    assert ([c] + rest)[1..] == rest && ([c, d] + rest)[2..] == rest;
  }

  lemma BlanksExact(c: char)
    ensures IsBlank(c) <==> c in " \t\n\U{b}\U{c}\r"
    ensures IsBlank(c) ==> c !in "0123456789abcdefABCDEF"
  {
    ClassesExact(c);
    if '\t' <= c <= '\r' {
      assert c == " \t\n\U{b}\U{c}\r"[c as int - 8];
    }
  }
}
