/** Nano addresses: the base-32 codec of `nano_sdk/crypto.py` and the second decoder of `nano_mcp/verify_multi.py`. */
module Addresses {
  import opened Text
  import opened Numerals
  import opened Bytes

  const ALPHABET := "13456789abcdefghijkmnopqrstuwxyz"

  /** blake2b with a 5-byte digest, left uninterpreted. */
  type Blake40 = ByteString -> Bytes5

  /** `c in NANO_ALPHABET` */
  predicate IsB32(c: char) {
    Find(ALPHABET, c) < |ALPHABET|
  }

  predicate AllB32(s: string) {
    forall i | 0 <= i < |s| :: IsB32(s[i])
  }

  /** `_ALPHABET_INDEX[c]` */
  function Index(c: char): (i: nat)
    requires IsB32(c)
    ensures i < 32 && ALPHABET[i] == c
  {
    Find(ALPHABET, c)
  }

  function Indices(s: string): (ds: seq<nat>)
    requires AllB32(s)
    ensures |ds| == |s|
  {
    seq(|s|, i requires 0 <= i < |s| => Index(s[i]))
  }

  /** The number a base-32 string spells. */
  function B32Value(s: string): nat
    requires AllB32(s)
  {
    Value(Indices(s), 32)
  }

  /** `(value >> 5 * k) & 0x1F` */
  function ShiftAndMask(value: nat, k: nat): (d: nat)
    ensures d < 32
  {
    PowPositive(32, k);
    Rem(Quot(value, Pow(32, k)), 32)
  }

  /** `_b32_fixedwidth` */
  function B32FixedWidth(value: nat, width: nat): string {
    seq(width, i requires 0 <= i < width => ALPHABET[ShiftAndMask(value, width - 1 - i)])
  }

  /** `_b32_decode`; shifting left by 5 and or-ing a digit in is `n * 32 + digit`. */
  method B32Decode(s: string) returns (n: nat)
    requires AllB32(s)
    ensures n == B32Value(s)
  {
    n := 0;
    for i := 0 to |s|
      invariant n == Value(Indices(s)[..i], 32)
    {
      n := n * 32 + Index(s[i]);
      assert Indices(s)[..i + 1][..i] == Indices(s)[..i];
    }
    assert Indices(s)[..|s|] == Indices(s);
  }

  /** `checksum`: the digest with its bytes reversed */
  function Checksum(blake: Blake40, key: ByteString): (c: ByteString)
    ensures |c| == 5
  {
    Reverse(blake(key))
  }

  function Body(blake: Blake40, key: Bytes32): string {
    B32FixedWidth(FromBytes(key), 52) + B32FixedWidth(FromBytes(Checksum(blake, key)), 8)
  }

  /** `address_from_public_key` */
  function AddressFromPublicKey(blake: Blake40, key: Bytes32): string {
    "nano_" + Body(blake, key)
  }

  predicate IsBody(s: string) {
    |s| == 60 && s[0] in "13" && AllB32(s)
  }

  /** `ADDRESS_RE` */
  predicate IsAddress(s: string) {
    ("nano_" <= s && IsBody(s[5..])) || ("xrb_" <= s && IsBody(s[4..]))
  }

  /** `address.split("_", 1)[1]` */
  function AfterUnderscore(s: string): string
    requires Find(s, '_') < |s|
  {
    s[Find(s, '_') + 1..]
  }

  lemma BodyAfterUnderscore(s: string)
    requires IsAddress(s)
    ensures Find(s, '_') < |s|
    ensures "nano_" <= s ==> AfterUnderscore(s) == s[5..]
    ensures "xrb_" <= s ==> AfterUnderscore(s) == s[4..]
    ensures IsBody(AfterUnderscore(s))
  {
    hide AllB32, Find, IsBody;
    if "nano_" <= s {
      assert s[0] == 'n' && s[1] == 'a' && s[2] == 'n' && s[3] == 'o' && s[4] == '_';
    } else {
      assert s[0] == 'x' && s[1] == 'r' && s[2] == 'b' && s[3] == '_';
    }
  }

  /** `public_key_from_address`; None is ValueError. */
  function PublicKeyFromAddress(blake: Blake40, address: string): Option<Bytes32> {
    if !IsAddress(address) then None else
      BodyAfterUnderscore(address);
      var body := AfterUnderscore(address);
      var number, check := B32Value(body[..52]), B32Value(body[52..]);
      if number >= Pow(2, 256) then None else
        var key := ToBytes(number, 32);
        if ToBytes(check, 5) != Checksum(blake, key) then None else Some(key)
  }

  predicate ValidateAddress(blake: Blake40, address: string) {
    PublicKeyFromAddress(blake, address).Some?
  }

  // ------------------------------------------------------------------ the base-32 codec

  lemma AlphabetIncreases(i: nat, j: nat)
    requires i < j < 32
    ensures ALPHABET[i] < ALPHABET[j]
  {
  }

  lemma IndexInverts(d: nat)
    requires d < 32
    ensures IsB32(ALPHABET[d]) && Index(ALPHABET[d]) == d
  {
    hide Find;
    forall i | 0 <= i < d ensures ALPHABET[i] != ALPHABET[d] {
      AlphabetIncreases(i, d);
    }
  }

  lemma EncodedDigits(value: nat, width: nat)
    ensures var s := B32FixedWidth(value, width);
      AllB32(s) && Indices(s) == Digits(value, width, 32)
  {
    var s := B32FixedWidth(value, width);
    forall i | 0 <= i < width ensures IsB32(s[i]) && Index(s[i]) == Digits(value, width, 32)[i] {
      IndexInverts(ShiftAndMask(value, width - 1 - i));
      DigitAt(value, width, 32, i);
    }
  }

  lemma B32DecodesWhatItEncodes(value: nat, width: nat)
    requires value < Pow(32, width)
    ensures var s := B32FixedWidth(value, width); AllB32(s) && B32Value(s) == value
  {
    EncodedDigits(value, width);
    ValueOfDigits(value, width, 32);
  }

  lemma B32EncodesWhatItDecodes(s: string)
    requires AllB32(s)
    ensures B32Value(s) < Pow(32, |s|)
    ensures B32FixedWidth(B32Value(s), |s|) == s
  {
    hide Find, Value, Pow, Digits, ShiftAndMask;
    ValueBound(Indices(s), 32);
    DigitsOfValue(Indices(s), 32);
    EncodedDigits(B32Value(s), |s|);
    var t := B32FixedWidth(B32Value(s), |s|);
    forall i | 0 <= i < |s| ensures t[i] == s[i] {
      assert Indices(t)[i] == Indices(s)[i];
    }
  }

  // ------------------------------------------------------------------ widths

  /** 51 base-32 digits and one bit are 256 bits. */
  lemma Widths()
    ensures Pow(2, 256) == Pow(256, 32) == 2 * Pow(32, 51)
    ensures Pow(32, 8) == Pow(256, 5)
    ensures Pow(32, 52) == Pow(32, 51) * 32
  {
    PowersOfTwo();
    PowPow(2, 8, 32);
    PowPow(2, 5, 51);
    PowPow(2, 8, 5);
    PowPow(2, 5, 8);
  }

  lemma PowersOfTwo()
    ensures Pow(2, 8) == 256 && Pow(2, 5) == 32
  {
    assert Pow(2, 4) == 16;
  }

  lemma LeadingDigit(s: string)
    requires |s| == 52 && AllB32(s)
    ensures B32Value(s) < Pow(2, 256) <==> s[0] in "13"
  {
    hide Find;
    Widths();
    var ds := Indices(s);
    assert ds == [ds[0]] + ds[1..];
    ValueConcat([ds[0]], ds[1..], 32);
    ValueBound(ds[1..], 32);
    assert Value([ds[0]], 32) == ds[0];
    FirstTwo(s[0]);
    MulAtLeastTwo(ds[0], Pow(32, 51), Value(ds[1..], 32));
  }

  lemma FirstTwo(c: char)
    requires IsB32(c)
    ensures c in "13" <==> Index(c) < 2
  {
    hide Find;
    IndexInverts(0);
    IndexInverts(1);
    assert ALPHABET[0] == '1' && ALPHABET[1] == '3';
    assert c in "13" <==> c == '1' || c == '3';
  }

  lemma MulAtLeastTwo(d: nat, p: nat, r: nat)
    requires r < p
    ensures d * p + r < 2 * p <==> d < 2
  {
    assert d >= 2 ==> d * p >= 2 * p;
  }

  /** Given the first character, the key field never exceeds 256 bits: that refusal is unreachable. */
  lemma NeverTooWide(address: string)
    requires IsAddress(address)
    ensures Find(address, '_') < |address| && IsBody(AfterUnderscore(address))
    ensures B32Value(AfterUnderscore(address)[..52]) < Pow(2, 256)
  {
    BodyAfterUnderscore(address);
    LeadingDigit(AfterUnderscore(address)[..52]);
  }

  // ------------------------------------------------------------------ the address codec

  lemma BodyDecodes(blake: Blake40, key: Bytes32)
    ensures var body := Body(blake, key);
      && IsBody(body)
      && B32Value(body[..52]) == FromBytes(key) < Pow(2, 256)
      && B32Value(body[52..]) == FromBytes(Checksum(blake, key))
  {
    Widths();
    var check := Checksum(blake, key);
    BytesRoundTrip(key);
    BytesRoundTrip(check);
    B32DecodesWhatItEncodes(FromBytes(key), 52);
    B32DecodesWhatItEncodes(FromBytes(check), 8);
    var body := Body(blake, key);
    assert body[..52] == B32FixedWidth(FromBytes(key), 52);
    assert body[52..] == B32FixedWidth(FromBytes(check), 8);
    LeadingDigit(body[..52]);
  }

  /** Decoding inverts encoding on every key, under either prefix. */
  lemma DecodeInvertsEncode(blake: Blake40, key: Bytes32)
    ensures PublicKeyFromAddress(blake, AddressFromPublicKey(blake, key)) == Some(key)
    ensures PublicKeyFromAddress(blake, "xrb_" + Body(blake, key)) == Some(key)
  {
    BodyDecodes(blake, key);
    BytesRoundTrip(key);
    BytesRoundTrip(Checksum(blake, key));
    var body := Body(blake, key);
    hide AllB32, Find, Body;
    assert ("nano_" + body)[5..] == body && ("xrb_" + body)[4..] == body;
    BodyAfterUnderscore("nano_" + body);
    BodyAfterUnderscore("xrb_" + body);
  }

  /** Encoding inverts decoding: an accepted address is its key's address, but for the prefix. */
  lemma EncodeInvertsDecode(blake: Blake40, address: string)
    requires PublicKeyFromAddress(blake, address).Some?
    ensures var key := PublicKeyFromAddress(blake, address).value;
      && ("nano_" <= address ==> address == AddressFromPublicKey(blake, key))
      && ("xrb_" <= address ==> address == "xrb_" + Body(blake, key))
  {
    hide Find, AllB32, Body;
    BodyAfterUnderscore(address);
    BodyOfKey(blake, AfterUnderscore(address), PublicKeyFromAddress(blake, address).value);
  }

  lemma BodyOfKey(blake: Blake40, body: string, key: Bytes32)
    requires IsBody(body)
    requires B32Value(body[..52]) < Pow(2, 256) && key == ToBytes(B32Value(body[..52]), 32)
    requires ToBytes(B32Value(body[52..]), 5) == Checksum(blake, key)
    ensures body == Body(blake, key)
  {
    hide Find, IsB32;
    Widths();
    B32EncodesWhatItDecodes(body[..52]);
    B32EncodesWhatItDecodes(body[52..]);
    NumberRoundTrip(B32Value(body[..52]), 32);
    NumberRoundTrip(B32Value(body[52..]), 5);
  }

  /** Two keys never share an address. */
  lemma AddressInjective(blake: Blake40, k1: Bytes32, k2: Bytes32)
    requires AddressFromPublicKey(blake, k1) == AddressFromPublicKey(blake, k2)
    ensures k1 == k2
  {
    DecodeInvertsEncode(blake, k1);
    DecodeInvertsEncode(blake, k2);
  }

  // ------------------------------------------------------------------ the second decoder

  /** `account_to_pubkey` of verify_multi.py: it masks the number to 256 bits and compares the reversed digest. It
      accepts the same strings as `public_key_from_address`, with the same keys. */
  method AccountToPubkey(blake: Blake40, address: string) returns (r: Option<Bytes32>)
    ensures r == PublicKeyFromAddress(blake, address)
  {
    hide Find, Digits, Pow;
    if !IsAddress(address) {
      return None;
    }
    var body := address[if "nano_" <= address then 5 else 4..];
    BodyAfterUnderscore(address);
    var front, back := body[..52], body[52..];
    var n := 0;
    for i := 0 to 52
      invariant n == Value(Indices(front)[..i], 32)
    {
      n := n * 32 + Index(front[i]);
      assert Indices(front)[..i + 1][..i] == Indices(front)[..i];
    }
    assert Indices(front)[..52] == Indices(front);
    NeverTooWide(address);
    PowPositive(2, 256);
    var masked := Rem(n, Pow(2, 256));
    DivModSplit(0, Pow(2, 256), n);
    var key: Bytes32 := ToBytes(masked, 32);
    var check := 0;
    for i := 0 to 8
      invariant check == Value(Indices(back)[..i], 32)
    {
      check := check * 32 + Index(back[i]);
      assert Indices(back)[..i + 1][..i] == Indices(back)[..i];
    }
    assert Indices(back)[..8] == Indices(back);
    if Reverse(blake(key)) != ToBytes(check, 5) {
      return None;
    }
    return Some(key);
  }

  // ------------------------------------------------------------------ the layout, character by character

  /** An address is `nano_`, the key in 52 base-32 digits and, in eight, the digest's five bytes from last to first. */
  lemma AddressLayout(blake: Blake40, key: Bytes32, i: nat)
    ensures var a, digest := AddressFromPublicKey(blake, key), blake(key);
      && |a| == 65 && a[..5] == "nano_"
      && (i < 52 ==> a[5 + i] == "13456789abcdefghijkmnopqrstuwxyz"[ShiftAndMask(FromBytes(key), 51 - i)])
      && (i < 8 ==> a[57 + i] == "13456789abcdefghijkmnopqrstuwxyz"[
           ShiftAndMask(FromBytes([digest[4], digest[3], digest[2], digest[1], digest[0]]), 7 - i)])
  {
    hide FromBytes, ShiftAndMask;
    var digest := blake(key);
    assert Checksum(blake, key) == [digest[4], digest[3], digest[2], digest[1], digest[0]];
  }

  /** Shifting and masking reads digit `k` from the right: what is left after `k` divisions by 32, modulo 32. */
  lemma ShiftAndMaskExact(value: nat, k: nat, q: nat, d: nat, low: nat)
    requires value == (q * 32 + d) * Pow(32, k) + low && d < 32 && low < Pow(32, k)
    ensures ShiftAndMask(value, k) == d
  {
    hide DivMod;
    DivModSplit(q * 32 + d, Pow(32, k), low);
    DivModSplit(q, 32, d);
  }

  predicate IsSplit(s: string, prefix: string, body: string) {
    s == prefix + body
  }

  /** `1` or `3`, and 59 more characters of the alphabet. */
  predicate IsTail(body: string) {
    && |body| == 60 && (body[0] == '1' || body[0] == '3')
    && forall i | 0 <= i < 60 :: body[i] in "13456789abcdefghijkmnopqrstuwxyz"
  }

  /** A spelling is an address exactly when it is one of the two prefixes and such a tail. */
  lemma AddressShape(s: string)
    ensures IsAddress(s) <==> exists body :: (IsSplit(s, "nano_", body) || IsSplit(s, "xrb_", body)) && IsTail(body)
  {
    hide IsBody, IsTail;
    if "nano_" <= s {
      TailExact(s[5..]);
      assert IsSplit(s, "nano_", s[5..]);
    }
    if "xrb_" <= s {
      TailExact(s[4..]);
      assert IsSplit(s, "xrb_", s[4..]);
    }
    forall body | IsSplit(s, "nano_", body) || IsSplit(s, "xrb_", body)
      ensures ("nano_" <= s && body == s[5..]) || ("xrb_" <= s && body == s[4..])
    {
    }
  }

  lemma TailExact(body: string)
    ensures IsBody(body) <==> IsTail(body)
  {
    forall i | 0 <= i < |body| ensures IsB32(body[i]) <==> body[i] in "13456789abcdefghijkmnopqrstuwxyz" {
      InAlphabet(body[i]);
    }
    if body != "" {
      assert body[0] in "13" <==> body[0] == "13"[0] || body[0] == "13"[1];
    }
  }

  lemma InAlphabet(c: char)
    ensures IsB32(c) <==> c in "13456789abcdefghijkmnopqrstuwxyz"
  {
    if IsB32(c) {
      assert ALPHABET[Find(ALPHABET, c)] == c;
    }
  }
}
