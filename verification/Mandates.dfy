/** Owner-signed mandates (`nano_sdk/buyer.py`): the bytes that are signed, and the check of a mandate. */
module Mandates {
  import opened Text
  import opened Bytes
  import opened Hex
  import opened Decimals
  import opened Addresses

  /** Text encoding, `repr` of a clock reading, and Ed25519 verification, left uninterpreted. */
  datatype Codec = Codec(utf8: string -> ByteString, repr: real -> string,
                         verify: (Bytes32, ByteString, ByteString) -> bool, blake40: Blake40)

  datatype Mandate = Mandate(sessionId: string, address: string, capRaw: int, issuedAt: real, expiresAt: real,
                             nonce: ByteString, version: int, signature: ByteString)

  const TAG := "nano-mandate"

  /** `b"\0".join(parts)` */
  function Join(parts: seq<ByteString>): ByteString
    requires parts != []
  {
    if |parts| == 1 then parts[0] else Join(parts[..|parts| - 1]) + [0] + parts[|parts| - 1]
  }

  /** The fields that are signed, in order. */
  function Parts(cd: Codec, m: Mandate): seq<ByteString> {
    [cd.utf8(TAG), cd.utf8(IntText(m.version)), cd.utf8(m.sessionId), cd.utf8(m.address), cd.utf8(IntText(m.capRaw)),
     cd.utf8(cd.repr(m.issuedAt)), cd.utf8(cd.repr(m.expiresAt)), cd.utf8(HexText(m.nonce))]
  }

  /** `Mandate.canonical` */
  function Canonical(cd: Codec, m: Mandate): ByteString {
    Join(Parts(cd, m))
  }

  datatype MandateError = BadOwnerKey | Unsigned | NonPositiveCap | BadAddress | BadSignature | ExpiredMandate

  /** `verify_mandate`: the first thing wrong, if anything. */
  function VerifyMandate(cd: Codec, m: Mandate, ownerKey: ByteString, now: real): Option<MandateError> {
    if |ownerKey| != 32 then Some(BadOwnerKey)
    else if m.signature == [] then Some(Unsigned)
    else if m.capRaw <= 0 then Some(NonPositiveCap)
    else if !ValidateAddress(cd.blake40, m.address) then Some(BadAddress)
    else if !cd.verify(ownerKey, m.signature, Canonical(cd, m)) then Some(BadSignature)
    else if now > m.expiresAt then Some(ExpiredMandate)
    else None
  }

  // ------------------------------------------------------------------ the signed bytes are unambiguous

  predicate NulFree(b: ByteString) {
    forall i | 0 <= i < |b| :: b[i] != 0
  }

  predicate NulFreeText(s: string) {
    forall i | 0 <= i < |s| :: s[i] != 0 as char
  }

  /** What UTF-8 and `repr(float)` are relied on for: UTF-8 is injective and spells NUL only for NUL; on the clock
      readings at hand, `repr` is injective and its text has no NUL. */
  ghost predicate Sane(cd: Codec, times: set<real>) {
    && (forall s: string, t: string :: cd.utf8(s) == cd.utf8(t) ==> s == t)
    && (forall s: string :: NulFreeText(s) ==> NulFree(cd.utf8(s)))
    && (forall x, y | x in times && y in times :: cd.repr(x) == cd.repr(y) ==> x == y)
    && (forall x | x in times :: NulFreeText(cd.repr(x)))
  }

  function Times(m: Mandate): set<real> {
    {m.issuedAt, m.expiresAt}
  }

  /** A NUL-free last field can be told apart. */
  lemma PeelLast(x1: ByteString, y1: ByteString, x2: ByteString, y2: ByteString)
    requires NulFree(y1) && NulFree(y2)
    requires x1 + [0] + y1 == x2 + [0] + y2
    ensures x1 == x2 && y1 == y2
  {
    var s := x1 + [0] + y1;
    assert s[|x1|] == 0 && s[|x2|] == 0;
    assert s == x2 + [0] + y2;
    assert |x1| == |x2|;
    assert x1 == s[..|x1|] && x2 == s[..|x2|];
    assert y1 == s[|x1| + 1..] && y2 == s[|x2| + 1..];
  }

  /** A NUL-free first field can be told apart. */
  lemma PeelFirst(x1: ByteString, y1: ByteString, x2: ByteString, y2: ByteString)
    requires NulFree(x1) && NulFree(x2)
    requires x1 + [0] + y1 == x2 + [0] + y2
    ensures x1 == x2 && y1 == y2
  {
    var s := x1 + [0] + y1;
    assert s == x2 + [0] + y2;
    assert s[|x1|] == 0 && s[|x2|] == 0;
    assert |x1| == |x2|;
    assert x1 == s[..|x1|] && x2 == s[..|x2|];
    assert y1 == s[|x1| + 1..] && y2 == s[|x2| + 1..];
  }

  /** Lists of as many parts, of which all after the third are NUL-free, join alike only if those agree and the first
      three join alike. */
  lemma {:induction false} JoinTail(p: seq<ByteString>, q: seq<ByteString>)
    requires |p| == |q| >= 3
    requires forall i | 3 <= i < |p| :: NulFree(p[i]) && NulFree(q[i])
    requires Join(p) == Join(q)
    ensures p[3..] == q[3..] && Join(p[..3]) == Join(q[..3])
  {
    if |p| == 3 {
      assert p[..3] == p && q[..3] == q;
    } else {
      var n := |p| - 1;
      PeelLast(Join(p[..n]), p[n], Join(q[..n]), q[n]);
      JoinTail(p[..n], q[..n]);
      assert p[..n][..3] == p[..3] && q[..n][..3] == q[..3];
      assert p[3..] == p[..n][3..] + [p[n]] && q[3..] == q[..n][3..] + [q[n]];
    }
  }

  lemma JoinOfThree(a: ByteString, b: ByteString, c: ByteString)
    ensures Join([a, b, c]) == a + [0] + (b + [0] + c)
  {
    assert [a, b, c][..2] == [a, b] && [a, b][..1] == [a];
    assert Join([a, b]) == a + [0] + b;
  }

  /** Joined lists of eight determine their parts, even if the third one holds NULs. */
  lemma JoinInjective(p: seq<ByteString>, q: seq<ByteString>)
    requires |p| == |q| == 8
    requires forall i | 0 <= i < 8 && i != 2 :: NulFree(p[i]) && NulFree(q[i])
    requires Join(p) == Join(q)
    ensures p == q
  {
    JoinTail(p, q);
    assert p[..3] == [p[0], p[1], p[2]] && q[..3] == [q[0], q[1], q[2]];
    JoinOfThree(p[0], p[1], p[2]);
    JoinOfThree(q[0], q[1], q[2]);
    PeelFirst(p[0], p[1] + [0] + p[2], q[0], q[1] + [0] + q[2]);
    PeelFirst(p[1], p[2], q[1], q[2]);
    assert p == p[..3] + p[3..] && q == q[..3] + q[3..];
  }

  lemma {:induction false} NatTextNulFree(n: nat)
    ensures NulFreeText(NatText(n))
  {
    var s := NatText(n);
    forall i | 0 <= i < |s| ensures s[i] != 0 as char {
      assert IsDigit(s[i]);
    }
  }

  lemma IntTextNulFree(n: int)
    ensures NulFreeText(IntText(n))
  {
    NatTextNulFree(if n < 0 then -n else n);
  }

  lemma HexTextNulFree(b: ByteString)
    ensures NulFreeText(HexText(b))
  {
    var s := HexText(b);
    forall i | 0 <= i < |s| ensures s[i] != 0 as char {
      DigitValue(Nibble(b, i));
    }
  }

  lemma AddressNulFree(blake: Blake40, address: string)
    requires ValidateAddress(blake, address)
    ensures NulFreeText(address)
  {
    hide AllB32, Find;
    EncodeInvertsDecode(blake, address);
    var key := PublicKeyFromAddress(blake, address).value;
    BodyDecodes(blake, key);
    var body := Body(blake, key);
    BodyNulFree(body);
    assert address == "nano_" + body || address == "xrb_" + body;
  }

  lemma BodyNulFree(body: string)
    requires AllB32(body)
    ensures NulFreeText(body)
  {
    forall i | 0 <= i < |body| ensures body[i] != 0 as char {
      var k := Index(body[i]);
      AlphabetAboveNul(k);
    }
  }

  lemma AlphabetAboveNul(k: nat)
    requires k < 32
    ensures ALPHABET[k] != 0 as char
  {
    if k > 0 {
      AlphabetIncreases(0, k);
    }
  }

  /** Two mandates with valid addresses are signed over the same bytes only if they are the same grant, whatever their
      session ids contain. */
  lemma CanonicalInjective(cd: Codec, m1: Mandate, m2: Mandate)
    requires Sane(cd, Times(m1) + Times(m2))
    requires ValidateAddress(cd.blake40, m1.address) && ValidateAddress(cd.blake40, m2.address)
    requires Canonical(cd, m1) == Canonical(cd, m2)
    ensures m1.(signature := []) == m2.(signature := [])
  {
    hide IntText, HexText, ValidateAddress, Join;
    var times := Times(m1) + Times(m2);
    FieldsNulFree(cd, m1, times);
    FieldsNulFree(cd, m2, times);
    var p, q := Parts(cd, m1), Parts(cd, m2);
    JoinInjective(p, q);
    assert forall i | 0 <= i < 8 :: p[i] == q[i];
    IntTextInjective(m1.version, m2.version);
    IntTextInjective(m1.capRaw, m2.capRaw);
    HexInjective(m1.nonce, m2.nonce);
  }

  lemma FieldsNulFree(cd: Codec, m: Mandate, times: set<real>)
    requires Sane(cd, times) && Times(m) <= times && ValidateAddress(cd.blake40, m.address)
    ensures forall i | 0 <= i < 8 && i != 2 :: NulFree(Parts(cd, m)[i])
  {
    hide IntText, HexText, ValidateAddress;
    IntTextNulFree(m.version);
    IntTextNulFree(m.capRaw);
    HexTextNulFree(m.nonce);
    AddressNulFree(cd.blake40, m.address);
    assert NulFreeText(TAG);
  }

  /** A signature that verifies binds every field of the grant: if under the owner's key signatures verify for the bytes
      of the mandates the owner issued only, every mandate that passes the check grants what one of those grants. */
  lemma SignatureBindsGrant(cd: Codec, ownerKey: ByteString, issued: set<Mandate>, presented: Mandate, now: real)
    requires forall m | m in issued ::
      Sane(cd, Times(m) + Times(presented)) && ValidateAddress(cd.blake40, m.address)
    requires |ownerKey| == 32 ==> forall message, signature | cd.verify(ownerKey, signature, message) ::
      exists m | m in issued :: message == Canonical(cd, m)
    requires VerifyMandate(cd, presented, ownerKey, now).None?
    ensures exists m | m in issued :: presented.(signature := []) == m.(signature := [])
    ensures now <= presented.expiresAt && presented.capRaw > 0
  {
    hide Canonical, ValidateAddress, Sane;
    var m :| m in issued && Canonical(cd, presented) == Canonical(cd, m);
    CanonicalInjective(cd, m, presented);
  }

  // ------------------------------------------------------------------ the signed bytes, field by field

  /** The signed bytes are these eight texts with a NUL between each two. */
  lemma CanonicalExact(cd: Codec, m: Mandate)
    ensures Canonical(cd, m) ==
      cd.utf8("nano-mandate") + [0] + cd.utf8(IntText(m.version)) + [0] + cd.utf8(m.sessionId) + [0]
      + cd.utf8(m.address) + [0] + cd.utf8(IntText(m.capRaw)) + [0] + cd.utf8(cd.repr(m.issuedAt)) + [0]
      + cd.utf8(cd.repr(m.expiresAt)) + [0] + cd.utf8(HexText(m.nonce))
  {
    var p := Parts(cd, m);
    JoinOfOne(p[0]);
    JoinSnoc(p, 1);
    JoinSnoc(p, 2);
    JoinSnoc(p, 3);
    JoinSnoc(p, 4);
    JoinSnoc(p, 5);
    JoinSnoc(p, 6);
    JoinSnoc(p, 7);
    assert p[..1] == [p[0]] && p[..8] == p;
  }

  lemma JoinOfOne(b: ByteString)
    ensures Join([b]) == b
  {
  }

  lemma JoinSnoc(p: seq<ByteString>, n: nat)
    requires 1 <= n < |p|
    ensures Join(p[..n + 1]) == Join(p[..n]) + [0] + p[n]
  {
    assert p[..n + 1][..n] == p[..n];
  }

  /** Which thing is found wrong with a mandate, exactly: the first of these that is. */
  lemma VerifyExact(cd: Codec, m: Mandate, ownerKey: ByteString, now: real)
    ensures var r := VerifyMandate(cd, m, ownerKey, now);
      var valid := PublicKeyFromAddress(cd.blake40, m.address).Some?;
      && (r == Some(BadOwnerKey) <==> |ownerKey| != 32)
      && (r == Some(Unsigned) <==> |ownerKey| == 32 && |m.signature| == 0)
      && (r == Some(NonPositiveCap) <==> |ownerKey| == 32 && |m.signature| > 0 && m.capRaw <= 0)
      && (r == Some(BadAddress) <==> |ownerKey| == 32 && |m.signature| > 0 && m.capRaw >= 1 && !valid)
      && (r == Some(BadSignature) <==>
           && |ownerKey| == 32 && |m.signature| > 0 && m.capRaw >= 1 && valid
           && !cd.verify(ownerKey, m.signature, Canonical(cd, m)))
      && (r == Some(ExpiredMandate) <==>
           && |ownerKey| == 32 && |m.signature| > 0 && m.capRaw >= 1 && valid
           && cd.verify(ownerKey, m.signature, Canonical(cd, m)) && now > m.expiresAt)
      && (r == None <==>
           && |ownerKey| == 32 && |m.signature| > 0 && m.capRaw >= 1 && valid
           && cd.verify(ownerKey, m.signature, Canonical(cd, m)) && now <= m.expiresAt)
  {
    hide Canonical, PublicKeyFromAddress;
  }
}
