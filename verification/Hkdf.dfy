/** HKDF-SHA256, written twice: `nano_mcp/oneshot.py` and `nano_sdk/buyer.py`; and the accounts derived with it. */
module Hkdf {
  import opened Text
  import opened Bytes
  import opened Addresses

  /** HMAC-SHA256 of a key and a message, left uninterpreted. */
  type Hmac = (ByteString, ByteString) -> Bytes32

  const HASH_LEN := 32

  function ZeroSalt(): ByteString {
    seq(HASH_LEN, _ => 0)
  }

  // ------------------------------------------------------------------ RFC 5869

  /** Section 2.2: HKDF-Extract */
  function Extract(hmac: Hmac, salt: ByteString, ikm: ByteString): ByteString {
    hmac(salt, ikm)
  }

  /** Section 2.3: T(i) */
  function T(hmac: Hmac, prk: ByteString, info: ByteString, i: nat): ByteString
    requires i <= 255
  {
    if i == 0 then [] else hmac(prk, T(hmac, prk, info, i - 1) + info + [i])
  }

  /** Section 2.3: T(1) | T(2) | ... | T(n) */
  function Stream(hmac: Hmac, prk: ByteString, info: ByteString, n: nat): (okm: ByteString)
    requires n <= 255
    ensures |okm| == n * HASH_LEN
  {
    if n == 0 then [] else Stream(hmac, prk, info, n - 1) + T(hmac, prk, info, n)
  }

  /** N = ceil(L / HashLen) */
  function BlocksFor(length: nat): nat {
    (length + HASH_LEN - 1) / HASH_LEN
  }

  /** Section 2.3: the first L octets of T, for L at most 255 * HashLen */
  function Expand(hmac: Hmac, prk: ByteString, info: ByteString, length: nat): (okm: ByteString)
    requires length <= 255 * HASH_LEN
    ensures |okm| == length
  {
    Stream(hmac, prk, info, BlocksFor(length))[..length]
  }

  // ------------------------------------------------------------------ the two loops

  /** `oneshot.hkdf_sha256`; None is the ValueError of a counter that does not fit a byte. */
  method HkdfOneshot(hmac: Hmac, ikm: ByteString, salt: Option<ByteString>, info: ByteString, length: nat)
    returns (r: Option<ByteString>)
    ensures r == if length <= 255 * HASH_LEN then
                   Some(Expand(hmac, Extract(hmac, salt.GetOr(ZeroSalt()), ikm), info, length))
                 else None
  {
    var prk := hmac(if salt.None? then ZeroSalt() else salt.value, ikm);
    var okm: ByteString := [];
    var t: ByteString := [];
    var counter := 1;
    while |okm| < length
      invariant 1 <= counter <= 256
      invariant okm == Stream(hmac, prk, info, counter - 1)
      invariant t == T(hmac, prk, info, counter - 1)
      invariant counter > 1 ==> (counter - 2) * HASH_LEN < length
      decreases 256 - counter
    {
      if counter > 255 {
        return None;
      }
      t := hmac(prk, t + info + [counter]);
      okm := okm + t;
      counter := counter + 1;
    }
    BlocksCover(length, counter - 1);
    return Some(okm[..length]);
  }

  /** `buyer._hkdf_sha256`; asked for more than 8160 bytes it returns 8160. */
  method HkdfBuyer(hmac: Hmac, ikm: ByteString, info: ByteString, length: nat) returns (r: ByteString)
    ensures length <= 255 * HASH_LEN ==> r == Expand(hmac, Extract(hmac, ZeroSalt(), ikm), info, length)
    ensures length > 255 * HASH_LEN ==> r == Stream(hmac, Extract(hmac, ZeroSalt(), ikm), info, 255)
  {
    var prk := hmac(ZeroSalt(), ikm);
    var okm: ByteString := [];
    var t: ByteString := [];
    var counter := 1;
    while counter < 256
      invariant 1 <= counter <= 256
      invariant okm == Stream(hmac, prk, info, counter - 1)
      invariant t == T(hmac, prk, info, counter - 1)
      invariant counter > 1 ==> (counter - 1) * HASH_LEN < length
    {
      t := hmac(prk, t + info + [counter]);
      okm := okm + t;
      if |okm| >= length {
        StreamPrefix(hmac, prk, info, BlocksFor(length), counter);
        return okm[..length];
      }
      counter := counter + 1;
    }
    // `okm[:length]` of a shorter string is all of it
    return okm;
  }

  lemma BlocksCover(length: nat, n: nat)
    requires n * HASH_LEN >= length && (n > 0 ==> (n - 1) * HASH_LEN < length)
    ensures n == BlocksFor(length)
  {
  }

  /** A shorter stream is a prefix of a longer one. */
  lemma {:induction false} StreamPrefix(hmac: Hmac, prk: ByteString, info: ByteString, m: nat, n: nat)
    requires m <= n <= 255
    ensures Stream(hmac, prk, info, n)[..m * HASH_LEN] == Stream(hmac, prk, info, m)
  {
    if m == n {
    } else {
      StreamPrefix(hmac, prk, info, m, n - 1);
      assert Stream(hmac, prk, info, n)[..m * HASH_LEN] == Stream(hmac, prk, info, n - 1)[..m * HASH_LEN];
    }
  }

  /** A shorter output is a prefix of a longer one. */
  lemma ExpandPrefix(hmac: Hmac, prk: ByteString, info: ByteString, short: nat, long: nat)
    requires short <= long <= 255 * HASH_LEN
    ensures Expand(hmac, prk, info, long)[..short] == Expand(hmac, prk, info, short)
  {
    var m, n := BlocksFor(short), BlocksFor(long);
    StreamPrefix(hmac, prk, info, m, n);
    assert Stream(hmac, prk, info, n)[..m * HASH_LEN][..short] == Stream(hmac, prk, info, n)[..short];
  }

  // ------------------------------------------------------------------ derived accounts

  /** What deriving an account relies on: HMAC, UTF-8, and the Ed25519 public key of a private key. */
  datatype Keys = Keys(hmac: Hmac, utf8: string -> ByteString, publicKey: Bytes32 -> Bytes32, blake40: Blake40)

  /** `derive_one_time_account`: the private key of a request id */
  function OneTimeKey(k: Keys, master: ByteString, requestId: string): Bytes32 {
    Expand(k.hmac, Extract(k.hmac, ZeroSalt(), master), k.utf8(requestId), 32)
  }

  function OneTimeAddress(k: Keys, master: ByteString, requestId: string): string {
    AddressFromPublicKey(k.blake40, k.publicKey(OneTimeKey(k, master, requestId)))
  }

  /** A 32-byte key is one HMAC block. */
  lemma OneTimeKeyIsOneBlock(k: Keys, master: ByteString, requestId: string)
    ensures OneTimeKey(k, master, requestId) == k.hmac(k.hmac(ZeroSalt(), master), k.utf8(requestId) + [1])
  {
    var prk := Extract(k.hmac, ZeroSalt(), master);
    assert BlocksFor(32) == 1;
    var info := k.utf8(requestId);
    assert T(k.hmac, prk, info, 1) == k.hmac(prk, T(k.hmac, prk, info, 0) + info + [1]);
    assert T(k.hmac, prk, info, 0) + info == info;
    assert Stream(k.hmac, prk, info, 1) == Stream(k.hmac, prk, info, 0) + T(k.hmac, prk, info, 1);
  }

  /** UTF-8, HMAC and the public-key map keep two request ids apart. */
  predicate NoCollision(k: Keys, master: ByteString, r1: string, r2: string) {
    var prk := k.hmac(ZeroSalt(), master);
    var m1, m2 := k.utf8(r1) + [1], k.utf8(r2) + [1];
    && (k.utf8(r1) == k.utf8(r2) ==> r1 == r2)
    && (k.hmac(prk, m1) == k.hmac(prk, m2) ==> m1 == m2)
    && (k.publicKey(k.hmac(prk, m1)) == k.publicKey(k.hmac(prk, m2)) ==> k.hmac(prk, m1) == k.hmac(prk, m2))
  }

  /** Two request ids share a one-time address only if UTF-8, HMAC or the public-key map collides on them; the
      derivation and the address codec add no collision of their own. */
  lemma OneTimeAddressesDistinct(k: Keys, master: ByteString, r1: string, r2: string)
    requires NoCollision(k, master, r1, r2)
    ensures OneTimeAddress(k, master, r1) == OneTimeAddress(k, master, r2) <==> r1 == r2
  {
    hide AddressFromPublicKey, Expand;
    OneTimeKeyIsOneBlock(k, master, r1);
    OneTimeKeyIsOneBlock(k, master, r2);
    if OneTimeAddress(k, master, r1) == OneTimeAddress(k, master, r2) {
      AddressInjective(k.blake40, k.publicKey(OneTimeKey(k, master, r1)), k.publicKey(OneTimeKey(k, master, r2)));
      var x, y := k.utf8(r1) + [1], k.utf8(r2) + [1];
      assert x[..|x| - 1] == k.utf8(r1) && y[..|y| - 1] == k.utf8(r2);
    }
  }

  /** The first blocks of the output, spelt out: each HMAC takes the one before, the info and the count of the block. */
  lemma FirstBlocks(hmac: Hmac, ikm: ByteString, info: ByteString, length: nat)
    ensures |ZeroSalt()| == 32 && forall i | 0 <= i < 32 :: ZeroSalt()[i] == 0
    ensures var prk := hmac(seq(32, _ => 0), ikm);
      var t1 := hmac(prk, info + [1]);
      var t2 := hmac(prk, t1 + info + [2]);
      length <= 64 ==> Expand(hmac, Extract(hmac, ZeroSalt(), ikm), info, length) == (t1 + t2)[..length]
  {
    var prk := hmac(seq(32, _ => 0), ikm);
    assert ZeroSalt() == seq(32, _ => 0);
    var t1 := hmac(prk, info + [1]);
    assert T(hmac, prk, info, 0) + info + [1] == info + [1];
    assert T(hmac, prk, info, 1) == t1;
    assert T(hmac, prk, info, 2) == hmac(prk, t1 + info + [2]);
    assert Stream(hmac, prk, info, 1) == Stream(hmac, prk, info, 0) + t1 == t1;
    assert Stream(hmac, prk, info, 2) == t1 + T(hmac, prk, info, 2);
    if length <= 64 {
      ExpandPrefix(hmac, prk, info, length, 64);
      assert Expand(hmac, prk, info, 64) == t1 + T(hmac, prk, info, 2);
    }
  }
}
