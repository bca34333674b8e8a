/** State blocks: built by `nano_sdk/block.py`, re-hashed by `nano_mcp/verify_multi.py`. */
module Blocks {
  import opened Text
  import opened Numerals
  import opened Bytes
  import opened Hex
  import opened Decimals
  import opened Json
  import opened Addresses

  /** The digests and the signature, left uninterpreted. */
  datatype Crypto = Crypto(blake40: Blake40, blake256: ByteString -> Bytes32,
                           sign: (ByteString, ByteString) -> ByteString)

  const STATE_PREAMBLE := 6

  /** The bytes of a block, field after field. */
  function Preimage(account: ByteString, previous: ByteString, representative: ByteString, balance: nat,
                    link: ByteString)
    : ByteString
  {
    ToBytes(STATE_PREAMBLE, 32) + account + previous + representative + ToBytes(balance, 16) + link
  }

  /** `_block_bytes`; None is ValueError. */
  function BlockBytes(account: ByteString, previous: ByteString, representative: ByteString, balance: int,
                      link: ByteString)
    : Option<ByteString>
  {
    if |account| != 32 || |previous| != 32 || |representative| != 32 || |link| != 32 then None
    else if !(0 <= balance < Pow(2, 128)) then None
    else Some(Preimage(account, previous, representative, balance, link))
  }

  /** `block_hash` */
  function BlockHash(cr: Crypto, account: ByteString, previous: ByteString, representative: ByteString, balance: int,
                     link: ByteString): Option<Bytes32>
  {
    match BlockBytes(account, previous, representative, balance, link)
    case None => None
    case Some(bytes) => Some(cr.blake256(bytes))
  }

  /** The text fields of a block as the `process` RPC takes it. */
  datatype BlockDict = BlockDict(account: string, previous: string, representative: string, balance: string,
                                 link: string, linkAsAccount: string, signature: string, work: string)

  /** The dictionary itself. */
  function DictJson(b: BlockDict): (c: Json)
    ensures c.Obj?
  {
    Obj(map[
      "type" := Str("state"),
      "account" := Str(b.account),
      "previous" := Str(b.previous),
      "representative" := Str(b.representative),
      "balance" := Str(b.balance),
      "link" := Str(b.link),
      "link_as_account" := Str(b.linkAsAccount),
      "signature" := Str(b.signature),
      "work" := Str(b.work)])
  }

  /** `build_send_block`; None is ValueError. */
  function BuildSendBlock(cr: Crypto, privateKey: ByteString, accountKey: ByteString, accountAddress: string,
                          previous: ByteString, representative: string, newBalance: int, destination: string,
                          work: string)
    : Option<BlockDict>
  {
    if |previous| != 32 || |privateKey| != 32 then None
    else match (PublicKeyFromAddress(cr.blake40, destination), PublicKeyFromAddress(cr.blake40, representative))
      case (Some(destinationKey), Some(representativeKey)) => (
        match BlockHash(cr, accountKey, previous, representativeKey, newBalance, destinationKey)
        case None => None
        case Some(digest) => Some(BlockDict(
          accountAddress, Upper(HexText(previous)), representative, IntText(newBalance), Upper(HexText(destinationKey)),
          destination, Upper(HexText(cr.sign(privateKey, digest))), work)))
      case _ => None
  }

  /** `account_to_pubkey(c[key])`; None is KeyError, TypeError or ValueError. */
  function AddressIn(cr: Crypto, c: Json, key: string): Option<Bytes32>
    requires c.Obj?
  {
    var v := Get(c, key);
    if v.Str? then PublicKeyFromAddress(cr.blake40, v.s) else None
  }

  /** `bytes.fromhex(c[key])`, likewise */
  function HexIn(c: Json, key: string): Option<ByteString>
    requires c.Obj?
  {
    var v := Get(c, key);
    if v.Str? then FromHex(v.s) else None
  }

  /** `int(c["balance"])`, likewise; a number is as good as text. */
  function BalanceIn(c: Json): Option<int>
    requires c.Obj?
  {
    match Get(c, "balance")
    case Str(s) => ParseInt(s)
    case Int(n) => Some(n)
    case Bool(b) => Some(if b then 1 else 0)
    case Float(x) => Some(Truncate(x))
    case _ => None
  }

  /** What re-hashing contents can do: a hash, an exception the reader catches, or the OverflowError of a balance
      outside 128 bits, which it does not. */
  datatype Rehash = Hashed(hex: string) | Unreadable | Overflow

  /** `state_block_hash`; it checks no field length but those its decoders check. */
  function StateBlockHash(cr: Crypto, c: Json): Rehash
    requires c.Obj?
  {
    match (AddressIn(cr, c, "account"), HexIn(c, "previous"), AddressIn(cr, c, "representative"), BalanceIn(c))
    case (Some(account), Some(previous), Some(representative), Some(balance)) =>
      if !(0 <= balance < Pow(2, 128)) then Overflow
      else (
        match HexIn(c, "link")
        case None => Unreadable
        case Some(link) =>
          Hashed(Upper(HexText(cr.blake256(Preimage(account, previous, representative, balance, link))))))
    case _ => Unreadable
  }

  // ------------------------------------------------------------------ properties

  lemma BalanceWidth()
    ensures Pow(2, 128) == Pow(256, 16)
  {
    PowersOfTwo();
    PowPow(2, 8, 16);
  }

  /** The layout of a block's 176 bytes. */
  lemma BlockLayout(account: ByteString, previous: ByteString, representative: ByteString, balance: int,
                    link: ByteString)
    requires BlockBytes(account, previous, representative, balance, link).Some?
    ensures var b := BlockBytes(account, previous, representative, balance, link).value;
      && |b| == 176 && FromBytes(b[..32]) == 6
      && b[32..64] == account && b[64..96] == previous && b[96..128] == representative
      && FromBytes(b[128..144]) == balance && b[144..] == link
  {
    hide ToBytes, FromBytes, Pow;
    var b := BlockBytes(account, previous, representative, balance, link).value;
    assert b[..32] == ToBytes(STATE_PREAMBLE, 32) && b[128..144] == ToBytes(balance, 16);
    BalanceWidth();
    NumberRoundTrip(balance, 16);
    PreambleFits();
    NumberRoundTrip(STATE_PREAMBLE, 32);
  }

  lemma PreambleFits()
    ensures STATE_PREAMBLE < Pow(256, 32)
  {
    PowAdd(256, 31, 1);
    PowPositive(256, 31);
    assert Pow(256, 1) == 256;
  }

  /** `build_send_block` succeeds exactly on 32-byte inputs, valid addresses and a balance of 128 bits. */
  lemma BuildSucceedsExact(cr: Crypto, privateKey: ByteString, accountKey: ByteString, accountAddress: string,
                           previous: ByteString, representative: string, newBalance: int, destination: string,
                           work: string)
    ensures BuildSendBlock(cr, privateKey, accountKey, accountAddress, previous, representative, newBalance,
                           destination, work).Some? <==>
      && |previous| == 32 && |privateKey| == 32 && |accountKey| == 32
      && ValidateAddress(cr.blake40, destination) && ValidateAddress(cr.blake40, representative)
      && 0 <= newBalance < Pow(2, 128)
  {
    hide PublicKeyFromAddress, Preimage, Pow, HexText;
  }

  lemma DictGets(b: BlockDict)
    ensures var c := DictJson(b);
      && Get(c, "type") == Str("state") && Get(c, "account") == Str(b.account) && Get(c, "previous") == Str(b.previous)
      && Get(c, "representative") == Str(b.representative) && Get(c, "balance") == Str(b.balance)
      && Get(c, "link") == Str(b.link) && Get(c, "link_as_account") == Str(b.linkAsAccount)
      && Get(c, "signature") == Str(b.signature) && Get(c, "work") == Str(b.work) && |c.fields.Keys| == 9
  {
    assert DictJson(b).fields.Keys
        == {"type", "account", "previous", "representative", "balance", "link", "link_as_account", "signature", "work"};
  }

  /** What a balance may be given as: text that reads as an integer, or any number, cut towards 0. */
  lemma BalanceExact(c: Json, n: int)
    requires c.Obj?
    ensures var v := Get(c, "balance");
      BalanceIn(c) == Some(n) <==>
        match v
        case Str(s) => ParseInt(s) == Some(n)
        case Int(k) => k == n
        case Bool(b) => n == (if b then 1 else 0)
        case Float(x) => (if x >= 0.0 then n as real <= x < n as real + 1.0 else n as real - 1.0 < x <= n as real)
        case _ => false
  {
    hide ParseInt;
    var v := Get(c, "balance");
    if v.Float? && v.x < 0.0 {
      assert (-v.x).Floor as real <= -v.x < (-v.x).Floor as real + 1.0;
    }
  }

  /** A block the SDK built hashes, in the verifier, to the hash it was signed under: for every valid input whose
      account address encodes the account key. */
  lemma BuiltBlockRehashes(cr: Crypto, privateKey: ByteString, accountKey: ByteString, accountAddress: string,
                           previous: ByteString, representative: string, newBalance: int, destination: string,
                           work: string)
    requires BuildSendBlock(cr, privateKey, accountKey, accountAddress, previous, representative, newBalance,
                            destination, work).Some?
    requires PublicKeyFromAddress(cr.blake40, accountAddress) == Some(accountKey)
    ensures PublicKeyFromAddress(cr.blake40, representative).Some?
    ensures PublicKeyFromAddress(cr.blake40, destination).Some?
    ensures var hash := BlockHash(cr, accountKey, previous, PublicKeyFromAddress(cr.blake40, representative).value,
                                  newBalance, PublicKeyFromAddress(cr.blake40, destination).value);
      && hash.Some?
      && StateBlockHash(cr, DictJson(BuildSendBlock(cr, privateKey, accountKey, accountAddress, previous,
           representative, newBalance, destination, work).value)) == Hashed(Upper(HexText(hash.value)))
  {
    hide PublicKeyFromAddress, Preimage, FromHex, HexText, ParseInt, Pow, DictJson;
    DictGets(BuildSendBlock(cr, privateKey, accountKey, accountAddress, previous, representative, newBalance,
                            destination, work).value);
    HexRoundTrip(previous);
    HexRoundTrip(PublicKeyFromAddress(cr.blake40, destination).value);
    assert newBalance >= 0;
    NatReadsBack(newBalance);
    assert IntText(newBalance) == NatText(newBalance);
  }

  /** A built block names its destination twice, alike, and carries the signature of its own hash. */
  lemma BuiltBlockNamesDestination(cr: Crypto, privateKey: ByteString, accountKey: ByteString, accountAddress: string,
                                   previous: ByteString, representative: string, newBalance: int, destination: string,
                                   work: string)
    requires BuildSendBlock(cr, privateKey, accountKey, accountAddress, previous, representative, newBalance,
                            destination, work).Some?
    ensures var d := BuildSendBlock(cr, privateKey, accountKey, accountAddress, previous, representative, newBalance,
                                    destination, work).value;
      var destinationKey := PublicKeyFromAddress(cr.blake40, d.linkAsAccount);
      var representativeKey := PublicKeyFromAddress(cr.blake40, representative);
      && d.linkAsAccount == destination && d.work == work
      && destinationKey.Some? && FromHex(d.link) == Some(destinationKey.value) && representativeKey.Some?
      && BlockHash(cr, accountKey, previous, representativeKey.value, newBalance, destinationKey.value).Some?
      && FromHex(d.signature) == Some(cr.sign(privateKey,
           BlockHash(cr, accountKey, previous, representativeKey.value, newBalance, destinationKey.value).value))
  {
    hide PublicKeyFromAddress, BlockHash, FromHex, HexText;
    var destinationKey := PublicKeyFromAddress(cr.blake40, destination).value;
    HexRoundTrip(destinationKey);
    var digest := BlockHash(cr, accountKey, previous, PublicKeyFromAddress(cr.blake40, representative).value,
                            newBalance, destinationKey).value;
    HexRoundTrip(cr.sign(privateKey, digest));
  }

  /** The 176 bytes of a block determine its five fields. */
  lemma BlockBytesInjective(a1: ByteString, p1: ByteString, r1: ByteString, b1: int, l1: ByteString,
                            a2: ByteString, p2: ByteString, r2: ByteString, b2: int, l2: ByteString)
    requires BlockBytes(a1, p1, r1, b1, l1).Some?
    requires BlockBytes(a1, p1, r1, b1, l1) == BlockBytes(a2, p2, r2, b2, l2)
    ensures |BlockBytes(a1, p1, r1, b1, l1).value| == 176
    ensures a1 == a2 && p1 == p2 && r1 == r2 && b1 == b2 && l1 == l2
  {
    PreimageInjective(a1, p1, r1, b1, l1, a2, p2, r2, b2, l2);
  }

  /** What the verifier hashes determines the fields exactly when the two `previous` have one length, as they have on
      blocks with 32-byte hashes. */
  lemma PreimageInjective(a1: Bytes32, p1: ByteString, r1: Bytes32, b1: nat, l1: ByteString,
                          a2: Bytes32, p2: ByteString, r2: Bytes32, b2: nat, l2: ByteString)
    requires b1 < Pow(2, 128) && b2 < Pow(2, 128)
    requires Preimage(a1, p1, r1, b1, l1) == Preimage(a2, p2, r2, b2, l2)
    ensures |p1| == |p2| <==> a1 == a2 && p1 == p2 && r1 == r2 && b1 == b2 && l1 == l2
  {
    hide ToBytes, Pow;
    if |p1| == |p2| {
      var head := ToBytes(STATE_PREAMBLE, 32);
      SplitEqual(head + a1 + p1 + r1 + ToBytes(b1, 16), l1, head + a2 + p2 + r2 + ToBytes(b2, 16), l2);
      SplitEqual(head + a1 + p1 + r1, ToBytes(b1, 16), head + a2 + p2 + r2, ToBytes(b2, 16));
      SplitEqual(head + a1 + p1, r1, head + a2 + p2, r2);
      SplitEqual(head + a1, p1, head + a2, p2);
      SplitEqual(head, a1, head, a2);
      BalanceWidth();
      NumberRoundTrip(b1, 16);
      NumberRoundTrip(b2, 16);
    }
  }

  /** The decoded fields a block hash covers. */
  datatype Fields = Fields(account: Bytes32, previous: ByteString, representative: Bytes32, balance: nat,
                           link: ByteString)

  function FieldsOf(cr: Crypto, c: Json): Fields
    requires c.Obj? && StateBlockHash(cr, c).Hashed?
  {
    Fields(AddressIn(cr, c, "account").value, HexIn(c, "previous").value, AddressIn(cr, c, "representative").value,
           BalanceIn(c).value, HexIn(c, "link").value)
  }

  function PreimageOf(cr: Crypto, c: Json): ByteString
    requires c.Obj? && StateBlockHash(cr, c).Hashed?
  {
    var f := FieldsOf(cr, c);
    Preimage(f.account, f.previous, f.representative, f.balance, f.link)
  }

  /** blake2b does not collide on what is hashed of these two. */
  predicate NoCollision(cr: Crypto, c1: Json, c2: Json)
    requires c1.Obj? && c2.Obj? && StateBlockHash(cr, c1).Hashed? && StateBlockHash(cr, c2).Hashed?
  {
    cr.blake256(PreimageOf(cr, c1)) == cr.blake256(PreimageOf(cr, c2)) ==> PreimageOf(cr, c1) == PreimageOf(cr, c2)
  }

  /** What a hash binds, exactly: contents that re-hash alike, without a collision, agree on account, previous,
      representative, balance and link if and only if their `previous` decode to as many bytes. */
  lemma RehashBindsFields(cr: Crypto, c1: Json, c2: Json)
    requires c1.Obj? && c2.Obj?
    requires StateBlockHash(cr, c1).Hashed? && StateBlockHash(cr, c1) == StateBlockHash(cr, c2)
    requires NoCollision(cr, c1, c2)
    ensures |FieldsOf(cr, c1).previous| == |FieldsOf(cr, c2).previous| <==> FieldsOf(cr, c1) == FieldsOf(cr, c2)
  {
    hide AddressIn, HexIn, BalanceIn, Preimage, HexText;
    UpperHexInjective(cr.blake256(PreimageOf(cr, c1)), cr.blake256(PreimageOf(cr, c2)));
    var f, g := FieldsOf(cr, c1), FieldsOf(cr, c2);
    PreimageInjective(f.account, f.previous, f.representative, f.balance, f.link,
                      g.account, g.previous, g.representative, g.balance, g.link);
  }

  /** The keys of the contents that are hashed. */
  const HASHED_KEYS := {"account", "previous", "representative", "balance", "link"}

  lemma HashedKeysDecide(cr: Crypto, c: Json, d: Json)
    requires c.Obj? && d.Obj? && forall key | key in HASHED_KEYS :: Get(c, key) == Get(d, key)
    ensures StateBlockHash(cr, c) == StateBlockHash(cr, d)
  {
    hide PublicKeyFromAddress, FromHex, ParseInt, Pow, Preimage, HexText;
    assert Get(c, "account") == Get(d, "account") && Get(c, "previous") == Get(d, "previous");
    assert Get(c, "representative") == Get(d, "representative") && Get(c, "balance") == Get(d, "balance");
    assert Get(c, "link") == Get(d, "link");
  }

  /** What a hash does not bind: whatever any other key holds, `link_as_account` for one, the contents hash alike. */
  lemma OtherKeysUnhashed(cr: Crypto, c: Json, key: string, v: Json)
    requires c.Obj? && key !in HASHED_KEYS
    ensures StateBlockHash(cr, Put(c, key, v)) == StateBlockHash(cr, c)
  {
    hide StateBlockHash;
    HashedKeysDecide(cr, Put(c, key, v), c);
  }

  /** The check `state_block_hash` does not make. */
  predicate HasHashes(c: Json)
    requires c.Obj?
  {
    var previous, link := Get(c, "previous"), Get(c, "link");
    previous.Str? && IsHex64(previous.s) && link.Str? && IsHex64(link.s)
  }

  lemma HashesAre32Bytes(c: Json)
    requires c.Obj? && HasHashes(c)
    ensures HexIn(c, "previous").Some? && |HexIn(c, "previous").value| == 32
    ensures HexIn(c, "link").Some? && |HexIn(c, "link").value| == 32
  {
    hide FromHex;
    AllHexReads(Get(c, "previous").s);
    AllHexReads(Get(c, "link").s);
  }

  /** With that check in front, a hash binds the fields. */
  lemma CheckedRehashBindsFields(cr: Crypto, c1: Json, c2: Json)
    requires c1.Obj? && c2.Obj? && HasHashes(c1) && HasHashes(c2)
    requires StateBlockHash(cr, c1).Hashed? && StateBlockHash(cr, c1) == StateBlockHash(cr, c2)
    requires NoCollision(cr, c1, c2)
    ensures FieldsOf(cr, c1) == FieldsOf(cr, c2)
  {
    hide StateBlockHash, NoCollision, HasHashes, AddressIn, BalanceIn, HexIn;
    HashesAre32Bytes(c1);
    HashesAre32Bytes(c2);
    RehashBindsFields(cr, c1, c2);
  }

  /** The same bytes cut elsewhere: the representative goes to the end of `previous`, the balance and half of the link
      become the representative, the other half the balance, and nothing is left for the link. */
  function Recut(cr: Crypto, c: Json): (d: Json)
    requires c.Obj? && HasHashes(c) && StateBlockHash(cr, c).Hashed?
    ensures d.Obj?
  {
    hide HasHashes, AddressIn, BalanceIn, HexIn, Put;
    HashesAre32Bytes(c);
    var f := FieldsOf(cr, c);
    Put(Put(Put(Put(c, "previous", Str(HexText(f.previous + f.representative))),
                "representative", Str(AddressFromPublicKey(cr.blake40, ToBytes(f.balance, 16) + f.link[..16]))),
            "balance", Str(NatText(FromBytes(f.link[16..])))),
        "link", Str(""))
  }

  lemma RecutFields(cr: Crypto, c: Json)
    requires c.Obj? && HasHashes(c) && StateBlockHash(cr, c).Hashed?
    ensures var f, d := FieldsOf(cr, c), Recut(cr, c);
      && |f.previous| == |f.link| == 32
      && AddressIn(cr, d, "account") == Some(f.account)
      && HexIn(d, "previous") == Some(f.previous + f.representative)
      && AddressIn(cr, d, "representative") == Some(ToBytes(f.balance, 16) + f.link[..16])
      && BalanceIn(d) == Some(FromBytes(f.link[16..]))
      && HexIn(d, "link") == Some([])
      && !HasHashes(d)
  {
    hide PublicKeyFromAddress, AddressFromPublicKey, FromHex, ParseInt, HexText, ToBytes, FromBytes, Pow, Put;
    HashesAre32Bytes(c);
    var f := FieldsOf(cr, c);
    HexRoundTrip(f.previous + f.representative);
    DecodeInvertsEncode(cr.blake40, ToBytes(f.balance, 16) + f.link[..16]);
    NatReadsBack(FromBytes(f.link[16..]));
    NothingReads();
  }

  /** Without the check it binds none but the account: every hashed block with 64-hex `previous` and `link` has contents
      that hash the same with another `previous` and another link, whatever the digest. */
  lemma RecutHashesAlike(cr: Crypto, c: Json)
    requires c.Obj? && HasHashes(c) && StateBlockHash(cr, c).Hashed?
    ensures StateBlockHash(cr, Recut(cr, c)) == StateBlockHash(cr, c)
    ensures var f, g := FieldsOf(cr, c), FieldsOf(cr, Recut(cr, c));
      f.account == g.account && f.previous != g.previous && f.link != g.link && !HasHashes(Recut(cr, c))
  {
    hide AddressIn, HexIn, BalanceIn, HexText, ToBytes, FromBytes, Pow, HasHashes, Recut;
    RecutFields(cr, c);
    var f, d := FieldsOf(cr, c), Recut(cr, c);
    BytesRoundTrip(f.link[16..]);
    BalanceWidth();
    assert f.link == f.link[..16] + f.link[16..];
    var head := ToBytes(STATE_PREAMBLE, 32) + f.account;
    assert PreimageOf(cr, d) == head + (f.previous + f.representative) + (ToBytes(f.balance, 16) + f.link[..16])
      + f.link[16..] + [];
    assert PreimageOf(cr, c) == head + f.previous + f.representative + ToBytes(f.balance, 16)
      + (f.link[..16] + f.link[16..]);
    assert PreimageOf(cr, d) == PreimageOf(cr, c);
  }

  lemma NothingReads()
    ensures FromHex("") == Some([])
  {
  }

  lemma NatReadsBack(n: nat)
    ensures ParseInt(NatText(n)) == Some(n)
  {
    NatRoundTrip(n);
    ParseDigits(NatText(n));
  }

  lemma UpperHexInjective(a: ByteString, b: ByteString)
    requires Upper(HexText(a)) == Upper(HexText(b))
    ensures a == b
  {
    HexRoundTrip(a);
    HexRoundTrip(b);
  }

  lemma SplitEqual<T>(x1: seq<T>, y1: seq<T>, x2: seq<T>, y2: seq<T>)
    requires x1 + y1 == x2 + y2 && |x1| == |x2|
    ensures x1 == x2 && y1 == y2
  {
    assert (x1 + y1)[..|x1|] == x1 && (x2 + y2)[..|x1|] == x2;
    assert (x1 + y1)[|x1|..] == y1 && (x2 + y2)[|x1|..] == y2;
  }

  /** The preamble is thirty-one zero bytes and a six. */
  lemma PreambleExact(i: nat)
    requires i < 32
    ensures ToBytes(STATE_PREAMBLE, 32)[i] == if i == 31 then 6 else 0
  {
    var bytes: ByteString := seq(32, i => if i == 31 then 6 else 0);
    LeadingZeros(31);
    assert bytes[..31] == seq(31, _ => 0);
    assert FromBytes(bytes) == FromBytes(bytes[..31]) * 256 + 6;
    BytesRoundTrip(bytes);
  }

  lemma {:induction false} LeadingZeros(n: nat)
    ensures FromBytes(seq(n, _ => 0)) == 0
  {
    if n > 0 {
      LeadingZeros(n - 1);
      assert seq(n, _ => 0)[..n - 1] == seq(n - 1, _ => 0);
    }
  }

  /** A built block, field by field. */
  lemma BuiltBlockExact(cr: Crypto, privateKey: ByteString, accountKey: ByteString, accountAddress: string,
                        previous: ByteString, representative: string, newBalance: int, destination: string,
                        work: string)
    requires BuildSendBlock(cr, privateKey, accountKey, accountAddress, previous, representative, newBalance,
                            destination, work).Some?
    ensures var d := BuildSendBlock(cr, privateKey, accountKey, accountAddress, previous, representative, newBalance,
                                    destination, work).value;
      var link, rep := PublicKeyFromAddress(cr.blake40, destination), PublicKeyFromAddress(cr.blake40, representative);
      && link.Some? && rep.Some? && newBalance >= 0
      && BlockBytes(accountKey, previous, rep.value, newBalance, link.value).Some?
      && d.account == accountAddress && d.previous == Upper(HexText(previous)) && d.representative == representative
      && d.balance == NatText(newBalance) && d.link == Upper(HexText(link.value)) && d.linkAsAccount == destination
      && d.signature == Upper(HexText(cr.sign(privateKey,
           cr.blake256(BlockBytes(accountKey, previous, rep.value, newBalance, link.value).value))))
      && d.work == work
  {
    hide PublicKeyFromAddress, Preimage, HexText;
  }
}
