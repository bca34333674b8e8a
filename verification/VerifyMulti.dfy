/** `nano_mcp/verify_multi.py`: a verdict on a block from several nodes' readings of it. */
module VerifyMulti {
  import opened Text
  import opened Numerals
  import opened Bytes
  import opened Hex
  import opened Decimals
  import opened Json
  import opened Addresses
  import opened Blocks

  datatype Status = Ok | Missing | Error | Unconfirmed | Lied

  /** The fields compared across nodes, by their JSON text. */
  datatype Block = Block(subtype: Json, account: Json, destination: Json, amount: string, link: Json)

  /** One node's reading. Only a confirmed or unconfirmed one carries a block. */
  datatype Reading = Reading(node: string, status: Status, block: Option<Block>) {
    predicate Valid() {
      block.Some? <==> status == Ok || status == Unconfirmed
    }
  }

  /** What a node did: nothing usable over the wire, or any JSON value. */
  datatype NodeReply = NoAnswer | Answered(info: Json)

  /** The state block object a reply holds. */
  function StateContents(reply: NodeReply): (c: Option<Json>)
    ensures c.Some? ==> c.value.Obj? && reply.Answered? && reply.info.Obj?
  {
    if reply.NoAnswer? || !reply.info.Obj? || "error" in reply.info.fields then None else
      var c := Get(reply.info, "contents");
      if c.Obj? && Get(c, "type") == Str("state") then Some(c) else None
  }

  function BlockOf(py: Runtime, info: Json, c: Json): Block
    requires info.Obj? && c.Obj?
  {
    Block(Get(info, "subtype"), Get(c, "account"), Get(c, "link_as_account"), PyStr(py, Get(info, "amount")),
          Get(c, "link"))
  }

  predicate SaysConfirmed(py: Runtime, info: Json)
    requires info.Obj?
  {
    Lower(PyStr(py, Get(info, "confirmed"))) == "true"
  }

  /** `read_one`; None is an exception it does not catch. */
  function ReadOne(py: Runtime, cr: Crypto, node: string, hash: string, reply: NodeReply): (r: Option<Reading>)
    ensures r.Some? ==> r.value.Valid()
  {
    if reply.NoAnswer? then Some(Reading(node, Error, None))
    else if !reply.info.Obj? then (if Truthy(reply.info) then None else Some(Reading(node, Missing, None)))
    else if "error" in reply.info.fields then Some(Reading(node, Missing, None))
    else
      match StateContents(reply)
      case None => Some(Reading(node, Error, None))
      case Some(c) =>
        match StateBlockHash(cr, c)
        case Overflow => None
        case Unreadable => Some(Reading(node, Error, None))
        case Hashed(hex) =>
          if hex != Upper(hash) then Some(Reading(node, Lied, None))
          else Some(Reading(node, if SaysConfirmed(py, reply.info) then Ok else Unconfirmed,
                            Some(BlockOf(py, reply.info, c))))
  }

  /** The verdict; NoReading is the IndexError of a caller that asks for no agreement and gets none. */
  datatype Verdict = Pass(block: Block) | SomeoneLied | Contradiction | TooFew | WrongPayee(block: Block)
                   | WrongAmount(block: Block) | NoReading

  function OkReadings(readings: seq<Reading>): seq<Reading> {
    if readings == [] then [] else
      OkReadings(readings[..|readings| - 1])
      + if readings[|readings| - 1].status == Ok then [readings[|readings| - 1]] else []
  }

  predicate AnyLied(readings: seq<Reading>) {
    exists r | r in readings :: r.status == Lied
  }

  function DistinctBlocks(readings: seq<Reading>): set<Block> {
    set r | r in readings && r.block.Some? :: r.block.value
  }

  predicate AllValid(readings: seq<Reading>) {
    forall r | r in readings :: r.Valid()
  }

  lemma {:induction false} OkReadingsAreReadings(readings: seq<Reading>, r: Reading)
    ensures r in OkReadings(readings) <==> r in readings && r.status == Ok
  {
    if readings == [] {
    } else {
      OkReadingsAreReadings(readings[..|readings| - 1], r);
      assert readings == readings[..|readings| - 1] + [readings[|readings| - 1]];
    }
  }

  /** `verify_block_multi` on the readings it made */
  function Judge(readings: seq<Reading>, minAgree: int, payee: Option<string>, amountRaw: Option<string>): Verdict
    requires AllValid(readings)
  {
    var ok := OkReadings(readings);
    if AnyLied(readings) then SomeoneLied
    else if |DistinctBlocks(readings)| > 1 then Contradiction
    else if |ok| < minAgree then TooFew
    else if ok == [] then NoReading
    else
      OkReadingsAreReadings(readings, ok[0]);
      var block := ok[0].block.value;
      if payee.GetOr("") != "" && block.destination != Str(payee.value) then WrongPayee(block)
      else if amountRaw.Some? && block.amount != amountRaw.value then WrongAmount(block)
      else Pass(block)
  }

  // ------------------------------------------------------------------ a whole call

  /** Contents that decode up to a balance outside 128 bits, in text or as a number. */
  predicate Overflows(cr: Crypto, c: Json)
    requires c.Obj?
  {
    && AddressIn(cr, c, "account").Some? && HexIn(c, "previous").Some? && AddressIn(cr, c, "representative").Some?
    && BalanceIn(c).Some? && !(0 <= BalanceIn(c).value < Pow(2, 128))
  }

  /** The replies `read_one` raises on: a true value that is not an object, and contents that overflow. */
  predicate Breaks(cr: Crypto, reply: NodeReply) {
    || (reply.Answered? && !reply.info.Obj? && Truthy(reply.info))
    || (StateContents(reply).Some? && Overflows(cr, StateContents(reply).value))
  }

  lemma ReadOneRaisesExact(py: Runtime, cr: Crypto, node: string, hash: string, reply: NodeReply)
    ensures ReadOne(py, cr, node, hash, reply).None? <==> Breaks(cr, reply)
  {
    hide AddressIn, HexIn, BalanceIn, Pow, Preimage;
  }

  /** `reads = [read_one(u, ...) for u in nodes]`; None when one raises */
  function Readings(py: Runtime, cr: Crypto, nodes: seq<string>, hash: string,
                    replies: seq<NodeReply>): (r: Option<seq<Reading>>)
    requires |nodes| == |replies|
    ensures r.Some? ==> |r.value| == |nodes| && AllValid(r.value)
  {
    if exists i | 0 <= i < |nodes| :: ReadOne(py, cr, nodes[i], hash, replies[i]).None? then None
    else Some(seq(|nodes|, i requires 0 <= i < |nodes| => ReadOne(py, cr, nodes[i], hash, replies[i]).value))
  }

  method ReadAll(py: Runtime, cr: Crypto, nodes: seq<string>, hash: string, replies: seq<NodeReply>)
    returns (readings: Option<seq<Reading>>)
    requires |nodes| == |replies|
    ensures readings == Readings(py, cr, nodes, hash, replies)
  {
    hide ReadOne;
    var out: seq<Reading> := [];
    for i := 0 to |nodes|
      invariant |out| == i
      invariant forall j | 0 <= j < i :: Some(out[j]) == ReadOne(py, cr, nodes[j], hash, replies[j])
    {
      var r := ReadOne(py, cr, nodes[i], hash, replies[i]);
      if r.None? {
        return None;
      }
      out := out + [r.value];
    }
    assert Readings(py, cr, nodes, hash, replies).value == out;
    return Some(out);
  }

  datatype Outcome = BadHash | Raised | Judged(verdict: Verdict)

  function Call(py: Runtime, cr: Crypto, hash: string, nodes: seq<string>, replies: seq<NodeReply>, minAgree: int,
                payee: Option<string>, amountRaw: Option<string>): Outcome
    requires |nodes| == |replies|
  {
    if !IsHex64(hash) then BadHash else
      match Readings(py, cr, nodes, hash, replies)
      case None => Raised
      case Some(readings) => Judged(Judge(readings, minAgree, payee, amountRaw))
  }

  /** `verify_block_multi`: a hash that is not 64 hex characters is refused before any node is asked; one reply
      that breaks its reading raises, whatever every other node says; and nothing else does, short of asking for no
      agreement. */
  method VerifyBlockMulti(py: Runtime, cr: Crypto, hash: string, nodes: seq<string>, replies: seq<NodeReply>,
                          minAgree: int,
                          payee: Option<string>, amountRaw: Option<string>) returns (r: Outcome)
    requires |nodes| == |replies|
    ensures r == Call(py, cr, hash, nodes, replies, minAgree, payee, amountRaw)
    ensures r == BadHash <==> !IsHex64(hash)
    ensures r == Raised <==> IsHex64(hash) && exists reply | reply in replies :: Breaks(cr, reply)
    ensures minAgree >= 1 ==> r != Judged(NoReading)
  {
    hide ReadOne, Judge, Breaks;
    CallOutcomeExact(py, cr, hash, nodes, replies, minAgree, payee, amountRaw);
    if !IsHex64(hash) {
      return BadHash;
    }
    var readings := ReadAll(py, cr, nodes, hash, replies);
    if readings.None? {
      return Raised;
    }
    return Judged(Judge(readings.value, minAgree, payee, amountRaw));
  }

  /** When a call raises, in terms of the replies and the arguments alone. */
  lemma CallOutcomeExact(py: Runtime, cr: Crypto, hash: string, nodes: seq<string>, replies: seq<NodeReply>,
                         minAgree: int,
                         payee: Option<string>, amountRaw: Option<string>)
    requires |nodes| == |replies|
    ensures var r := Call(py, cr, hash, nodes, replies, minAgree, payee, amountRaw);
      && (r == BadHash <==> !IsHex64(hash))
      && (r == Raised <==> IsHex64(hash) && exists reply | reply in replies :: Breaks(cr, reply))
      && (minAgree >= 1 ==> r != Judged(NoReading))
  {
    hide ReadOne, Breaks, AnyLied, DistinctBlocks, OkReadings;
    forall i | 0 <= i < |nodes| ensures ReadOne(py, cr, nodes[i], hash, replies[i]).None? <==> Breaks(cr, replies[i]) {
      ReadOneRaisesExact(py, cr, nodes[i], hash, replies[i]);
    }
  }

  /** Contents of any key's own account with a balance of our choice. */
  function WithBalance(cr: Crypto, key: Bytes32, balance: Json): Json {
    var address := AddressFromPublicKey(cr.blake40, key);
    Put(DictJson(BlockDict(address, HexText(key), address, "0", HexText(key), address, "", "")), "balance", balance)
  }

  /** Inputs that raise: one node that answers with a true value that is not an object, or with a balance of -1, in text
      or as a number, among whatever others, for whatever hash. */
  lemma OneReplyRaises(py: Runtime, cr: Crypto, key: Bytes32, info: Json, hash: string, nodes: seq<string>,
                       replies: seq<NodeReply>, minAgree: int, payee: Option<string>, amountRaw: Option<string>)
    requires IsHex64(hash) && |nodes| == |replies|
    requires
      || Answered(Str("busy")) in replies
      || Answered(Arr([Int(1)])) in replies
      || (&& info.Obj? && "error" !in info.fields && Answered(info) in replies
          && Get(info, "contents") in {WithBalance(cr, key, Str("-1")), WithBalance(cr, key, Int(-1))})
    ensures Call(py, cr, hash, nodes, replies, minAgree, payee, amountRaw) == Raised
  {
    hide ReadOne, Judge, Overflows, Readings, WithBalance, Call;
    CallOutcomeExact(py, cr, hash, nodes, replies, minAgree, payee, amountRaw);
    MinusOneOverflows(cr, key, Str("-1"));
    MinusOneOverflows(cr, key, Int(-1));
    if Answered(Str("busy")) in replies {
      assert Breaks(cr, Answered(Str("busy")));
    } else if Answered(Arr([Int(1)])) in replies {
      assert Breaks(cr, Answered(Arr([Int(1)])));
    } else {
      assert Breaks(cr, Answered(info));
    }
  }

  lemma MinusOneOverflows(cr: Crypto, key: Bytes32, balance: Json)
    requires balance == Str("-1") || balance == Int(-1)
    ensures var c := WithBalance(cr, key, balance); c.Obj? && Get(c, "type") == Str("state") && Overflows(cr, c)
  {
    hide AddressFromPublicKey, PublicKeyFromAddress, FromHex, HexText, ParseInt, Pow, DictJson, Put;
    var address := AddressFromPublicKey(cr.blake40, key);
    DictGets(BlockDict(address, HexText(key), address, "0", HexText(key), address, "", ""));
    DecodeInvertsEncode(cr.blake40, key);
    HexRoundTrip(key);
    MinusOne();
  }

  lemma MinusOne()
    ensures ParseInt("-1") == Some(-1)
  {
    assert Strip("-1") == "-1";
    assert "-1"[1..] == "1";
    assert RemoveUnderscores("1") == "1";
    NatReadsBack(1);
    assert NatText(1) == "1";
    ParseDigits("1");
  }

  // ------------------------------------------------------------------ what a verdict means

  /** Nobody returned contents that hash to something else, every reading that carries a block carries this one, and
      enough of them, at least one, confirmed it. */
  predicate Agreed(readings: seq<Reading>, minAgree: int, block: Block) {
    && (forall r | r in readings :: r.status != Lied && (r.block.Some? ==> r.block.value == block))
    && |OkReadings(readings)| >= minAgree && OkReadings(readings) != []
  }

  /** The verdicts about one block, exactly: a pass is agreement on it and a match with what the caller expects; the
      payee is compared first, and an empty one not at all. */
  lemma PassExact(readings: seq<Reading>, minAgree: int, payee: Option<string>, amountRaw: Option<string>, block: Block)
    requires AllValid(readings)
    ensures var v := Judge(readings, minAgree, payee, amountRaw);
      var paysIt := payee.GetOr("") != "" ==> block.destination == Str(payee.value);
      var isOfIt := amountRaw.Some? ==> block.amount == amountRaw.value;
      && (v == Pass(block) <==> Agreed(readings, minAgree, block) && paysIt && isOfIt)
      && (v == WrongPayee(block) <==> Agreed(readings, minAgree, block) && !paysIt)
      && (v == WrongAmount(block) <==> Agreed(readings, minAgree, block) && paysIt && !isOfIt)
  {
    hide OkReadings;
    var ok := OkReadings(readings);
    if ok != [] {
      OkReadingsAreReadings(readings, ok[0]);
      var x, distinct := ok[0].block.value, DistinctBlocks(readings);
      AtMostOne(distinct, x);
      assert forall r | r in readings && r.block.Some? :: r.block.value in distinct;
      assert (forall r | r in readings :: r.block.Some? ==> r.block.value == x) <==> distinct == {x};
    }
  }

  predicate Differ(readings: seq<Reading>) {
    exists a, b | a in readings && b in readings :: a.block.Some? && b.block.Some? && a.block != b.block
  }

  /** The other verdicts, exactly; so an empty list is indexed only when no agreement is asked for and none is there. */
  lemma VerdictExplained(readings: seq<Reading>, minAgree: int, payee: Option<string>, amountRaw: Option<string>)
    requires AllValid(readings)
    ensures var v, agreeing := Judge(readings, minAgree, payee, amountRaw), |OkReadings(readings)|;
      && (v == SomeoneLied <==> AnyLied(readings))
      && (v == Contradiction <==> !AnyLied(readings) && Differ(readings))
      && (v == TooFew <==> !AnyLied(readings) && !Differ(readings) && agreeing < minAgree)
      && (v == NoReading <==> !AnyLied(readings) && !Differ(readings) && minAgree <= 0 && agreeing == 0)
  {
    hide OkReadings;
    var distinct := DistinctBlocks(readings);
    if |distinct| > 1 {
      var x :| x in distinct;
      AtMostOne(distinct, x);
      var y :| y in distinct && y != x;
      var a :| a in readings && a.block == Some(x);
      var b :| b in readings && b.block == Some(y);
    } else if Differ(readings) {
      var a, b :| a in readings && b in readings && a.block.Some? && b.block.Some? && a.block != b.block;
      assert b.block.value in distinct;
      AtMostOne(distinct, a.block.value);
    }
  }

  lemma AtMostOne<T>(s: set<T>, x: T)
    requires x in s
    ensures |s| <= 1 <==> s == {x}
  {
    assert s == {x} + (s - {x});
    if s != {x} {
      var y :| y in s - {x};
      assert {x, y} <= s;
      assert |s| == |s - {x, y}| + 2;
    }
  }

  // ------------------------------------------------------------------ order and silence do not matter

  lemma {:induction false} OkReadingsConcat(a: seq<Reading>, b: seq<Reading>)
    ensures OkReadings(a + b) == OkReadings(a) + OkReadings(b)
  {
    if b == [] {
      assert a + b == a;
    } else {
      OkReadingsConcat(a, b[..|b| - 1]);
      assert (a + b)[..|a + b| - 1] == a + b[..|b| - 1];
    }
  }

  lemma OkReadingsOfOne(r: Reading)
    ensures OkReadings([r]) == if r.status == Ok then [r] else []
  {
    assert [r][..0] == [];
  }

  lemma Cancel<T>(p: multiset<T>, q: multiset<T>, x: T)
    requires p + multiset{x} == q + multiset{x}
    ensures p == q
  {
    assert p == p + multiset{x} - multiset{x};
    assert q == q + multiset{x} - multiset{x};
  }

  /** The number of confirmed readings does not depend on their order. */
  lemma {:induction false} OkCountIsOrderFree(a: seq<Reading>, b: seq<Reading>)
    requires multiset(a) == multiset(b)
    ensures |OkReadings(a)| == |OkReadings(b)|
    decreases |a|
  {
    if a == [] {
      assert |multiset(b)| == 0;
    } else {
      var init, last := a[..|a| - 1], a[|a| - 1];
      assert a == init + [last];
      assert last in multiset(b);
      var j :| 0 <= j < |b| && b[j] == last;
      var front, back := b[..j], b[j + 1..];
      assert b == front + [last] + back;
      Cancel(multiset(init), multiset(front + back), last);
      OkCountIsOrderFree(init, front + back);
      OkReadingsConcat(init, [last]);
      OkReadingsConcat(front, back);
      OkReadingsConcat(front, [last]);
      OkReadingsConcat(front + [last], back);
    }
  }

  /** The verdict does not depend on the order the nodes are asked in. */
  lemma VerdictIsOrderFree(a: seq<Reading>, b: seq<Reading>, minAgree: int, payee: Option<string>,
                           amountRaw: Option<string>)
    requires multiset(a) == multiset(b) && AllValid(a)
    ensures AllValid(b)
    ensures Judge(a, minAgree, payee, amountRaw) == Judge(b, minAgree, payee, amountRaw)
  {
    assert forall r :: r in a <==> r in multiset(a);
    assert forall r :: r in b <==> r in multiset(b);
    OkCountIsOrderFree(a, b);
    SameReadingsSameVerdict(a, b, minAgree, payee, amountRaw);
  }

  /** Readings that carry the same blocks, the same lies and as many confirmations judge the same. */
  lemma SameReadingsSameVerdict(a: seq<Reading>, b: seq<Reading>, minAgree: int, payee: Option<string>,
                                amountRaw: Option<string>)
    requires AllValid(a) && AllValid(b)
    requires DistinctBlocks(a) == DistinctBlocks(b) && (AnyLied(a) <==> AnyLied(b))
    requires |OkReadings(a)| == |OkReadings(b)|
    ensures Judge(a, minAgree, payee, amountRaw) == Judge(b, minAgree, payee, amountRaw)
  {
    hide OkReadings;
    if OkReadings(a) != [] {
      var x, y := OkReadings(a)[0], OkReadings(b)[0];
      OkReadingsAreReadings(a, x);
      OkReadingsAreReadings(b, y);
      AtMostOne(DistinctBlocks(a), x.block.value);
      AtMostOne(DistinctBlocks(b), y.block.value);
    }
  }

  /** A node that errors or does not know the block never changes a verdict. */
  lemma SilenceChangesNothing(readings: seq<Reading>, silent: Reading, minAgree: int, payee: Option<string>,
                              amountRaw: Option<string>)
    requires AllValid(readings) && silent.Valid() && (silent.status == Missing || silent.status == Error)
    ensures AllValid(readings + [silent])
    ensures Judge(readings + [silent], minAgree, payee, amountRaw) == Judge(readings, minAgree, payee, amountRaw)
  {
    OkReadingsConcat(readings, [silent]);
    OkReadingsOfOne(silent);
    assert forall r :: r in readings + [silent] <==> r in readings || r == silent;
    SameReadingsSameVerdict(readings + [silent], readings, minAgree, payee, amountRaw);
  }

  // ------------------------------------------------------------------ what the hash does not settle

  /** A node's contents hash to what was asked for. */
  predicate Carries(cr: Crypto, hash: string, reply: NodeReply) {
    StateContents(reply).Some? && StateBlockHash(cr, StateContents(reply).value) == Hashed(Upper(hash))
  }

  lemma CarriersRead(py: Runtime, cr: Crypto, node: string, hash: string, reply: NodeReply)
    ensures ReadOne(py, cr, node, hash, reply).Some? ==>
      && (ReadOne(py, cr, node, hash, reply).value.block.Some? <==> Carries(cr, hash, reply))
      && (Carries(cr, hash, reply) ==> ReadOne(py, cr, node, hash, reply).value.block
                                         == Some(BlockOf(py, reply.info, StateContents(reply).value)))
    ensures Carries(cr, hash, reply) ==>
      ReadOne(py, cr, node, hash, reply)
      == Some(Reading(node, if SaysConfirmed(py, reply.info) then Ok else Unconfirmed,
                      Some(BlockOf(py, reply.info, StateContents(reply).value))))
  {
    hide StateBlockHash, SaysConfirmed, BlockOf;
  }

  /** The reply with contents of the same hash in place of its own. */
  function Instead(reply: NodeReply, d: Json): NodeReply
    requires StateContents(reply).Some?
  {
    Answered(Put(reply.info, "contents", d))
  }

  lemma InsteadCarries(py: Runtime, cr: Crypto, node: string, hash: string, reply: NodeReply, d: Json)
    requires Carries(cr, hash, reply) && d.Obj? && Get(d, "type") == Str("state")
    requires StateBlockHash(cr, d) == StateBlockHash(cr, StateContents(reply).value)
    ensures StateContents(Instead(reply, d)) == Some(d) && Carries(cr, hash, Instead(reply, d))
    ensures ReadOne(py, cr, node, hash, Instead(reply, d))
         == Some(Reading(node, if SaysConfirmed(py, reply.info) then Ok else Unconfirmed,
                         Some(BlockOf(py, reply.info, d))))
  {
    hide StateBlockHash;
    CarriersRead(py, cr, node, hash, Instead(reply, d));
  }

  /** Because a hash does not fix where the fields are cut, a node that answers with the recut contents is read just
      like one that answers with the block, but for the link. */
  lemma RecutReadsAlike(py: Runtime, cr: Crypto, node: string, hash: string, reply: NodeReply, c: Json, d: Json)
    requires Carries(cr, hash, reply) && StateContents(reply) == Some(c) && HasHashes(c) && d == Recut(cr, c)
    ensures ReadOne(py, cr, node, hash, Instead(reply, d))
         == Some(Reading(node, if SaysConfirmed(py, reply.info) then Ok else Unconfirmed,
                         Some(BlockOf(py, reply.info, c).(link := Str("")))))
  {
    hide StateBlockHash, FieldsOf, HasHashes, SaysConfirmed;
    RecutHashesAlike(cr, c);
    InsteadCarries(py, cr, node, hash, reply, d);
  }

  /** So two nodes that answer so contradict each other, whatever is asked of them. */
  lemma RecutContradicts(py: Runtime, cr: Crypto, hash: string, reply: NodeReply, c: Json, d: Json, a: string,
                         b: string,
                         minAgree: int, payee: Option<string>, amountRaw: Option<string>)
    requires IsHex64(hash)
    requires Carries(cr, hash, reply) && StateContents(reply) == Some(c) && HasHashes(c) && d == Recut(cr, c)
    ensures Call(py, cr, hash, [a, b], [reply, Instead(reply, d)], minAgree, payee, amountRaw) == Judged(Contradiction)
  {
    hide Judge, Recut, ReadOne, Carries, SaysConfirmed, StateContents;
    RecutReadsAlike(py, cr, b, hash, reply, c, d);
    CarriersRead(py, cr, a, hash, reply);
    var replies := [reply, Instead(reply, d)];
    var readings := Readings(py, cr, [a, b], hash, replies).value;
    assert Get(c, "link") != Str("");
    assert readings[0] in readings && readings[1] in readings;
    VerdictExplained(readings, minAgree, payee, amountRaw);
    assert forall r | r in readings :: r == readings[0] || r == readings[1];
  }

  // ------------------------------------------------------------------ whose payee a pass names

  /** The contents `c` of `reply`, but for the payee and the amount. */
  function Renamed(reply: NodeReply, payee: string, amount: string): NodeReply
    requires StateContents(reply).Some?
  {
    Answered(Put(Put(reply.info, "contents", Put(StateContents(reply).value, "link_as_account", Str(payee))),
                 "amount", Str(amount)))
  }

  lemma RenamedReads(py: Runtime, cr: Crypto, node: string, hash: string, reply: NodeReply, payee: string,
                     amount: string)
    requires Carries(cr, hash, reply) && SaysConfirmed(py, reply.info)
    ensures ReadOne(py, cr, node, hash, Renamed(reply, payee, amount))
         == Some(Reading(node, Ok, Some(BlockOf(py, reply.info, StateContents(reply).value).(
              destination := Str(payee), amount := amount))))
  {
    hide StateBlockHash;
    var c := StateContents(reply).value;
    OtherKeysUnhashed(cr, c, "link_as_account", Str(payee));
    CarriersRead(py, cr, node, hash, Renamed(reply, payee, amount));
  }

  /** The payee and the amount of a pass are the nodes' word: for every block, whatever it pays, every payee and every
      amount, if all nodes answer with them the verdict is a pass for them. */
  lemma AnyPayeePasses(py: Runtime, cr: Crypto, hash: string, nodes: seq<string>, reply: NodeReply,
                       replies: seq<NodeReply>, payee: string, amount: string, minAgree: int)
    requires IsHex64(hash) && Carries(cr, hash, reply) && SaysConfirmed(py, reply.info)
    requires |replies| == |nodes| >= 1 && minAgree <= |nodes|
    requires forall i | 0 <= i < |replies| :: replies[i] == Renamed(reply, payee, amount)
    ensures Call(py, cr, hash, nodes, replies, minAgree, Some(payee), Some(amount))
         == Judged(Pass(BlockOf(py, reply.info, StateContents(reply).value).(
              destination := Str(payee), amount := amount)))
  {
    hide Judge, ReadOne, StateBlockHash, SaysConfirmed, BlockOf, Renamed, OkReadings, StateContents;
    forall node ensures ReadOne(py, cr, node, hash, Renamed(reply, payee, amount))
      == Some(Reading(node, Ok, Some(BlockOf(py, reply.info, StateContents(reply).value).(
           destination := Str(payee), amount := amount))))
    {
      RenamedReads(py, cr, node, hash, reply, payee, amount);
    }
    var block := BlockOf(py, reply.info, StateContents(reply).value).(destination := Str(payee), amount := amount);
    var readings := Readings(py, cr, nodes, hash, replies).value;
    AllOk(readings);
    PassExact(readings, minAgree, Some(payee), Some(amount), block);
  }

  lemma {:induction false} AllOk(readings: seq<Reading>)
    requires forall i | 0 <= i < |readings| :: readings[i].status == Ok
    ensures OkReadings(readings) == readings
  {
    if readings != [] {
      AllOk(readings[..|readings| - 1]);
    }
  }

  /** The named destination is the account of the link. */
  predicate NamesItsLink(cr: Crypto, destination: Json, link: Json) {
    && destination.Str? && link.Str? && PublicKeyFromAddress(cr.blake40, destination.s).Some?
    && FromHex(link.s) == Some(PublicKeyFromAddress(cr.blake40, destination.s).value)
  }

  predicate HonestlyNamed(cr: Crypto, reply: NodeReply)
    requires StateContents(reply).Some?
  {
    NamesItsLink(cr, Get(StateContents(reply).value, "link_as_account"), Get(StateContents(reply).value, "link"))
  }

  /** When a pass names the payee that its link pays: exactly when some node that carries the block names it so. Given
      one carrier of 64-hex fields, that link is the one of the block sent, whichever nodes lie about what is not
      hashed. */
  lemma PassNamesPayeeExact(py: Runtime, cr: Crypto, hash: string, nodes: seq<string>, replies: seq<NodeReply>,
                            minAgree: int, payee: Option<string>, amountRaw: Option<string>, block: Block)
    requires |nodes| == |replies|
    requires Call(py, cr, hash, nodes, replies, minAgree, payee, amountRaw) == Judged(Pass(block))
    ensures NamesItsLink(cr, block.destination, block.link) <==>
      exists reply | reply in replies :: Carries(cr, hash, reply) && HonestlyNamed(cr, reply)
    ensures forall reply | reply in replies && Carries(cr, hash, reply) ::
      BlockOf(py, reply.info, StateContents(reply).value) == block
  {
    hide Judge, ReadOne, StateBlockHash, NamesItsLink, SaysConfirmed, StateContents, OkReadings;
    var readings := Readings(py, cr, nodes, hash, replies).value;
    PassExact(readings, minAgree, payee, amountRaw, block);
    forall i | 0 <= i < |replies|
      ensures Carries(cr, hash, replies[i]) <==> readings[i].block.Some?
      ensures Carries(cr, hash, replies[i]) ==> BlockOf(py, replies[i].info, StateContents(replies[i]).value) == block
    {
      CarriersRead(py, cr, nodes[i], hash, replies[i]);
      assert readings[i] in readings;
    }
    OkReadingsAreReadings(readings, OkReadings(readings)[0]);
    var i :| 0 <= i < |readings| && readings[i] == OkReadings(readings)[0];
    assert Carries(cr, hash, replies[i]) && replies[i] in replies;
  }

  lemma PassPaysRealPayee(py: Runtime, cr: Crypto, hash: string, nodes: seq<string>, replies: seq<NodeReply>,
                          minAgree: int, payee: Option<string>, amountRaw: Option<string>, block: Block, sent: Json,
                          carrier: NodeReply)
    requires |nodes| == |replies|
    requires Call(py, cr, hash, nodes, replies, minAgree, payee, amountRaw) == Judged(Pass(block))
    requires sent.Obj? && HasHashes(sent) && StateBlockHash(cr, sent) == Hashed(Upper(hash))
    requires carrier in replies && Carries(cr, hash, carrier) && HasHashes(StateContents(carrier).value)
    requires NoCollision(cr, StateContents(carrier).value, sent)
    ensures block.link.Str? && FromHex(block.link.s) == HexIn(sent, "link")
    ensures (block.destination.Str? && PublicKeyFromAddress(cr.blake40, block.destination.s).Some?
             && HexIn(sent, "link") == Some(PublicKeyFromAddress(cr.blake40, block.destination.s).value))
       <==> exists reply | reply in replies :: Carries(cr, hash, reply) && HonestlyNamed(cr, reply)
  {
    hide Judge, StateBlockHash, NoCollision, FromHex, PublicKeyFromAddress, Call, HonestlyNamed, AddressIn, BalanceIn;
    PassNamesPayeeExact(py, cr, hash, nodes, replies, minAgree, payee, amountRaw, block);
    CheckedRehashBindsFields(cr, StateContents(carrier).value, sent);
    HashesAre32Bytes(sent);
    HashesAre32Bytes(StateContents(carrier).value);
  }

  /** `read_one` with one more check: contents whose `link_as_account` is not the account of `link` are unreadable. */
  function Compared(cr: Crypto, readings: seq<Reading>): (r: seq<Reading>)
    ensures |r| == |readings|
  {
    seq(|readings|, i requires 0 <= i < |readings| =>
      var b := readings[i].block;
      if b.Some? && !NamesItsLink(cr, b.value.destination, b.value.link) then Reading(readings[i].node, Error, None)
      else readings[i])
  }

  /** With that check every pass names the payee its link pays, and honest readings judge as before. */
  lemma ComparingIsEnough(cr: Crypto, readings: seq<Reading>, minAgree: int, payee: Option<string>,
                          amountRaw: Option<string>, block: Block)
    requires AllValid(readings)
    ensures AllValid(Compared(cr, readings))
    ensures Judge(Compared(cr, readings), minAgree, payee, amountRaw) == Pass(block) ==>
      NamesItsLink(cr, block.destination, block.link)
    ensures (forall r | r in readings && r.block.Some? ::
               NamesItsLink(cr, r.block.value.destination, r.block.value.link))
      ==> Compared(cr, readings) == readings
  {
    hide NamesItsLink, Judge, OkReadings;
    var compared := Compared(cr, readings);
    assert forall i | 0 <= i < |readings| :: readings[i] in readings;
    PassExact(compared, minAgree, payee, amountRaw, block);
    if Judge(compared, minAgree, payee, amountRaw) == Pass(block) {
      OkReadingsAreReadings(compared, OkReadings(compared)[0]);
    }
  }

  // ------------------------------------------------------------------ an SDK-built block

  /** A node that returns an SDK-built block under its hash, confirmed, is read as confirming it, and names the payee
      its link pays. */
  lemma BuiltBlockReadsOk(py: Runtime, cr: Crypto, node: string, hash: string, privateKey: ByteString,
                          accountKey: Bytes32, previous: ByteString, representative: string, newBalance: int,
                          destination: string, work: string, info: Json)
    requires BuildSendBlock(cr, privateKey, accountKey, AddressFromPublicKey(cr.blake40, accountKey), previous,
                            representative, newBalance, destination, work).Some?
    requires PublicKeyFromAddress(cr.blake40, representative).Some?
    requires PublicKeyFromAddress(cr.blake40, destination).Some?
    requires var digest := BlockHash(cr, accountKey, previous, PublicKeyFromAddress(cr.blake40, representative).value,
                                     newBalance, PublicKeyFromAddress(cr.blake40, destination).value);
      digest.Some? && Upper(hash) == Upper(HexText(digest.value))
    requires info.Obj? && "error" !in info.fields && SaysConfirmed(py, info)
    requires Get(info, "contents") == DictJson(BuildSendBlock(cr, privateKey, accountKey,
               AddressFromPublicKey(cr.blake40, accountKey), previous, representative, newBalance, destination,
               work).value)
    ensures var address := AddressFromPublicKey(cr.blake40, accountKey);
      var block := BuildSendBlock(cr, privateKey, accountKey, address, previous, representative, newBalance,
                                  destination, work).value;
      && ReadOne(py, cr, node, hash, Answered(info))
         == Some(Reading(node, Ok, Some(Block(Get(info, "subtype"), Str(address), Str(destination),
                                              PyStr(py, Get(info, "amount")), Str(block.link)))))
      && NamesItsLink(cr, Str(destination), Str(block.link))
  {
    hide StateBlockHash, AddressFromPublicKey, PublicKeyFromAddress, BlockHash, HexText, DictJson, FromHex;
    var address := AddressFromPublicKey(cr.blake40, accountKey);
    DecodeInvertsEncode(cr.blake40, accountKey);
    BuiltBlockRehashes(cr, privateKey, accountKey, address, previous, representative, newBalance, destination, work);
    BuiltBlockNamesDestination(cr, privateKey, accountKey, address, previous, representative, newBalance, destination,
                               work);
    DictGets(BuildSendBlock(cr, privateKey, accountKey, address, previous, representative, newBalance, destination,
                            work).value);
  }

  // ------------------------------------------------------------------ from the fields of a reply

  /** A reply's flag says that the block is confirmed: JSON's true, or text that spells it but for case (other JSON
      through its own text). */
  predicate FlagSaysTrue(py: Runtime, flag: Json) {
    match flag
    case Bool(b) => b
    case Str(s) => SaysTrue(s)
    case Null => false
    case Int(_) => false
    case _ => SaysTrue(py.repr(flag))
  }

  lemma SaysConfirmedExact(py: Runtime, info: Json)
    requires info.Obj?
    ensures SaysConfirmed(py, info) <==> FlagSaysTrue(py, Get(info, "confirmed"))
  {
    hide Lower, NatText;
    var flag := Get(info, "confirmed");
    LowerTrueExact(PyStr(py, flag));
    if flag.Int? {
      var s := IntText(flag.n);
      assert s[0] == '-' || IsDigit(s[0]);
    }
  }

  /** A reply with state contents, by its keys. */
  lemma StateContentsExact(reply: NodeReply, c: Json)
    ensures StateContents(reply) == Some(c) <==>
      && reply.Answered? && reply.info.Obj? && "error" !in reply.info.fields
      && Get(reply.info, "contents") == c && c.Obj? && Get(c, "type") == Str("state")
  {
  }

  /** How a node is read, exactly, from its reply; and what block it is taken to carry. */
  lemma StatusExact(py: Runtime, cr: Crypto, node: string, hash: string, reply: NodeReply)
    requires ReadOne(py, cr, node, hash, reply).Some?
    ensures var r := ReadOne(py, cr, node, hash, reply).value;
      && r.node == node
      && (r.status == Missing <==>
           reply.Answered? && (if reply.info.Obj? then "error" in reply.info.fields else !Truthy(reply.info)))
      && (r.status == Error <==>
           || reply.NoAnswer?
           || (reply.info.Obj? && "error" !in reply.info.fields && StateContents(reply).None?)
           || (StateContents(reply).Some? && StateBlockHash(cr, StateContents(reply).value) == Unreadable))
      && (r.status == Lied <==> Lies(cr, hash, reply))
      && (r.status == Ok <==> Confirms(py, cr, hash, reply))
      && (r.status == Unconfirmed <==> Carries(cr, hash, reply) && !FlagSaysTrue(py, Get(reply.info, "confirmed")))
      && (Carries(cr, hash, reply) ==>
           && var c := Get(reply.info, "contents");
           && c.Obj? && r.block == Some(Block(Get(reply.info, "subtype"), Get(c, "account"), Get(c, "link_as_account"),
                                              PyStr(py, Get(reply.info, "amount")), Get(c, "link"))))
  {
    hide StateBlockHash, SaysConfirmed, FlagSaysTrue;
    if reply.Answered? && reply.info.Obj? {
      SaysConfirmedExact(py, reply.info);
    }
  }

  /** A node's contents hash to something other than what was asked for. */
  predicate Lies(cr: Crypto, hash: string, reply: NodeReply) {
    && StateContents(reply).Some?
    && var h := StateBlockHash(cr, StateContents(reply).value);
    && h.Hashed? && h.hex != Upper(hash)
  }

  /** A node carries the block and its flag says it is confirmed. */
  predicate Confirms(py: Runtime, cr: Crypto, hash: string, reply: NodeReply) {
    Carries(cr, hash, reply) && FlagSaysTrue(py, Get(reply.info, "confirmed"))
  }

  /** The nodes that confirm the block, by their place. */
  function Voters(py: Runtime, cr: Crypto, hash: string, replies: seq<NodeReply>): set<nat> {
    set i: nat | 0 <= i < |replies| && Confirms(py, cr, hash, replies[i])
  }

  function OkPlaces(readings: seq<Reading>): set<nat> {
    set i: nat | 0 <= i < |readings| && readings[i].status == Ok
  }

  lemma {:induction false} OkReadingsCount(readings: seq<Reading>)
    ensures |OkReadings(readings)| == |OkPlaces(readings)|
  {
    if readings != [] {
      var n := |readings| - 1;
      OkReadingsCount(readings[..n]);
      OkPlacesSnoc(readings[..n], readings[n]);
      assert readings[..n] + [readings[n]] == readings;
      assert n !in OkPlaces(readings[..n]);
    }
  }

  lemma OkPlacesSnoc(init: seq<Reading>, last: Reading)
    ensures OkPlaces(init + [last]) == OkPlaces(init) + if last.status == Ok then {|init|} else {}
  {
  }

  /** What a pass means in terms of the replies: at least `minAgree` nodes, and at least one, confirm the block, every
      node that carries it carries this one, and nobody lies. And one lie is enough to refuse, unless a reply raises. */
  lemma PassMeansConfirmed(py: Runtime, cr: Crypto, hash: string, nodes: seq<string>, replies: seq<NodeReply>,
                           minAgree: int, payee: Option<string>, amountRaw: Option<string>, block: Block)
    requires |nodes| == |replies|
    ensures var r := Call(py, cr, hash, nodes, replies, minAgree, payee, amountRaw);
      && (r == Judged(Pass(block)) ==>
           && |Voters(py, cr, hash, replies)| >= minAgree && Voters(py, cr, hash, replies) != {}
           && (forall i | 0 <= i < |replies| :: !Lies(cr, hash, replies[i])))
      && (r == Judged(SomeoneLied) <==>
           && IsHex64(hash) && (forall i | 0 <= i < |replies| :: !Breaks(cr, replies[i]))
           && exists i | 0 <= i < |replies| :: Lies(cr, hash, replies[i]))
  {
    hide ReadOne, Judge, Lies, Confirms, Breaks, OkReadings, Carries, StateContents, FlagSaysTrue;
    forall i | 0 <= i < |replies|
      ensures ReadOne(py, cr, nodes[i], hash, replies[i]).None? <==> Breaks(cr, replies[i])
    {
      ReadOneRaisesExact(py, cr, nodes[i], hash, replies[i]);
    }
    if IsHex64(hash) && Readings(py, cr, nodes, hash, replies).Some? {
      var readings := Readings(py, cr, nodes, hash, replies).value;
      forall i | 0 <= i < |replies|
        ensures readings[i].status == Ok <==> Confirms(py, cr, hash, replies[i])
        ensures readings[i].status == Lied <==> Lies(cr, hash, replies[i])
        ensures readings[i] in readings
      {
        ReadingStatus(py, cr, nodes[i], hash, replies[i]);
      }
      PassExact(readings, minAgree, payee, amountRaw, block);
      VerdictExplained(readings, minAgree, payee, amountRaw);
      OkReadingsCount(readings);
      assert Voters(py, cr, hash, replies) == OkPlaces(readings);
    }
  }

  lemma ReadingStatus(py: Runtime, cr: Crypto, node: string, hash: string, reply: NodeReply)
    requires ReadOne(py, cr, node, hash, reply).Some?
    ensures var status := ReadOne(py, cr, node, hash, reply).value.status;
      (status == Ok <==> Confirms(py, cr, hash, reply)) && (status == Lied <==> Lies(cr, hash, reply))
  {
    hide ReadOne, Lies, Confirms, StateContents, Carries;
    StatusExact(py, cr, node, hash, reply);
  }
}
