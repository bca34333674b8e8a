/** The x402 facilitator: fail-closed verification on every endpoint, and settlement by a single-use claim. */
module Facilitator {
  import opened Text
  import opened Numerals
  import opened Decimals
  import opened Amounts
  import opened Json
  import opened ClaimKeys
  import opened ClaimStores

  // ------------------------------------------------------------------ amounts

  /** `amount_text` */
  function AmountText(amount: Json): Option<string> {
    var text := match amount
      case Int(n) => Some(IntText(n))
      case Str(s) => Some(s)
      case _ => None;
    if text.Some? && IsAmountString(text.value) then text else None
  }

  /** The positive raw amount a requirement names; None when it names none. */
  function ExpectedRaw(amount: Json): Option<nat> {
    match AmountText(amount)
    case None => None
    case Some(text) =>
      match ParseRaw(text)
      case None => None
      case Some(raw) => if raw <= 0 then None else Some(raw)
  }

  // ------------------------------------------------------------------ reading one node

  datatype NormalizedBlock = NormalizedBlock(account: string, subtype: string, destination: string, amountRaw: int,
                                             confirmed: bool)
  {
    predicate IsSend() {
      subtype == "send" || subtype == "state" || subtype == ""
    }
  }

  /** `_contents_of` */
  function ContentsOf(py: Runtime, raw: Json): (c: Json)
    requires raw.Obj?
    ensures c.Obj?
  {
    var contents := Get(raw, "contents");
    if contents.Obj? then contents
    else if contents.Str? && Strip(contents.s) != "" then
      match py.loads(contents.s)
      case Some(parsed) => if parsed.Obj? then parsed else EMPTY
      case None => EMPTY
    else EMPTY
  }

  predicate ConfirmedFlag(py: Runtime, flag: Json) {
    flag == Bool(true) || Lower(Strip(PyStr(py, flag))) == "true"
  }

  /** `normalize_block_info`; None is RpcError. */
  function NormalizeBlockInfo(py: Runtime, raw: Json): Option<NormalizedBlock> {
    if !raw.Obj? then None
    else if Get(raw, "confirmed") == Null || Get(raw, "amount") == Null then None
    else
      var contents := ContentsOf(py, raw);
      match ParseRaw(PyStr(py, Get(raw, "amount")))
      case None => None
      case Some(amount) => Some(NormalizedBlock(
        TextOr(py, Or(Get(raw, "block_account"), Get(raw, "account"))),
        TextOr(py, Or(Get(raw, "subtype"), Or(Get(raw, "type"), Get(contents, "type")))),
        TextOr(py, Or(Or(Get(contents, "link_as_account"), Get(contents, "destination")),
                      Or(Get(raw, "link_as_account"), Get(raw, "destination")))),
        amount,
        ConfirmedFlag(py, Get(raw, "confirmed"))))
  }

  /** What one endpoint did when asked: its call raised, or it answered. */
  datatype Reply = CallRaised(message: string) | Answered(info: Json)

  datatype Cause =
    | CallFailed(message: string) | Malformed | NotConfirmed | NotASend | WrongAmount | NoPayee | WrongPayee

  datatype ConfirmedSend = ConfirmedSend(blockHash: string, payer: string, amount: string, receiver: string)

  datatype Reading = Confirmed(send: ConfirmedSend) | Failed(cause: Cause)

  /** One pass of the verifier's loop. */
  function ReadReply(py: Runtime, reply: Reply, hash: string, payTo: Json, expected: nat): Reading {
    if reply.CallRaised? then Failed(CallFailed(reply.message)) else
      match NormalizeBlockInfo(py, reply.info)
      case None => Failed(Malformed)
      case Some(nb) =>
        if !nb.confirmed then Failed(NotConfirmed)
        else if !nb.IsSend() then Failed(NotASend)
        else if nb.amountRaw != expected then Failed(WrongAmount)
        else if nb.destination == "" then Failed(NoPayee)
        else if !PyEq(Str(nb.destination), payTo) then Failed(WrongPayee)
        else Confirmed(ConfirmedSend(hash, nb.account, IntText(nb.amountRaw), nb.destination))
  }

  /** An endpoint vouches for the payment: its reply is a confirmed send of exactly `expected` to `payTo`. */
  predicate Vouches(py: Runtime, reply: Reply, payTo: Json, expected: nat) {
    && reply.Answered?
    && var nb := NormalizeBlockInfo(py, reply.info);
       && nb.Some? && nb.value.confirmed && nb.value.IsSend() && nb.value.amountRaw == expected
       && nb.value.destination != "" && payTo == Str(nb.value.destination)
  }

  lemma ReadReplyExact(py: Runtime, reply: Reply, hash: string, payTo: Json, expected: nat)
    ensures var r := ReadReply(py, reply, hash, payTo, expected);
      && (r.Confirmed? <==> Vouches(py, reply, payTo, expected))
      && (r.Confirmed? ==>
           r.send.blockHash == hash && Str(r.send.receiver) == payTo && r.send.amount == NatText(expected))
  {
    if reply.Answered? {
      match NormalizeBlockInfo(py, reply.info)
      case None =>
      case Some(nb) => EqualToString(payTo, nb.destination);
    }
  }

  /** A real node's reply: the payee of a state block is read from `contents.link_as_account`, whether the contents came
      as an object or as its text, and nothing else in the reply can name another payee. */
  lemma StateBlockReplyReads(py: Runtime, raw: Json, contents: Json, payee: string, account: string, amount: nat)
    requires raw.Obj? && contents.Obj? && payee != "" && account != ""
    requires Get(raw, "contents") == contents
          || (Get(raw, "contents").Str? && Strip(Get(raw, "contents").s) != ""
              && py.loads(Get(raw, "contents").s) == Some(contents))
    requires Get(contents, "link_as_account") == Str(payee)
    requires Get(raw, "block_account") == Str(account) && Get(raw, "subtype") == Str("send")
    requires Get(raw, "confirmed") == Str("true") && Get(raw, "amount") == Str(NatText(amount))
    ensures NormalizeBlockInfo(py, raw) == Some(NormalizedBlock(account, "send", payee, amount, true))
  {
    hide ParseRaw, NatText;
    IntAmount(amount);
    assert Strip("true") == "true" && Lower("true") == "true";
  }

  // ------------------------------------------------------------------ verifying on every endpoint

  datatype Reason = TooFewEndpoints | UnusableAmount | FirstFailure(cause: Cause) | CountOnly

  datatype VerificationResult = VerificationResult(ok: bool, confirmedSends: seq<ConfirmedSend>, consulted: nat,
                                                   reason: Option<Reason>)

  /** The sends the endpoints confirm, in order. */
  function Sends(py: Runtime, replies: seq<Reply>, hash: string, payTo: Json, expected: nat): seq<ConfirmedSend> {
    if replies == [] then [] else
      Sends(py, replies[..|replies| - 1], hash, payTo, expected) +
      match ReadReply(py, replies[|replies| - 1], hash, payTo, expected)
      case Confirmed(send) => [send]
      case Failed(_) => []
  }

  function FailureCount(py: Runtime, replies: seq<Reply>, hash: string, payTo: Json, expected: nat): nat {
    if replies == [] then 0 else
      FailureCount(py, replies[..|replies| - 1], hash, payTo, expected) +
      if ReadReply(py, replies[|replies| - 1], hash, payTo, expected).Failed? then 1 else 0
  }

  /** `first_reason`: the first failure whose message is not empty. */
  function FirstCause(py: Runtime, replies: seq<Reply>, hash: string, payTo: Json, expected: nat): Option<Cause> {
    if replies == [] then None else
      var earlier := FirstCause(py, replies[..|replies| - 1], hash, payTo, expected);
      var reading := ReadReply(py, replies[|replies| - 1], hash, payTo, expected);
      if earlier.None? && reading.Failed? && reading.cause != CallFailed("") then Some(reading.cause) else earlier
  }

  function Refused(consulted: nat, reason: Reason): VerificationResult {
    VerificationResult(false, [], consulted, Some(reason))
  }

  /** The result of asking every endpoint. */
  function Verification(py: Runtime, replies: seq<Reply>, hash: string, payTo: Json, amount: Json): VerificationResult {
    if |replies| < 2 then Refused(|replies|, TooFewEndpoints)
    else match ExpectedRaw(amount)
      case None => Refused(0, UnusableAmount)
      case Some(expected) =>
        var sends := Sends(py, replies, hash, payTo, expected);
        if FailureCount(py, replies, hash, payTo, expected) == 0 then VerificationResult(true, sends, |replies|, None)
        else VerificationResult(false, sends, |replies|, Some(
          match FirstCause(py, replies, hash, payTo, expected)
          case Some(cause) => FirstFailure(cause)
          case None => CountOnly))
  }

  /** `verify_block_on_independent_endpoints`, on the replies the endpoints gave. */
  method VerifyBlock(py: Runtime, replies: seq<Reply>, hash: string, payTo: Json, amount: Json)
    returns (r: VerificationResult)
    ensures r == Verification(py, replies, hash, payTo, amount)
  {
    hide ReadReply, ExpectedRaw;
    var required := |replies|;
    if required < 2 {
      return Refused(required, TooFewEndpoints);
    }
    var amountRaw := ExpectedRaw(amount);
    if amountRaw.None? {
      return Refused(0, UnusableAmount);
    }
    var expected := amountRaw.value;
    var confirmedSends: seq<ConfirmedSend> := [];
    var failures := 0;
    var first: Option<Cause> := None;
    for i := 0 to required
      invariant confirmedSends == Sends(py, replies[..i], hash, payTo, expected)
      invariant failures == FailureCount(py, replies[..i], hash, payTo, expected)
      invariant first == FirstCause(py, replies[..i], hash, payTo, expected)
    {
      var reading := ReadReply(py, replies[i], hash, payTo, expected);
      assert replies[..i + 1][..i] == replies[..i];
      match reading {
        case Confirmed(send) =>
          confirmedSends := confirmedSends + [send];
        case Failed(cause) =>
          failures := failures + 1;
          if first.None? && cause != CallFailed("") {
            first := Some(cause);
          }
      }
    }
    assert replies[..required] == replies;
    return VerificationResult(failures == 0, confirmedSends, required,
      if failures == 0 then None else Some(if first.Some? then FirstFailure(first.value) else CountOnly));
  }

  predicate AllVouch(py: Runtime, replies: seq<Reply>, payTo: Json, expected: nat) {
    forall i | 0 <= i < |replies| :: Vouches(py, replies[i], payTo, expected)
  }

  lemma {:induction false} FoldsMeaning(py: Runtime, replies: seq<Reply>, hash: string, payTo: Json, expected: nat)
    ensures FailureCount(py, replies, hash, payTo, expected) == 0 <==> AllVouch(py, replies, payTo, expected)
    ensures |Sends(py, replies, hash, payTo, expected)| + FailureCount(py, replies, hash, payTo, expected) == |replies|
    ensures forall send | send in Sends(py, replies, hash, payTo, expected) ::
      send.blockHash == hash && Str(send.receiver) == payTo && send.amount == NatText(expected)
    ensures FirstCause(py, replies, hash, payTo, expected).Some? ==> !AllVouch(py, replies, payTo, expected)
  {
    hide ReadReply, Vouches;
    if replies == [] {
    } else {
      var init, last := replies[..|replies| - 1], replies[|replies| - 1];
      FoldsMeaning(py, init, hash, payTo, expected);
      ReadReplyExact(py, last, hash, payTo, expected);
      assert replies == init + [last];
      assert AllVouch(py, replies, payTo, expected) <==>
        AllVouch(py, init, payTo, expected) && Vouches(py, last, payTo, expected);
    }
  }

  /** Verification succeeds exactly when there are at least two endpoints, the amount is a plain positive one, and every
      endpoint vouches for the payment; then every endpoint's confirmed send is in the result. */
  lemma VerificationExact(py: Runtime, replies: seq<Reply>, hash: string, payTo: Json, amount: Json)
    ensures var r := Verification(py, replies, hash, payTo, amount);
      && (r.ok <==> (|replies| >= 2 && ExpectedRaw(amount).Some?
                     && AllVouch(py, replies, payTo, ExpectedRaw(amount).value)))
      && (r.ok <==> r.reason.None?)
      && (r.ok ==> |r.confirmedSends| == r.consulted == |replies|)
      && (forall send | send in r.confirmedSends ::
            && send.blockHash == hash && Str(send.receiver) == payTo
            && ExpectedRaw(amount).Some? && send.amount == NatText(ExpectedRaw(amount).value))
  {
    if ExpectedRaw(amount).Some? {
      FoldsMeaning(py, replies, hash, payTo, ExpectedRaw(amount).value);
    }
  }

  /** The reported cause is that of the first endpoint that failed with something to say. */
  lemma {:induction false} FirstCauseExact(py: Runtime, replies: seq<Reply>, hash: string, payTo: Json, expected: nat)
    ensures var first := FirstCause(py, replies, hash, payTo, expected);
      if first.None? then
        forall i | 0 <= i < |replies| :: !Complains(ReadReply(py, replies[i], hash, payTo, expected))
      else
        exists i | 0 <= i < |replies| ::
          && ReadReply(py, replies[i], hash, payTo, expected) == Failed(first.value) && first.value != CallFailed("")
          && forall j | 0 <= j < i :: !Complains(ReadReply(py, replies[j], hash, payTo, expected))
  {
    hide ReadReply;
    if replies == [] {
    } else {
      var init := replies[..|replies| - 1];
      FirstCauseExact(py, init, hash, payTo, expected);
      assert forall i | 0 <= i < |init| :: init[i] == replies[i];
    }
  }

  predicate Complains(r: Reading) {
    r.Failed? && r.cause != CallFailed("")
  }

  /** Every endpoint asked is counted once, as confirmed or as failed. */
  lemma EveryEndpointCounted(py: Runtime, replies: seq<Reply>, hash: string, payTo: Json, amount: Json)
    requires |replies| >= 2 && ExpectedRaw(amount).Some?
    ensures var r := Verification(py, replies, hash, payTo, amount);
      && r.consulted == |replies|
      && |r.confirmedSends| + FailureCount(py, replies, hash, payTo, ExpectedRaw(amount).value) == r.consulted
  {
    FoldsMeaning(py, replies, hash, payTo, ExpectedRaw(amount).value);
  }

  // ------------------------------------------------------------------ requirements and proof

  const SCHEME := "exact"
  const NETWORK := "nano:live"
  const ASSET := "XNO"

  datatype CheckFailure = BadRequest | BadScheme | BadNetwork | BadAsset | BadAmount | BadPayTo | BadRequirements

  /** `REQUIRED_SECTIONS` are all there and not blank. */
  predicate HasRequiredSections(requirements: Json)
    requires requirements.Obj?
  {
    && NonBlank(Get(requirements, "scheme")) && NonBlank(Get(requirements, "network"))
    && NonBlank(Get(requirements, "amount")) && NonBlank(Get(requirements, "asset"))
    && NonBlank(Get(requirements, "payTo"))
  }

  /** What verify and settle read off checked requirements is there. */
  predicate Readable(requirements: Json) {
    && requirements.Obj? && "payTo" in requirements.fields && "amount" in requirements.fields
    && (Get(requirements, "extra") == Null || Get(requirements, "extra").Obj?)
  }

  /** `_check_requirements`: the first thing wrong, if anything. */
  function CheckRequirements(requirements: Json, payload: Json): (r: Option<CheckFailure>)
    ensures r.None? ==> Readable(requirements)
  {
    hide ExpectedRaw, PyEq;
    if !requirements.Obj? || !payload.Obj? then Some(BadRequest) else
      var accepted := Or(Get(payload, "accepted"), EMPTY);
      if !accepted.Obj? || !Or(Get(payload, "payload"), EMPTY).Obj? then Some(BadRequest)
      else if !PyEq(Get(requirements, "scheme"), Str(SCHEME)) then Some(BadScheme)
      else if !PyEq(Get(requirements, "network"), Str(NETWORK)) || !PyEq(Get(accepted, "network"), Str(NETWORK)) then
        Some(BadNetwork)
      else if !PyEq(Get(requirements, "asset"), Str(ASSET)) || !PyEq(Get(accepted, "asset"), Str(ASSET)) then
        Some(BadAsset)
      else if !PyEq(Get(requirements, "amount"), Get(accepted, "amount")) then Some(BadAmount)
      else if !PyEq(Get(requirements, "payTo"), Get(accepted, "payTo")) then Some(BadPayTo)
      else if Get(requirements, "extra") != Null && !Get(requirements, "extra").Obj? then Some(BadRequirements)
      else if !HasRequiredSections(requirements) then Some(BadRequirements)
      else if ExpectedRaw(Item(requirements, "amount")).None? then Some(BadAmount)
      else None
  }

  /** `_proof_from`: the proof as sent, and whether it is a 64-hex hash */
  function ProofFrom(py: Runtime, payload: Json): (string, bool) {
    var inner := if payload.Obj? then Get(payload, "payload") else Null;
    if !inner.Obj? then ("", false) else
      var proof := TextOr(py, Get(inner, "paymentProof"));
      (proof, IsHex64(proof))
  }

  /** A proof field is a spelling of a block hash: the only payloads that reach a node. */
  lemma ProofIsHash(py: Runtime, payload: Json)
    ensures ProofFrom(py, payload).1 ==> IsHex64(ProofFrom(py, payload).0)
  {
  }

  // ------------------------------------------------------------------ verify

  datatype VerifyResponse =
    | Valid(payer: string, amount: string, confirmedOn: nat, consulted: nat)
    | Inconsistent(failure: CheckFailure)
    | ProofMissing
    | Unconfirmed(reason: Reason, confirmedOn: nat, consulted: nat)

  function VerifyRequest(py: Runtime, requirements: Json, payload: Json, replies: seq<Reply>): VerifyResponse {
    hide CheckRequirements, ProofFrom, Verification, ExpectedRaw;
    match CheckRequirements(requirements, payload)
    case Some(failure) => Inconsistent(failure)
    case None =>
      var (proof, wellFormed) := ProofFrom(py, payload);
      if !wellFormed then ProofMissing else
        var r := Verification(py, replies, proof, Item(requirements, "payTo"), Item(requirements, "amount"));
        VerificationExact(py, replies, proof, Item(requirements, "payTo"), Item(requirements, "amount"));
        if !r.ok then Unconfirmed(r.reason.value, |r.confirmedSends|, r.consulted) else
          Valid(r.confirmedSends[0].payer, r.confirmedSends[0].amount, |r.confirmedSends|, r.consulted)
  }

  // ------------------------------------------------------------------ settle

  datatype SettleRefusal = BadInput | NotConfirmedByAll | Duplicate

  datatype SettleResponse =
    | Success(transaction: string, payer: string, amount: string)
    | Failure(reason: SettleRefusal, transaction: string)
    | DatabaseRaised

  /** What settle decides before it claims. */
  datatype SettlePlan = Refuse(reason: SettleRefusal, transaction: string)
    | ClaimFor(proof: string, requestId: string, send: ConfirmedSend)

  /** `str((requirements.get("extra") or {}).get("requestId") or "")` */
  function RequestIdOf(py: Runtime, requirements: Json): string
    requires Readable(requirements)
  {
    TextOr(py, Get(Or(Get(requirements, "extra"), EMPTY), "requestId"))
  }

  function PlanSettle(py: Runtime, requirements: Json, payload: Json, replies: seq<Reply>): SettlePlan {
    hide CheckRequirements, ProofFrom, Verification;
    var (proof, wellFormed) := ProofFrom(py, payload);
    if CheckRequirements(requirements, payload).Some? || !wellFormed then Refuse(BadInput, proof) else
      var r := Verification(py, replies, proof, Item(requirements, "payTo"), Item(requirements, "amount"));
      if !r.ok || r.confirmedSends == [] then Refuse(NotConfirmedByAll, proof)
      else ClaimFor(proof, RequestIdOf(py, requirements), r.confirmedSends[0])
  }

  /** The response once the claim has been tried. */
  function SettleOutcome(plan: SettlePlan, claim: Outcome): SettleResponse
    requires plan.ClaimFor?
  {
    match claim
    case Won => Success(plan.proof, plan.send.payer, plan.send.amount)
    case Spent => Failure(Duplicate, plan.proof)
    case Raised => DatabaseRaised
  }

  class Facilitator {
    const py: Runtime
    const store: ClaimStore

    constructor (py: Runtime, store: ClaimStore)
      ensures this.py == py && this.store == store
    {
      this.py := py;
      this.store := store;
    }

    method Verify(requirements: Json, payload: Json, replies: seq<Reply>) returns (r: VerifyResponse)
      ensures r == VerifyRequest(py, requirements, payload, replies)
    {
      hide CheckRequirements, ProofFrom, Verification, ExpectedRaw;
      var failure := CheckRequirements(requirements, payload);
      if failure.Some? {
        return Inconsistent(failure.value);
      }
      var (proof, wellFormed) := ProofFrom(py, payload);
      if !wellFormed {
        return ProofMissing;
      }
      var payTo, amount := Item(requirements, "payTo"), Item(requirements, "amount");
      VerificationExact(py, replies, proof, payTo, amount);
      var res := VerifyBlock(py, replies, proof, payTo, amount);
      if !res.ok {
        return Unconfirmed(res.reason.value, |res.confirmedSends|, res.consulted);
      }
      var send := res.confirmedSends[0];
      return Valid(send.payer, send.amount, |res.confirmedSends|, res.consulted);
    }

    /** `settle`: verify again, whatever an earlier verify said, then claim. */
    method Settle(requirements: Json, payload: Json, replies: seq<Reply>, now: real, mf: MigrateFaults, f: ClaimFaults)
      returns (r: SettleResponse)
      modifies store`migrationPending, store.db`rows
      ensures
        match PlanSettle(py, requirements, payload, replies)
        case Refuse(reason, transaction) =>
          && r == Failure(reason, transaction)
          && (store.db.rows, store.migrationPending) == old((store.db.rows, store.migrationPending))
        case plan =>
          var (rows, pending, claim) := ClaimCall(old(store.db.rows), old(store.migrationPending),
            ConsumptionKey(plan.proof, plan.requestId), Some(KeyAsSent(plan.proof, plan.requestId)), now, mf, f);
          && (store.db.rows, store.migrationPending) == (rows, pending)
          && r == SettleOutcome(plan, claim)
    {
      hide CheckRequirements, ProofFrom, Verification, ClaimCall, ConsumptionKey, KeyAsSent, RequestIdOf;
      var failure := CheckRequirements(requirements, payload);
      var (proof, wellFormed) := ProofFrom(py, payload);
      if failure.Some? || !wellFormed {
        return Failure(BadInput, proof);
      }
      var res := VerifyBlock(py, replies, proof, Item(requirements, "payTo"), Item(requirements, "amount"));
      if !res.ok || res.confirmedSends == [] {
        return Failure(NotConfirmedByAll, proof);
      }
      var requestId := RequestIdOf(py, requirements);
      var key := ConsumptionKey(proof, requestId);
      var claim := store.ClaimSpellings(key, Some(KeyAsSent(proof, requestId)), now, mf, f);
      match claim {
        case Won => return Success(proof, res.confirmedSends[0].payer, res.confirmedSends[0].amount);
        case Spent => return Failure(Duplicate, proof);
        case Raised => return DatabaseRaised;
      }
    }
  }

  // ------------------------------------------------------------------ what acceptance means

  /** Both halves name one payment: network, asset, scheme, amount and payee are present and agree. */
  predicate Consistent(requirements: Json, payload: Json) {
    && requirements.Obj? && payload.Obj? && Get(payload, "accepted").Obj?
    && (Truthy(Get(payload, "payload")) ==> Get(payload, "payload").Obj?)
    && var accepted := Get(payload, "accepted");
    && Get(requirements, "scheme") == Str("exact")
    && Get(requirements, "network") == Get(accepted, "network") == Str("nano:live")
    && Get(requirements, "asset") == Get(accepted, "asset") == Str("XNO")
    && PyEq(Get(requirements, "amount"), Get(accepted, "amount"))
    && ExpectedRaw(Get(requirements, "amount")).Some?
    && PyEq(Get(requirements, "payTo"), Get(accepted, "payTo"))
    && NonBlank(Get(requirements, "payTo"))
    && (Get(requirements, "extra") == Null || Get(requirements, "extra").Obj?)
  }

  /** The check refuses nothing that is consistent, and lets through nothing that is not, on every pair of JSON
      values. */
  lemma CheckExact(requirements: Json, payload: Json)
    ensures CheckRequirements(requirements, payload).None? <==> Consistent(requirements, payload)
  {
    hide ExpectedRaw, PyEq, Strip;
    if requirements.Obj? && payload.Obj? && Or(Get(payload, "accepted"), EMPTY).Obj? {
      var accepted := Or(Get(payload, "accepted"), EMPTY);
      EqualToString(Get(requirements, "scheme"), SCHEME);
      EqualToString(Get(requirements, "network"), NETWORK);
      EqualToString(Get(accepted, "network"), NETWORK);
      EqualToString(Get(requirements, "asset"), ASSET);
      EqualToString(Get(accepted, "asset"), ASSET);
      if ExpectedRaw(Get(requirements, "amount")).Some? {
        UsableAmountIsNotBlank(Get(requirements, "amount"));
      }
      ConstantsNotBlank();
    }
  }

  lemma ConstantsNotBlank()
    ensures NonBlank(Str(SCHEME)) && NonBlank(Str(NETWORK)) && NonBlank(Str(ASSET))
  {
  }

  /** Amounts: a JSON integer is raw, a plain string is what `parse_raw` reads; nothing else, and nothing that is not
      positive, is an amount. */
  lemma ExpectedRawMeaning(amount: Json)
    ensures amount.Int? ==> ExpectedRaw(amount) == if amount.n > 0 then Some(amount.n) else None
    ensures amount.Str? ==> (ExpectedRaw(amount).Some? <==> IsAmountString(amount.s) && ParseRaw(amount.s) != Some(0))
    ensures !amount.Int? && !amount.Str? ==> ExpectedRaw(amount).None?
  {
    hide IsAmountString, ParseRaw, IntText, WholePart, FractionPart;
    if amount.Int? {
      IntAmount(amount.n);
    } else if amount.Str? && IsAmountString(amount.s) {
      hide Pow, NatValue;
      ParseRawOfAmount(amount.s);
    }
  }

  lemma IntAmount(n: int)
    ensures n >= 0 ==> IsAmountString(IntText(n)) && ParseRaw(IntText(n)) == Some(n)
    ensures n < 0 ==> !IsAmountString(IntText(n))
  {
    if n >= 0 {
      var text := NatText(n);
      assert text + Fraction("") == text;
      PartsAreAmount(text, "");
      ParseRawOfAmount(text);
      NatRoundTrip(n);
    } else {
      assert IntText(n)[0] == '-';
    }
  }

  lemma UsableAmountIsNotBlank(amount: Json)
    requires ExpectedRaw(amount).Some?
    ensures NonBlank(amount)
  {
    ExpectedRawMeaning(amount);
    if amount.Str? {
      AmountParts(amount.s);
    }
  }

  /** A refusal names what is wrong: a request that is consistent but for one field is refused for that field. */
  lemma ReasonNamesConstant(requirements: Json, payload: Json, v: Json)
    requires Consistent(requirements, payload)
    ensures v != Str(SCHEME) ==>
      CheckRequirements(Obj(requirements.fields["scheme" := v]), payload) == Some(BadScheme)
    ensures v != Str(NETWORK) ==>
      CheckRequirements(Obj(requirements.fields["network" := v]), payload) == Some(BadNetwork)
    ensures v != Str(ASSET) ==>
      CheckRequirements(Obj(requirements.fields["asset" := v]), payload) == Some(BadAsset)
  {
    hide ExpectedRaw, PyEq, NonBlank, HasRequiredSections;
    assert Truthy(Get(payload, "accepted"));
    EqualToString(Str(SCHEME), SCHEME);
    EqualToString(Str(NETWORK), NETWORK);
    EqualToString(v, SCHEME);
    EqualToString(v, NETWORK);
    EqualToString(v, ASSET);
  }

  lemma ReasonNamesMismatch(requirements: Json, payload: Json, v: Json)
    requires Consistent(requirements, payload)
    ensures !PyEq(v, Get(Get(payload, "accepted"), "amount")) ==>
      CheckRequirements(Obj(requirements.fields["amount" := v]), payload) == Some(BadAmount)
    ensures !PyEq(v, Get(Get(payload, "accepted"), "payTo")) ==>
      CheckRequirements(Obj(requirements.fields["payTo" := v]), payload) == Some(BadPayTo)
    ensures v != Null && !v.Obj? ==>
      CheckRequirements(Obj(requirements.fields["extra" := v]), payload) == Some(BadRequirements)
  {
    hide ExpectedRaw, PyEq, NonBlank, HasRequiredSections;
    assert Truthy(Get(payload, "accepted"));
    EqualToString(Str(SCHEME), SCHEME);
    EqualToString(Str(NETWORK), NETWORK);
    EqualToString(Str(ASSET), ASSET);
  }

  /** When every endpoint vouches, the recorded sends are the endpoints' own readings, in their order. */
  lemma {:induction false} SendsInOrder(py: Runtime, replies: seq<Reply>, hash: string, payTo: Json, expected: nat,
                                        i: nat)
    requires AllVouch(py, replies, payTo, expected) && i < |replies|
    ensures |Sends(py, replies, hash, payTo, expected)| == |replies|
    ensures Confirmed(Sends(py, replies, hash, payTo, expected)[i]) == ReadReply(py, replies[i], hash, payTo, expected)
  {
    hide ReadReply, Vouches;
    var n := |replies| - 1;
    FoldsMeaning(py, replies, hash, payTo, expected);
    FoldsMeaning(py, replies[..n], hash, payTo, expected);
    assert AllVouch(py, replies[..n], payTo, expected);
    ReadReplyExact(py, replies[n], hash, payTo, expected);
    if i < n {
      SendsInOrder(py, replies[..n], hash, payTo, expected, i);
    }
  }

  /** A valid verdict reports the first endpoint's payer, the amount in raw, and every endpoint as confirming. */
  lemma ValidReports(py: Runtime, requirements: Json, payload: Json, replies: seq<Reply>)
    requires VerifyRequest(py, requirements, payload, replies).Valid?
    ensures var v := VerifyRequest(py, requirements, payload, replies);
      && replies != [] && replies[0].Answered? && requirements.Obj?
      && NormalizeBlockInfo(py, replies[0].info).Some?
      && v.payer == NormalizeBlockInfo(py, replies[0].info).value.account
      && ExpectedRaw(Get(requirements, "amount")).Some?
      && v.amount == NatText(ExpectedRaw(Get(requirements, "amount")).value)
      && v.confirmedOn == v.consulted == |replies|
  {
    hide CheckRequirements, ProofFrom, ExpectedRaw, NormalizeBlockInfo, PyEq;
    var proof, payTo, amount := ProofFrom(py, payload).0, Item(requirements, "payTo"), Item(requirements, "amount");
    VerificationExact(py, replies, proof, payTo, amount);
    SendsInOrder(py, replies, proof, payTo, ExpectedRaw(amount).value, 0);
  }

  /** `settle` claims on exactly the requests `verify` accepts, given the same replies; so whatever settles,
      verifies. */
  lemma SettleClaimsIffVerifyAccepts(py: Runtime, requirements: Json, payload: Json, replies: seq<Reply>)
    ensures PlanSettle(py, requirements, payload, replies).ClaimFor?
       <==> VerifyRequest(py, requirements, payload, replies).Valid?
  {
    hide CheckRequirements, ProofFrom, Verification, ExpectedRaw;
    if CheckRequirements(requirements, payload).None? {
      VerificationExact(py, replies, ProofFrom(py, payload).0, Item(requirements, "payTo"),
                        Item(requirements, "amount"));
    }
  }

  /** When a settlement is attempted: the halves are consistent, the proof is a block hash, and every one of at least
      two endpoints vouches that the block pays exactly the amount to the payee. */
  lemma ClaimMeansVouched(py: Runtime, requirements: Json, payload: Json, replies: seq<Reply>)
    ensures var plan := PlanSettle(py, requirements, payload, replies);
      plan.ClaimFor? <==>
        && Consistent(requirements, payload) && ProofFrom(py, payload).1 && |replies| >= 2
        && AllVouch(py, replies, Get(requirements, "payTo"), ExpectedRaw(Get(requirements, "amount")).value)
    ensures var plan := PlanSettle(py, requirements, payload, replies);
      plan.ClaimFor? ==>
        && plan.proof == ProofFrom(py, payload).0 && plan.requestId == RequestIdOf(py, requirements)
        && plan.send.blockHash == plan.proof && Str(plan.send.receiver) == Get(requirements, "payTo")
        && plan.send.amount == NatText(ExpectedRaw(Get(requirements, "amount")).value)
  {
    hide CheckRequirements, ProofFrom, Verification, ExpectedRaw, RequestIdOf, PyEq, NonBlank;
    CheckExact(requirements, payload);
    if CheckRequirements(requirements, payload).None? {
      VerificationExact(py, replies, ProofFrom(py, payload).0, Item(requirements, "payTo"),
                        Item(requirements, "amount"));
    }
  }

  // ------------------------------------------------------------------ from the fields of a reply

  /** A reply's flag says that the block is confirmed: JSON's true, or text that spells it but for case and outer blanks
      (other JSON through its own text). */
  predicate FlagSaysTrue(py: Runtime, flag: Json) {
    match flag
    case Bool(b) => b
    case Str(s) => SaysTrue(Strip(s))
    case Null => false
    case Int(_) => false
    case _ => SaysTrue(Strip(py.repr(flag)))
  }

  lemma ConfirmedFlagExact(py: Runtime, flag: Json)
    ensures ConfirmedFlag(py, flag) <==> FlagSaysTrue(py, flag)
  {
    hide Strip, Lower, NatText;
    LowerTrueExact(Strip(PyStr(py, flag)));
    match flag
    case Null => PlainWord("None");
    case Bool(b) =>
      PlainWord("True");
      PlainWord("False");
    case Int(n) => NumberSaysNothing(n);
    case _ =>
  }

  lemma PlainWord(s: string)
    requires s != "" && !IsSpace(s[0]) && !IsSpace(s[|s| - 1])
    ensures Strip(s) == s
  {
    StripExact("", s, "");
    assert "" + s + "" == s;
  }

  lemma NumberSaysNothing(n: int)
    ensures !SaysTrue(Strip(IntText(n)))
  {
    hide Strip;
    var s := IntText(n);
    assert n < 0 ==> s[1..] == NatText(-n) && s[|s| - 1] == NatText(-n)[|NatText(-n)| - 1];
    assert IsDigit(s[|s| - 1]);
    PlainWord(s);
    assert s[0] == '-' || IsDigit(s[0]);
  }

  /** What the contents of a reply are: an object, or text that reads as one; anything else counts as none. */
  lemma ContentsExact(py: Runtime, raw: Json)
    requires raw.Obj?
    ensures var c := Get(raw, "contents");
      ContentsOf(py, raw) ==
        if c.Obj? then c
        else if c.Str? && !AllSpace(c.s) && py.loads(c.s).Some? && py.loads(c.s).value.Obj? then py.loads(c.s).value
        else Obj(map[])
  {
    hide Strip, AllSpace;
    var c := Get(raw, "contents");
    NonBlankExact(c);
    if c.Str? && c.s == "" {
      StripExact("", "", "");
      EmptyIsBlank();
    }
  }

  lemma EmptyIsBlank()
    ensures AllSpace("") && Strip("") == ""
  {
  }

  /** What a reply normalises to, field by field, in the order the fields are looked for. */
  lemma NormalizeExact(py: Runtime, raw: Json)
    ensures NormalizeBlockInfo(py, raw).None? <==>
      !raw.Obj? || Get(raw, "confirmed") == Null || Get(raw, "amount") == Null
        || ParseRaw(PyStr(py, Get(raw, "amount"))).None?
    ensures NormalizeBlockInfo(py, raw).Some? ==>
      && var nb, c := NormalizeBlockInfo(py, raw).value, ContentsOf(py, raw);
      && Some(nb.amountRaw) == ParseRaw(PyStr(py, Get(raw, "amount")))
      && (nb.confirmed <==> FlagSaysTrue(py, Get(raw, "confirmed")))
      && nb.account == FirstText(py, [Get(raw, "block_account"), Get(raw, "account")])
      && nb.subtype == FirstText(py, [Get(raw, "subtype"), Get(raw, "type"), Get(c, "type")])
      && nb.destination == FirstText(py, [Get(c, "link_as_account"), Get(c, "destination"),
                                          Get(raw, "link_as_account"), Get(raw, "destination")])
  {
    hide ContentsOf, ParseRaw, FlagSaysTrue, ConfirmedFlag, TextOr, FirstText, PyStr;
    if raw.Obj? {
      var c := ContentsOf(py, raw);
      ConfirmedFlagExact(py, Get(raw, "confirmed"));
      OrIsFirst(py, Get(raw, "block_account"), Get(raw, "account"), Null, Null);
      OrIsFirst(py, Get(raw, "subtype"), Get(raw, "type"), Get(c, "type"), Null);
      OrIsFirst(py, Get(c, "link_as_account"), Get(c, "destination"), Get(raw, "link_as_account"),
                Get(raw, "destination"));
    }
  }

  /** What one endpoint's answer comes to, exactly: the first of these that applies. */
  lemma ReadingExact(py: Runtime, reply: Reply, hash: string, payTo: Json, expected: nat)
    ensures var r := ReadReply(py, reply, hash, payTo, expected);
      if reply.CallRaised? then r == Failed(CallFailed(reply.message))
      else match NormalizeBlockInfo(py, reply.info)
        case None => r == Failed(Malformed)
        case Some(nb) =>
          && (r == Failed(NotConfirmed) <==> !FlagSaysTrue(py, Get(reply.info, "confirmed")))
          && (r == Failed(NotASend) <==> nb.confirmed && nb.subtype !in {"send", "state", ""})
          && (r == Failed(WrongAmount) <==>
               nb.confirmed && nb.subtype in {"send", "state", ""} && nb.amountRaw != expected)
          && (r == Failed(NoPayee) <==>
               nb.confirmed && nb.subtype in {"send", "state", ""} && nb.amountRaw == expected && nb.destination == "")
          && (r == Failed(WrongPayee) <==>
               && nb.confirmed && nb.subtype in {"send", "state", ""} && nb.amountRaw == expected
               && nb.destination != "" && payTo != Str(nb.destination))
          && (r.Confirmed? <==>
               && nb.confirmed && nb.subtype in {"send", "state", ""} && nb.amountRaw == expected
               && nb.destination != "" && payTo == Str(nb.destination))
          && (r.Confirmed? ==> r.send == ConfirmedSend(hash, nb.account, NatText(expected), nb.destination))
  {
    hide NormalizeBlockInfo, FlagSaysTrue, PyEq;
    if reply.Answered? {
      NormalizeExact(py, reply.info);
      if NormalizeBlockInfo(py, reply.info).Some? {
        EqualToString(payTo, NormalizeBlockInfo(py, reply.info).value.destination);
      }
    }
  }

  /** So a verification that succeeds has, from every endpoint, a flag that says confirmed, a send, the amount and the
      payee. */
  lemma OkMeansConfirmedSends(py: Runtime, replies: seq<Reply>, hash: string, payTo: Json, amount: Json, i: nat)
    requires Verification(py, replies, hash, payTo, amount).ok && i < |replies|
    ensures replies[i].Answered? && replies[i].info.Obj? && FlagSaysTrue(py, Get(replies[i].info, "confirmed"))
    ensures ExpectedRaw(amount).Some? && payTo.Str? && payTo.s != ""
    ensures var nb := NormalizeBlockInfo(py, replies[i].info);
      && nb.Some? && nb.value.subtype in {"send", "state", ""}
      && nb.value.amountRaw == ExpectedRaw(amount).value && nb.value.destination == payTo.s
  {
    hide NormalizeBlockInfo, FlagSaysTrue, ExpectedRaw, ReadReply;
    VerificationExact(py, replies, hash, payTo, amount);
    ReadReplyExact(py, replies[i], hash, payTo, ExpectedRaw(amount).value);
    ReadingExact(py, replies[i], hash, payTo, ExpectedRaw(amount).value);
    NormalizeExact(py, replies[i].info);
  }

  /** What a verification that fails reports. */
  lemma RefusalExact(py: Runtime, replies: seq<Reply>, hash: string, payTo: Json, amount: Json)
    ensures var r := Verification(py, replies, hash, payTo, amount);
      && (|replies| < 2 ==> r == VerificationResult(false, [], |replies|, Some(TooFewEndpoints)))
      && (|replies| >= 2 && ExpectedRaw(amount).None? ==>
           r == VerificationResult(false, [], 0, Some(UnusableAmount)))
      && (|replies| >= 2 && ExpectedRaw(amount).Some? ==>
           && var expected := ExpectedRaw(amount).value;
           && r.consulted == |replies|
           && (r.reason == Some(CountOnly) <==>
                && !r.ok
                && forall i | 0 <= i < |replies| :: !Complains(ReadReply(py, replies[i], hash, payTo, expected)))
           && (r.reason.Some? && r.reason.value.FirstFailure? ==> exists i | 0 <= i < |replies| ::
                && ReadReply(py, replies[i], hash, payTo, expected) == Failed(r.reason.value.cause)
                && r.reason.value.cause != CallFailed("")
                && forall j | 0 <= j < i :: !Complains(ReadReply(py, replies[j], hash, payTo, expected))))
  {
    hide ReadReply, ExpectedRaw, FirstCause;
    VerificationExact(py, replies, hash, payTo, amount);
    if ExpectedRaw(amount).Some? {
      FirstCauseExact(py, replies, hash, payTo, ExpectedRaw(amount).value);
      FoldsMeaning(py, replies, hash, payTo, ExpectedRaw(amount).value);
    }
  }

  // ------------------------------------------------------------------ what verify and settle report

  /** The proof a payload carries: the text of `payload.paymentProof`; it counts if that is 64 hex characters. */
  lemma ProofExact(py: Runtime, payload: Json)
    requires payload.Obj? && Get(payload, "payload").Obj?
    ensures ProofFrom(py, payload).0 == FirstText(py, [Get(Get(payload, "payload"), "paymentProof")])
    ensures ProofFrom(py, payload).1 <==>
      |ProofFrom(py, payload).0| == 64
        && forall i | 0 <= i < 64 :: ProofFrom(py, payload).0[i] in "0123456789abcdefABCDEF"
  {
    var v := Get(Get(payload, "payload"), "paymentProof");
    assert [v][1..] == [];
    var proof := ProofFrom(py, payload).0;
    forall i | 0 <= i < |proof| ensures IsHexChar(proof[i]) <==> proof[i] in "0123456789abcdefABCDEF" {
      ClassesExact(proof[i]);
    }
  }

  lemma NoProof(py: Runtime, payload: Json)
    requires !payload.Obj? || !Get(payload, "payload").Obj?
    ensures ProofFrom(py, payload) == ("", false)
  {
  }

  /** The request id a requirement binds its claim to. */
  lemma RequestIdExact(py: Runtime, requirements: Json)
    requires Readable(requirements)
    ensures RequestIdOf(py, requirements)
         == if Get(requirements, "extra").Obj? then FirstText(py, [Get(Get(requirements, "extra"), "requestId")])
            else ""
  {
    if Get(requirements, "extra").Obj? {
      var v := Get(Get(requirements, "extra"), "requestId");
      assert [v][1..] == [];
    }
  }

  /** Which verdict `verify` gives, exactly, and what it counts. */
  lemma VerdictExact(py: Runtime, requirements: Json, payload: Json, replies: seq<Reply>)
    ensures var v := VerifyRequest(py, requirements, payload, replies);
      && (v.Inconsistent? <==> !Consistent(requirements, payload))
      && (v.Inconsistent? ==> CheckRequirements(requirements, payload) == Some(v.failure))
      && (v.ProofMissing? <==> Consistent(requirements, payload) && !ProofFrom(py, payload).1)
      && (Consistent(requirements, payload) && ProofFrom(py, payload).1 ==>
           && var r := Verification(py, replies, ProofFrom(py, payload).0, Get(requirements, "payTo"),
                                    Get(requirements, "amount"));
           && (v.Valid? <==> r.ok)
           && (v.Unconfirmed? ==> Some(v.reason) == r.reason && v.confirmedOn == |r.confirmedSends|
                                  && v.consulted == r.consulted))
  {
    hide CheckRequirements, ProofFrom, Verification, ExpectedRaw, Consistent;
    CheckExact(requirements, payload);
    if CheckRequirements(requirements, payload).None? {
      VerificationExact(py, replies, ProofFrom(py, payload).0, Item(requirements, "payTo"),
                        Item(requirements, "amount"));
    }
  }

  /** What `settle` reports, exactly: before the claim, and for each outcome of it. The transaction is the proof as
      sent; payer and amount are those of the first endpoint's confirmed send. */
  lemma SettlementExact(py: Runtime, requirements: Json, payload: Json, replies: seq<Reply>)
    ensures var plan := PlanSettle(py, requirements, payload, replies);
      && (plan.Refuse? ==> plan.transaction == ProofFrom(py, payload).0)
      && (plan.Refuse? ==> plan.reason != Duplicate)
      && (plan.Refuse? ==>
           (plan.reason == BadInput <==> !Consistent(requirements, payload) || !ProofFrom(py, payload).1))
      && (plan.ClaimFor? ==>
           && replies != [] && replies[0].Answered? && NormalizeBlockInfo(py, replies[0].info).Some?
           && requirements.Obj? && ExpectedRaw(Get(requirements, "amount")).Some?
           && var payer := NormalizeBlockInfo(py, replies[0].info).value.account;
           && var amount := NatText(ExpectedRaw(Get(requirements, "amount")).value);
           && plan.send.payer == payer && plan.send.amount == amount
           && SettleOutcome(plan, Won) == Success(ProofFrom(py, payload).0, payer, amount)
           && SettleOutcome(plan, Spent) == Failure(Duplicate, ProofFrom(py, payload).0)
           && SettleOutcome(plan, Raised) == DatabaseRaised)
  {
    hide CheckRequirements, ProofFrom, ExpectedRaw, NormalizeBlockInfo, Consistent, RequestIdOf;
    CheckExact(requirements, payload);
    if CheckRequirements(requirements, payload).None? && ProofFrom(py, payload).1 {
      var proof, payTo, amount := ProofFrom(py, payload).0, Item(requirements, "payTo"), Item(requirements, "amount");
      VerificationExact(py, replies, proof, payTo, amount);
      if Verification(py, replies, proof, payTo, amount).ok {
        SendsInOrder(py, replies, proof, payTo, ExpectedRaw(amount).value, 0);
      }
    }
  }
}
