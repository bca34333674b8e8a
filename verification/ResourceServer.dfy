/** The resource server (`httpx402.py`) and the paid-tool server (`paidtool.py`): serve only after a settlement. */
module ResourceServer {
  import opened Text
  import opened Decimals
  import opened Json
  import opened ClaimKeys
  import opened ClaimStores
  import opened Facilitator

  /** What a server is configured with. `address` derives the one-time account of a request id from the master secret;
      an id that UTF-8 does not encode makes that derivation raise. */
  datatype Config = Config(py: Runtime, encodes: string -> bool, address: string -> string, amountRaw: string,
                           maxTimeout: int)

  /** `derive_requirements` */
  function DeriveRequirements(cfg: Config, requestId: string): Json {
    Obj(map[
      "scheme" := Str(SCHEME),
      "network" := Str(NETWORK),
      "asset" := Str(ASSET),
      "amount" := Str(cfg.amountRaw),
      "payTo" := Str(cfg.address(requestId)),
      "maxTimeoutSeconds" := Int(cfg.maxTimeout),
      "extra" := Obj(map["requestId" := Str(requestId)])])
  }

  /** `build_payment_payload`, for a well-formed proof */
  function PaymentPayload(requirements: Json, proof: string): Json {
    Obj(map[
      "x402Version" := Int(2),
      "accepted" := requirements,
      "payload" := Obj(map["paymentProof" := Str(proof)])])
  }

  /** `_accepted_matches` finds no difference. */
  predicate AcceptedMatches(server: Json, accepted: Json)
    requires server.Obj? && Get(server, "extra").Obj?
    requires accepted.Obj? && Or(Get(accepted, "extra"), EMPTY).Obj?
  {
    && PyEq(Get(accepted, "scheme"), Get(server, "scheme"))
    && PyEq(Get(accepted, "network"), Get(server, "network"))
    && PyEq(Get(accepted, "asset"), Get(server, "asset"))
    && PyEq(Get(accepted, "amount"), Get(server, "amount"))
    && PyEq(Get(accepted, "payTo"), Get(server, "payTo"))
    && PyEq(Get(Or(Get(accepted, "extra"), EMPTY), "requestId"), Get(Get(server, "extra"), "requestId"))
  }

  datatype CompleteResponse =
    | Served(settlement: SettleResponse)
    | RefusedPayload
    | NotVerified(verdict: VerifyResponse)
    | NotSettled(settlement: SettleResponse)
    | DatabaseError
    | DerivationError

  /** What `complete` decides before it claims. */
  datatype CompletePlan = Answer(response: CompleteResponse) | Claiming(plan: SettlePlan)

  /** The request id a payload names, if `complete` reads it that far. */
  function RequestedId(cfg: Config, payload: Json): Option<string> {
    if !payload.Obj? then None else
      var accepted := Or(Get(payload, "accepted"), EMPTY);
      if !accepted.Obj? then None else
        var extra := Or(Get(accepted, "extra"), EMPTY);
        if !extra.Obj? then None else
          var requestId := TextOr(cfg.py, Get(extra, "requestId"));
          if requestId == "" then None else Some(requestId)
  }

  function PlanComplete(cfg: Config, payload: Json, verifyReplies: seq<Reply>, settleReplies: seq<Reply>)
    : (r: CompletePlan)
    ensures r.Answer? ==> !r.response.Served?
    ensures r.Claiming? ==> r.plan.ClaimFor?
  {
    hide VerifyRequest, PlanSettle, PyEq;
    match RequestedId(cfg, payload)
    case None => Answer(RefusedPayload)
    case Some(requestId) =>
      var server := DeriveRequirements(cfg, requestId);
      if !cfg.encodes(requestId) then Answer(DerivationError)
      else if !AcceptedMatches(server, Or(Get(payload, "accepted"), EMPTY)) then Answer(RefusedPayload)
      else
        var verdict := VerifyRequest(cfg.py, server, payload, verifyReplies);
        if !verdict.Valid? then Answer(NotVerified(verdict)) else
          match PlanSettle(cfg.py, server, payload, settleReplies)
          case Refuse(reason, transaction) => Answer(NotSettled(Failure(reason, transaction)))
          case plan => Claiming(plan)
  }

  function CompleteOutcome(plan: SettlePlan, claim: Outcome): CompleteResponse
    requires plan.ClaimFor?
  {
    match claim
    case Won => Served(SettleOutcome(plan, Won))
    case Spent => NotSettled(SettleOutcome(plan, Spent))
    case Raised => DatabaseError
  }

  class ResourceApp {
    const cfg: Config
    const facilitator: Facilitator

    constructor (cfg: Config, facilitator: Facilitator)
      requires cfg.py == facilitator.py
      ensures this.cfg == cfg && this.facilitator == facilitator
    {
      this.cfg := cfg;
      this.facilitator := facilitator;
    }

    /** `complete`: verify, settle, and only on a settlement authorise serving. */
    method Complete(payload: Json, verifyReplies: seq<Reply>, settleReplies: seq<Reply>, now: real,
                    mf: MigrateFaults, f: ClaimFaults) returns (r: CompleteResponse)
      requires cfg.py == facilitator.py
      modifies facilitator.store`migrationPending, facilitator.store.db`rows
      ensures var store := facilitator.store;
        match PlanComplete(cfg, payload, verifyReplies, settleReplies)
        case Answer(response) =>
          && r == response
          && (store.db.rows, store.migrationPending) == old((store.db.rows, store.migrationPending))
        case Claiming(plan) =>
          var (rows, pending, claim) := ClaimCall(old(store.db.rows), old(store.migrationPending),
            ConsumptionKey(plan.proof, plan.requestId), Some(KeyAsSent(plan.proof, plan.requestId)), now, mf, f);
          && (store.db.rows, store.migrationPending) == (rows, pending)
          && r == CompleteOutcome(plan, claim)
    {
      hide VerifyRequest, PlanSettle, PyEq, ClaimCall, ConsumptionKey, KeyAsSent, DeriveRequirements;
      var requestId := RequestedId(cfg, payload);
      if requestId.None? {
        return RefusedPayload;
      }
      if !cfg.encodes(requestId.value) {
        return DerivationError;
      }
      var server := DeriveRequirements(cfg, requestId.value);
      RequirementsShape(cfg, requestId.value);
      if !AcceptedMatches(server, Or(Get(payload, "accepted"), EMPTY)) {
        return RefusedPayload;
      }
      var verdict := facilitator.Verify(server, payload, verifyReplies);
      if !verdict.Valid? {
        return NotVerified(verdict);
      }
      var settlement := facilitator.Settle(server, payload, settleReplies, now, mf, f);
      match settlement {
        case Success(_, _, _) => return Served(settlement);
        case Failure(_, _) => return NotSettled(settlement);
        case DatabaseRaised => return DatabaseError;
      }
    }
  }

  // ------------------------------------------------------------------ paid tools

  datatype ExecuteResponse =
    | Result(body: Json, settlement: SettleResponse)
    | ToolRaised
    | MalformedProof
    | NotServed(response: CompleteResponse)

  class PaidToolServer {
    const app: ResourceApp
    /** what each registered tool returns; None is one that raises */
    const tools: map<string, Option<Json>>

    constructor (app: ResourceApp, tools: map<string, Option<Json>>)
      ensures this.app == app && this.tools == tools
    {
      this.app := app;
      this.tools := tools;
    }

    /** `execute`: the tool runs exactly when `complete` authorises it on the payload this call builds. */
    method Execute(tool: string, requestId: string, proof: string, verifyReplies: seq<Reply>, settleReplies: seq<Reply>,
                   now: real, mf: MigrateFaults, f: ClaimFaults) returns (r: ExecuteResponse)
      requires app.cfg.py == app.facilitator.py
      modifies app.facilitator.store`migrationPending, app.facilitator.store.db`rows
      ensures var store := app.facilitator.store;
        var payload := PaymentPayload(DeriveRequirements(app.cfg, requestId), proof);
        var decision := PlanComplete(app.cfg, payload, verifyReplies, settleReplies);
        if !app.cfg.encodes(requestId) || !IsHex64(proof) || decision.Answer? then (
          && r == (if !app.cfg.encodes(requestId) then NotServed(DerivationError)
                   else if !IsHex64(proof) then MalformedProof
                   else NotServed(decision.response))
          && (store.db.rows, store.migrationPending) == old((store.db.rows, store.migrationPending))
        ) else (
          var plan := decision.plan;
          var (rows, pending, claim) := ClaimCall(old(store.db.rows), old(store.migrationPending),
            ConsumptionKey(plan.proof, plan.requestId), Some(KeyAsSent(plan.proof, plan.requestId)), now, mf, f);
          && (store.db.rows, store.migrationPending) == (rows, pending)
          && (claim != Won ==> r == NotServed(CompleteOutcome(plan, claim)))
          && (claim == Won && tool in tools && tools[tool].Some? ==>
               r == Result(tools[tool].value, SettleOutcome(plan, Won)))
          && (claim == Won && tool in tools && tools[tool].None? ==> r == ToolRaised)
          && (claim == Won && tool !in tools ==>
               r == Result(Obj(map["result" := Str("ok")]), SettleOutcome(plan, Won)))
        )
      ensures r.Result? ==>
        && settleReplies != [] && settleReplies[0].Answered?
        && var nb, price := NormalizeBlockInfo(app.cfg.py, settleReplies[0].info), ExpectedRaw(Str(app.cfg.amountRaw));
        && nb.Some? && price.Some? && r.settlement == Success(proof, nb.value.account, NatText(price.value))
    {
      hide PlanComplete, ClaimCall, ConsumptionKey, KeyAsSent, DeriveRequirements, PaymentPayload, NormalizeBlockInfo,
           ExpectedRaw, ProofFrom, SettleOutcome;
      if !app.cfg.encodes(requestId) {
        return NotServed(DerivationError);
      }
      if !IsHex64(proof) {
        return MalformedProof;
      }
      var payload := PaymentPayload(DeriveRequirements(app.cfg, requestId), proof);
      var response := app.Complete(payload, verifyReplies, settleReplies, now, mf, f);
      if !response.Served? {
        return NotServed(response);
      }
      ServedReports(app.cfg, payload, verifyReplies, settleReplies);
      ExecuteProof(app.cfg, requestId, proof);
      if tool !in tools {
        return Result(Obj(map["result" := Str("ok")]), response.settlement);
      }
      if tools[tool].None? {
        return ToolRaised;
      }
      return Result(tools[tool].value, response.settlement);
    }
  }

  // ------------------------------------------------------------------ what a plan to serve means

  /** The offer a server makes for a request, key by key. */
  lemma RequirementsShape(cfg: Config, requestId: string)
    ensures var server := DeriveRequirements(cfg, requestId);
      && server.Obj?
      && Get(server, "scheme") == Str("exact") && Get(server, "network") == Str("nano:live")
      && Get(server, "asset") == Str("XNO")
      && Get(server, "amount") == Str(cfg.amountRaw) && Get(server, "payTo") == Str(cfg.address(requestId))
      && Get(server, "extra") == Obj(map["requestId" := Str(requestId)])
      && Get(Get(server, "extra"), "requestId") == Str(requestId)
      && Get(server, "maxTimeoutSeconds") == Int(cfg.maxTimeout)
      && server.fields.Keys == {"scheme", "network", "asset", "amount", "payTo", "maxTimeoutSeconds", "extra"}
      && Readable(server)
  {
  }

  /** Every one of two endpoints or more vouches that the block pays the price to the address of the request. */
  predicate PaidFor(cfg: Config, requestId: string, replies: seq<Reply>) {
    && |replies| >= 2 && ExpectedRaw(Str(cfg.amountRaw)).Some?
    && AllVouch(cfg.py, replies, Str(cfg.address(requestId)), ExpectedRaw(Str(cfg.amountRaw)).value)
  }

  /** The payload accepts what this server would issue for the request, consistently, with a block hash as proof. */
  predicate AcceptsOffer(cfg: Config, requestId: string, payload: Json)
    requires RequestedId(cfg, payload) == Some(requestId)
  {
    var server := DeriveRequirements(cfg, requestId);
    && AcceptedMatches(server, Or(Get(payload, "accepted"), EMPTY))
    && Consistent(server, payload) && ProofFrom(cfg.py, payload).1
  }

  /** When the server gets to its claim, exactly, on every JSON payload: the payload names a request id that encodes, it
      accepts what this server would issue for that id, and the endpoints vouch for the payment, when verifying and
      again when settling. The claim is of that proof for that id. */
  lemma PlanToServe(cfg: Config, payload: Json, verifyReplies: seq<Reply>, settleReplies: seq<Reply>)
    ensures PlanComplete(cfg, payload, verifyReplies, settleReplies).Claiming? <==>
        && RequestedId(cfg, payload).Some?
        && var requestId := RequestedId(cfg, payload).value;
        && cfg.encodes(requestId) && AcceptsOffer(cfg, requestId, payload)
        && PaidFor(cfg, requestId, verifyReplies) && PaidFor(cfg, requestId, settleReplies)
    ensures var decision := PlanComplete(cfg, payload, verifyReplies, settleReplies);
      decision.Claiming? ==>
        && Some(decision.plan.requestId) == RequestedId(cfg, payload) && decision.plan.requestId != ""
        && decision.plan.proof == ProofFrom(cfg.py, payload).0 && IsHex64(decision.plan.proof)
  {
    hide VerifyRequest, PlanSettle, PyEq, DeriveRequirements, ExpectedRaw, AllVouch, ProofFrom, NonBlank,
         AcceptedMatches;
    if RequestedId(cfg, payload).Some? {
      var server := DeriveRequirements(cfg, RequestedId(cfg, payload).value);
      RequirementsShape(cfg, RequestedId(cfg, payload).value);
      ClaimMeansVouched(cfg.py, server, payload, verifyReplies);
      ClaimMeansVouched(cfg.py, server, payload, settleReplies);
      SettleClaimsIffVerifyAccepts(cfg.py, server, payload, verifyReplies);
      ProofIsHash(cfg.py, payload);
    }
  }

  lemma ClaimIsPaidFor(cfg: Config, payload: Json, verifyReplies: seq<Reply>, settleReplies: seq<Reply>)
    requires PlanComplete(cfg, payload, verifyReplies, settleReplies).Claiming?
    ensures var plan := PlanComplete(cfg, payload, verifyReplies, settleReplies).plan;
      plan.ClaimFor? && IsHex64(plan.proof) && PaidFor(cfg, plan.requestId, settleReplies)
  {
    hide PlanComplete, RequestedId, PaidFor;
    PlanToServe(cfg, payload, verifyReplies, settleReplies);
  }

  /** Execute serves every honest payment: for a 64-hex proof, a request id and a usable price and address, the only
      conditions left before the claim are that the endpoints vouch, when verifying and again when settling. */
  lemma ExecutePlanExact(cfg: Config, requestId: string, proof: string, verifyReplies: seq<Reply>,
                         settleReplies: seq<Reply>)
    requires IsHex64(proof) && requestId != "" && ExpectedRaw(Str(cfg.amountRaw)).Some?
    requires NonBlank(Str(cfg.address(requestId))) && cfg.encodes(requestId)
    ensures var payload := PaymentPayload(DeriveRequirements(cfg, requestId), proof);
      var payTo, expected := Str(cfg.address(requestId)), ExpectedRaw(Str(cfg.amountRaw)).value;
      var decision := PlanComplete(cfg, payload, verifyReplies, settleReplies);
      && (decision.Claiming? <==>
           && |verifyReplies| >= 2 && AllVouch(cfg.py, verifyReplies, payTo, expected)
           && |settleReplies| >= 2 && AllVouch(cfg.py, settleReplies, payTo, expected))
      && (decision.Claiming? ==>
            decision.plan.ClaimFor? && decision.plan.proof == proof && decision.plan.requestId == requestId)
  {
    hide VerifyRequest, PlanSettle, DeriveRequirements, ExpectedRaw, AllVouch, NonBlank, PyEq, Strip;
    var server := DeriveRequirements(cfg, requestId);
    var payload := PaymentPayload(server, proof);
    RequirementsShape(cfg, requestId);
    PayloadShape(server, proof);
    assert RequestedId(cfg, payload) == Some(requestId);
    EqualToString(Str(cfg.amountRaw), cfg.amountRaw);
    EqualToString(Str(cfg.address(requestId)), cfg.address(requestId));
    EqualToString(Str(SCHEME), SCHEME);
    EqualToString(Str(NETWORK), NETWORK);
    EqualToString(Str(ASSET), ASSET);
    EqualToString(Str(requestId), requestId);
    assert Truthy(server);
    assert Consistent(server, payload);
    assert ProofFrom(cfg.py, payload) == (proof, true);
    ClaimMeansVouched(cfg.py, server, payload, settleReplies);
    ClaimMeansVouched(cfg.py, server, payload, verifyReplies);
    SettleClaimsIffVerifyAccepts(cfg.py, server, payload, verifyReplies);
  }

  /** The payload a client builds, key by key. */
  lemma PayloadShape(requirements: Json, proof: string)
    ensures var payload := PaymentPayload(requirements, proof);
      && payload.Obj? && Get(payload, "accepted") == requirements
      && Get(payload, "payload") == Obj(map["paymentProof" := Str(proof)])
      && Get(Get(payload, "payload"), "paymentProof") == Str(proof)
      && Get(payload, "x402Version") == Int(2)
      && payload.fields.Keys == {"x402Version", "accepted", "payload"}
  {
  }

  // ------------------------------------------------------------------ from the fields of a payload

  lemma ExecuteProof(cfg: Config, requestId: string, proof: string)
    requires IsHex64(proof)
    ensures ProofFrom(cfg.py, PaymentPayload(DeriveRequirements(cfg, requestId), proof)) == (proof, true)
  {
    PayloadShape(DeriveRequirements(cfg, requestId), proof);
  }

  /** What is served reports the proof, and payer and amount as the first endpoint asked by `settle` confirmed them. */
  lemma ServedReports(cfg: Config, payload: Json, verifyReplies: seq<Reply>, settleReplies: seq<Reply>)
    requires PlanComplete(cfg, payload, verifyReplies, settleReplies).Claiming?
    ensures var plan := PlanComplete(cfg, payload, verifyReplies, settleReplies).plan;
      && plan.ClaimFor? && settleReplies != [] && settleReplies[0].Answered?
      && var nb, price := NormalizeBlockInfo(cfg.py, settleReplies[0].info), ExpectedRaw(Str(cfg.amountRaw));
      && nb.Some? && price.Some?
      && var paid := Success(ProofFrom(cfg.py, payload).0, nb.value.account, NatText(price.value));
      && SettleOutcome(plan, Won) == paid && CompleteOutcome(plan, Won) == Served(paid)
      && CompleteOutcome(plan, Spent) == NotSettled(Failure(Duplicate, ProofFrom(cfg.py, payload).0))
      && CompleteOutcome(plan, Raised) == DatabaseError
  {
    hide VerifyRequest, PlanSettle, PyEq, DeriveRequirements, ExpectedRaw, ProofFrom, AcceptedMatches,
         NormalizeBlockInfo, SettleOutcome;
    var requestId := RequestedId(cfg, payload).value;
    RequirementsShape(cfg, requestId);
    SettlementExact(cfg.py, DeriveRequirements(cfg, requestId), payload, settleReplies);
  }

  /** The request id a payload names: the text of `accepted.extra.requestId`, if that is a true value. */
  lemma RequestedIdExact(cfg: Config, payload: Json)
    ensures RequestedId(cfg, payload) ==
      if payload.Obj? && Get(payload, "accepted").Obj? && Get(Get(payload, "accepted"), "extra").Obj?
         && FirstText(cfg.py, [Get(Get(Get(payload, "accepted"), "extra"), "requestId")]) != ""
      then Some(FirstText(cfg.py, [Get(Get(Get(payload, "accepted"), "extra"), "requestId")]))
      else None
  {
    hide PyStr;
    EmptyIsFalse();
    if payload.Obj? && Get(payload, "accepted").Obj? && Get(Get(payload, "accepted"), "extra").Obj? {
      var v := Get(Get(Get(payload, "accepted"), "extra"), "requestId");
      FirstOf(cfg.py, v, []);
      assert [v] + [] == [v];
    }
  }

  /** What has to be accepted, spelt out: this scheme, network and asset, the price, the address of the request, and the
      request itself. */
  lemma AcceptedMatchesExact(cfg: Config, requestId: string, accepted: Json)
    requires accepted.Obj? && Or(Get(accepted, "extra"), EMPTY).Obj? && requestId != ""
    ensures AcceptedMatches(DeriveRequirements(cfg, requestId), accepted) <==>
      && Get(accepted, "scheme") == Str("exact") && Get(accepted, "network") == Str("nano:live")
      && Get(accepted, "asset") == Str("XNO") && Get(accepted, "amount") == Str(cfg.amountRaw)
      && Get(accepted, "payTo") == Str(cfg.address(requestId))
      && Get(accepted, "extra").Obj? && Get(Get(accepted, "extra"), "requestId") == Str(requestId)
  {
    hide PyEq, DeriveRequirements;
    RequirementsShape(cfg, requestId);
    EqualToString(Get(accepted, "scheme"), "exact");
    EqualToString(Get(accepted, "network"), "nano:live");
    EqualToString(Get(accepted, "asset"), "XNO");
    EqualToString(Get(accepted, "amount"), cfg.amountRaw);
    EqualToString(Get(accepted, "payTo"), cfg.address(requestId));
    EqualToString(Get(Or(Get(accepted, "extra"), EMPTY), "requestId"), requestId);
  }

  /** What `complete` answers before it claims, exactly, on every JSON payload. */
  lemma AnswerExact(cfg: Config, payload: Json, verifyReplies: seq<Reply>, settleReplies: seq<Reply>)
    ensures var decision := PlanComplete(cfg, payload, verifyReplies, settleReplies);
      match RequestedId(cfg, payload)
      case None => decision == Answer(RefusedPayload)
      case Some(requestId) =>
        var server := DeriveRequirements(cfg, requestId);
        var matches := AcceptedMatches(server, Or(Get(payload, "accepted"), EMPTY));
        var verdict := VerifyRequest(cfg.py, server, payload, verifyReplies);
        && (decision == Answer(DerivationError) <==> !cfg.encodes(requestId))
        && (decision == Answer(RefusedPayload) <==> cfg.encodes(requestId) && !matches)
        && (cfg.encodes(requestId) && matches && !verdict.Valid? ==> decision == Answer(NotVerified(verdict)))
        && (decision.Answer? && decision.response.NotVerified? ==> !verdict.Valid?)
        && (decision.Answer? && decision.response.NotSettled? ==>
             decision.response.settlement == Failure(NotConfirmedByAll, ProofFrom(cfg.py, payload).0))
  {
    hide PyEq, DeriveRequirements, VerifyRequest, PlanSettle, ProofFrom, Consistent, AcceptedMatches, RequestedId;
    if RequestedId(cfg, payload).Some? {
      var server := DeriveRequirements(cfg, RequestedId(cfg, payload).value);
      VerdictExact(cfg.py, server, payload, verifyReplies);
      SettlementExact(cfg.py, server, payload, settleReplies);
    }
  }
}
