/** Conservation of service: over every run, what a server serves is covered by what its addresses received. */
module Conservation {
  import opened Text
  import opened Json
  import opened ClaimKeys
  import opened ClaimTable
  import opened ClaimStores
  import C = ClaimRuns
  import opened Facilitator
  import opened ResourceServer
  import opened Bytes
  import opened Hkdf

  /** A confirmed send, as the ledger has it. */
  datatype LedgerSend = LedgerSend(payee: string, amount: nat)

  /** One served result: the block that paid (upper case) and the request it paid for. */
  datatype Service = Service(block: string, requestId: string)

  datatype State = State(claims: C.State, ledger: map<string, LedgerSend>, served: seq<Service>)

  datatype Step =
    /** any store of either release does something of its own */
    | ClaimsDo(step: C.Step)
    /** the network confirms a send */
    | Confirm(block: string, send: LedgerSend)
    /** `complete` or `execute`, through store `id` */
    | Serve(id: nat, payload: Json, verifyReplies: seq<Reply>, settleReplies: seq<Reply>, now: real, f: ClaimFaults)

  /** An endpoint tells the truth about a block: a confirmed send it reports is on the ledger, with that payee and
      amount. It may also fail, or not know the block. */
  predicate Truthful(py: Runtime, ledger: map<string, LedgerSend>, hash: string, reply: Reply) {
    reply.Answered? ==>
      match NormalizeBlockInfo(py, reply.info)
      case None => true
      case Some(nb) => nb.confirmed && nb.IsSend() ==>
        && Upper(hash) in ledger && ledger[Upper(hash)].payee == nb.destination
        && ledger[Upper(hash)].amount == nb.amountRaw
  }

  /** The claim a Serve step makes, if it gets that far. */
  function PlanOf(cfg: Config, step: Step): CompletePlan
    requires step.Serve?
  {
    PlanComplete(cfg, step.payload, step.verifyReplies, step.settleReplies)
  }

  function ClaimOf(plan: SettlePlan, step: Step): C.Step
    requires step.Serve? && plan.ClaimFor?
  {
    C.SettleClaim(step.id, plan.proof, plan.requestId, step.now, step.f)
  }

  /** What a run may do: the claim rules hold, the ledger only grows, and of the endpoints asked by each settlement at
      least one tells the truth. */
  ghost predicate Allowed(cfg: Config, s: State, step: Step) {
    match step
    case ClaimsDo(claimsStep) => C.Enabled(s.claims, claimsStep) && C.Allowed(s.claims, claimsStep)
    case Confirm(block, _) => block !in s.ledger
    case Serve(id, _, _, settleReplies, _, _) =>
      && id in s.claims.stores
      && (PlanOf(cfg, step).Claiming? ==>
           exists i | 0 <= i < |settleReplies| ::
             Truthful(cfg.py, s.ledger, PlanOf(cfg, step).plan.proof, settleReplies[i]))
  }

  /** A Serve step from its claim on. */
  ghost function Claimed(s: State, step: Step, plan: SettlePlan): State
    requires step.Serve? && step.id in s.claims.stores && plan.ClaimFor? && IsHex64(plan.proof)
  {
    C.SettleClaimable(plan.proof, plan.requestId);
    var (claims, event) := C.Next(s.claims, ClaimOf(plan, step));
    State(claims, s.ledger,
          if event.Settled? then s.served + [Service(Upper(plan.proof), plan.requestId)] else s.served)
  }

  ghost function Next(cfg: Config, s: State, step: Step): State
    requires Allowed(cfg, s, step)
  {
    match step
    case ClaimsDo(claimsStep) => s.(claims := C.Next(s.claims, claimsStep).0)
    case Confirm(block, send) => s.(ledger := s.ledger[block := send])
    case Serve(id, _, _, _, _, _) =>
      match PlanOf(cfg, step)
      case Answer(_) => s
      case Claiming(plan) =>
        hide PlanComplete;
        ClaimIsPaidFor(cfg, step.payload, step.verifyReplies, step.settleReplies);
        Claimed(s, step, plan)
  }

  /** A Serve step is `complete` with its store's migration settled: the claim transaction on the rows, and a result
      served exactly when `complete` serves one. */
  lemma ServeIsComplete(cfg: Config, s: State, step: Step)
    requires step.Serve? && Allowed(cfg, s, step)
    ensures match PlanOf(cfg, step)
      case Answer(response) => Next(cfg, s, step) == s && !response.Served?
      case Claiming(plan) =>
        plan.ClaimFor? &&
        var key, sent := ConsumptionKey(plan.proof, plan.requestId), KeyAsSent(plan.proof, plan.requestId);
        var (rows, r) := ClaimStep(s.claims.rows, s.claims.stores[step.id], key, Other(key, Some(sent)), step.now,
                                   step.f);
        && Next(cfg, s, step).claims == C.State(rows, s.claims.stores) && Next(cfg, s, step).ledger == s.ledger
        && Next(cfg, s, step).served ==
             if CompleteOutcome(plan, r).Served? then s.served + [Service(Upper(plan.proof), plan.requestId)]
             else s.served
  {
    hide PlanComplete, ClaimStep, ConsumptionKey, KeyAsSent, Other, Claimed, CompleteOutcome;
    if PlanOf(cfg, step).Claiming? {
      ClaimIsPaidFor(cfg, step.payload, step.verifyReplies, step.settleReplies);
      ClaimedIsClaimStep(s, step, PlanOf(cfg, step).plan);
    }
  }

  lemma ClaimedIsClaimStep(s: State, step: Step, plan: SettlePlan)
    requires step.Serve? && step.id in s.claims.stores && plan.ClaimFor? && IsHex64(plan.proof)
    ensures var key, sent := ConsumptionKey(plan.proof, plan.requestId), KeyAsSent(plan.proof, plan.requestId);
      var (rows, r) := ClaimStep(s.claims.rows, s.claims.stores[step.id], key, Other(key, Some(sent)), step.now,
                                 step.f);
      var after := Claimed(s, step, plan);
      && after.claims == C.State(rows, s.claims.stores) && after.ledger == s.ledger
      && after.served ==
           if CompleteOutcome(plan, r).Served? then s.served + [Service(Upper(plan.proof), plan.requestId)]
           else s.served
  {
    hide ClaimStep, Claimable, ConsumptionKey, KeyAsSent, Other;
    C.SettleClaimable(plan.proof, plan.requestId);
  }

  // ------------------------------------------------------------------ the invariant

  ghost predicate Pays(cfg: Config, s: State, service: Service) {
    && ExpectedRaw(Str(cfg.amountRaw)).Some?
    && service.block in s.ledger
    && s.ledger[service.block] == LedgerSend(cfg.address(service.requestId), ExpectedRaw(Str(cfg.amountRaw)).value)
  }

  function ServiceClass(service: Service): string {
    PREFIX + service.block + (" " + service.requestId)
  }

  ghost predicate Inv(cfg: Config, s: State) {
    && C.Inv(s.claims)
    && (forall service | service in s.served ::
         Pays(cfg, s, service) && |service.block| == 64 && ServiceClass(service) in Classes(s.claims.rows))
    && (forall i, j | 0 <= i < j < |s.served| :: s.served[i] != s.served[j])
  }

  lemma ServiceClassExact(a: Service, b: Service)
    requires |a.block| == |b.block| == 64
    ensures ServiceClass(a) == ServiceClass(b) <==> a == b
  {
    SplitCanonical(a.block, " " + a.requestId);
    SplitCanonical(b.block, " " + b.requestId);
    assert (" " + a.requestId)[1..] == a.requestId && (" " + b.requestId)[1..] == b.requestId;
  }

  /** A vouching endpoint that tells the truth puts the payment on the ledger. */
  lemma VouchedIsOnLedger(cfg: Config, s: State, step: Step)
    requires step.Serve? && Allowed(cfg, s, step) && PlanOf(cfg, step).Claiming?
    ensures var plan := PlanOf(cfg, step).plan; Pays(cfg, s, Service(Upper(plan.proof), plan.requestId))
  {
    hide PlanComplete, NormalizeBlockInfo, ExpectedRaw;
    var plan := PlanOf(cfg, step).plan;
    ClaimIsPaidFor(cfg, step.payload, step.verifyReplies, step.settleReplies);
    var i :| 0 <= i < |step.settleReplies| && Truthful(cfg.py, s.ledger, plan.proof, step.settleReplies[i]);
    assert Vouches(cfg.py, step.settleReplies[i], Str(cfg.address(plan.requestId)),
                   ExpectedRaw(Str(cfg.amountRaw)).value);
  }

  lemma StepKeepsInv(cfg: Config, s: State, step: Step)
    requires Inv(cfg, s) && Allowed(cfg, s, step)
    ensures Inv(cfg, Next(cfg, s, step))
  {
    hide PlanComplete, ExpectedRaw, ServiceClass, Classes, C.Next, C.Inv;
    match step
    case ClaimsDo(claimsStep) => C.StepMeaning(s.claims, claimsStep);
    case Confirm(_, _) =>
    case Serve(_, _, _, _, _, _) =>
      if PlanOf(cfg, step).Claiming? {
        ServeKeepsInv(cfg, s, step);
      }
  }

  lemma ServeKeepsInv(cfg: Config, s: State, step: Step)
    requires Inv(cfg, s) && Allowed(cfg, s, step) && step.Serve? && PlanOf(cfg, step).Claiming?
    ensures Inv(cfg, Next(cfg, s, step))
  {
    hide PlanComplete, ExpectedRaw, ServiceClass, Classes, C.Inv, Claimed, PaidFor, Truthful;
    var plan := PlanOf(cfg, step).plan;
    ClaimIsPaidFor(cfg, step.payload, step.verifyReplies, step.settleReplies);
    ClaimedMeaning(s, step, plan);
    var service := Service(Upper(plan.proof), plan.requestId);
    VouchedIsOnLedger(cfg, s, step);
    if Next(cfg, s, step).served != s.served {
      forall i | 0 <= i < |s.served| ensures s.served[i] != service {
        assert s.served[i] in s.served;
        ServiceClassExact(s.served[i], service);
      }
    }
  }

  /** The claim keeps the stores sound and loses no class; a service is of a class not claimed before, and claimed
      after. */
  lemma ClaimedMeaning(s: State, step: Step, plan: SettlePlan)
    requires C.Inv(s.claims) && step.Serve? && step.id in s.claims.stores && plan.ClaimFor? && IsHex64(plan.proof)
    ensures var service, after := Service(Upper(plan.proof), plan.requestId), Claimed(s, step, plan);
      && C.Inv(after.claims) && Classes(s.claims.rows) <= Classes(after.claims.rows) && after.ledger == s.ledger
      && (after.served == s.served
         || (&& after.served == s.served + [service]
             && ServiceClass(service) !in Classes(s.claims.rows)
             && ServiceClass(service) in Classes(after.claims.rows)))
  {
    hide ServiceClass, Classes, C.Inv, Claimable, ClaimStep;
    C.SettleClaimable(plan.proof, plan.requestId);
    C.StepMeaning(s.claims, ClaimOf(plan, step));
    ClassOfService(plan.proof, plan.requestId);
  }

  lemma ClassOfService(proof: string, requestId: string)
    requires IsHex64(proof)
    ensures ConsumptionKey(proof, requestId) == ServiceClass(Service(Upper(proof), requestId))
  {
    AsSentShape(proof, requestId);
  }

  // ------------------------------------------------------------------ runs

  ghost predicate IsRun(cfg: Config, s: State, steps: seq<Step>)
    decreases |steps|
  {
    steps == [] || (Allowed(cfg, s, steps[0]) && IsRun(cfg, Next(cfg, s, steps[0]), steps[1..]))
  }

  ghost function After(cfg: Config, s: State, steps: seq<Step>): State
    requires IsRun(cfg, s, steps)
    decreases |steps|
  {
    if steps == [] then s else After(cfg, Next(cfg, s, steps[0]), steps[1..])
  }

  lemma {:induction false} RunKeepsInv(cfg: Config, s: State, steps: seq<Step>)
    requires Inv(cfg, s) && IsRun(cfg, s, steps)
    ensures Inv(cfg, After(cfg, s, steps))
    decreases |steps|
  {
    if steps == [] {
    } else {
      StepKeepsInv(cfg, s, steps[0]);
      RunKeepsInv(cfg, Next(cfg, s, steps[0]), steps[1..]);
    }
  }

  /** One-time addresses: no two of the served request ids share one. */
  predicate DistinctAddresses(cfg: Config, served: seq<Service>) {
    forall i, j | 0 <= i < |served| && 0 <= j < |served| ::
      cfg.address(served[i].requestId) == cfg.address(served[j].requestId) ==>
      served[i].requestId == served[j].requestId
  }

  /** With addresses derived from a master secret, served request ids have distinct addresses unless UTF-8, HMAC or the
      public-key map collides on two of them. */
  lemma DerivedAddressesDistinct(cfg: Config, k: Keys, master: ByteString, served: seq<Service>)
    requires forall i | 0 <= i < |served| ::
      cfg.address(served[i].requestId) == OneTimeAddress(k, master, served[i].requestId)
    requires forall i, j | 0 <= i < |served| && 0 <= j < |served| ::
      NoCollision(k, master, served[i].requestId, served[j].requestId)
    ensures DistinctAddresses(cfg, served)
  {
    forall i, j | 0 <= i < |served| && 0 <= j < |served|
      && cfg.address(served[i].requestId) == cfg.address(served[j].requestId)
      ensures served[i].requestId == served[j].requestId
    {
      OneTimeAddressesDistinct(k, master, served[i].requestId, served[j].requestId);
    }
  }

  /** No block serves twice: not for the same request, and not for two. */
  lemma BlocksServeOnce(cfg: Config, s: State, i: nat, j: nat)
    requires Inv(cfg, s) && DistinctAddresses(cfg, s.served) && i < j < |s.served|
    ensures s.served[i].block != s.served[j].block
  {
    assert s.served[i] in s.served && s.served[j] in s.served;
  }

  // ------------------------------------------------------------------ sums over the ledger

  /** The confirmed sends to the one-time addresses of the served requests. */
  function Payments(cfg: Config, s: State): set<string> {
    set block | block in s.ledger && exists i | 0 <= i < |s.served| ::
      s.ledger[block].payee == cfg.address(s.served[i].requestId)
  }

  ghost function Total(ledger: map<string, LedgerSend>, blocks: set<string>): nat
    requires blocks <= ledger.Keys
  {
    if blocks == {} then 0 else
      var block :| block in blocks;
      ledger[block].amount + Total(ledger, blocks - {block})
  }

  lemma {:induction false} TotalRemove(ledger: map<string, LedgerSend>, blocks: set<string>, block: string)
    requires blocks <= ledger.Keys && block in blocks
    ensures Total(ledger, blocks) == ledger[block].amount + Total(ledger, blocks - {block})
    ensures Total(ledger, {}) == 0
    decreases |blocks|
  {
    var picked :| picked in blocks && Total(ledger, blocks) == ledger[picked].amount + Total(ledger, blocks - {picked});
    if picked != block {
      TotalRemove(ledger, blocks - {picked}, block);
      TotalRemove(ledger, blocks - {block}, picked);
      assert blocks - {picked} - {block} == blocks - {block} - {picked};
    }
  }

  /** Distinct blocks of one amount inside a set of blocks are worth at most the set. */
  lemma {:induction false} CountTimesPrice(ledger: map<string, LedgerSend>, blocks: set<string>,
                                       hashes: seq<string>, price: nat)
    requires blocks <= ledger.Keys
    requires forall h | h in hashes :: h in blocks && ledger[h].amount == price
    requires forall i, j | 0 <= i < j < |hashes| :: hashes[i] != hashes[j]
    ensures |hashes| <= |blocks|
    ensures |hashes| * price <= Total(ledger, blocks)
    decreases |hashes|
  {
    if hashes == [] {
    } else {
      var last, init := hashes[|hashes| - 1], hashes[..|hashes| - 1];
      TotalRemove(ledger, blocks, last);
      forall h | h in init ensures h in blocks - {last} && ledger[h].amount == price {
        var i :| 0 <= i < |init| && init[i] == h;
        assert hashes[i] in hashes;
      }
      CountTimesPrice(ledger, blocks - {last}, init, price);
      assert |hashes| * price == |init| * price + price;
    }
  }

  function Blocks(served: seq<Service>): (hashes: seq<string>)
    ensures |hashes| == |served|
  {
    seq(|served|, i requires 0 <= i < |served| => served[i].block)
  }

  /** Conservation. From a state that has served nothing, over every run after which the served request ids have
      distinct addresses: each result served is paid for by its own confirmed send to the one-time address of its own
      request, for exactly the price. So at most one result is served per confirmed send to those addresses, and what is
      served, at the price, is at most what they received. */
  lemma ServiceIsPaidFor(cfg: Config, s: State, steps: seq<Step>)
    requires C.Inv(s.claims) && s.served == [] && IsRun(cfg, s, steps)
    requires DistinctAddresses(cfg, After(cfg, s, steps).served)
    ensures var end := After(cfg, s, steps);
      && (forall service | service in end.served ::
            && ExpectedRaw(Str(cfg.amountRaw)).Some? && service.block in end.ledger
            && end.ledger[service.block]
               == LedgerSend(cfg.address(service.requestId), ExpectedRaw(Str(cfg.amountRaw)).value))
      && (forall block | block in Payments(cfg, end) ::
            && block in end.ledger
            && exists service | service in end.served :: end.ledger[block].payee == cfg.address(service.requestId))
      && (forall i, j | 0 <= i < j < |end.served| :: end.served[i].block != end.served[j].block)
      && |end.served| <= |Payments(cfg, end)|
      && (end.served != [] ==> (
           && ExpectedRaw(Str(cfg.amountRaw)).Some?
           && |end.served| * ExpectedRaw(Str(cfg.amountRaw)).value <= Total(end.ledger, Payments(cfg, end))))
  {
    hide ExpectedRaw;
    RunKeepsInv(cfg, s, steps);
    var end := After(cfg, s, steps);
    var hashes := Blocks(end.served);
    forall i, j | 0 <= i < j < |end.served| ensures end.served[i].block != end.served[j].block {
      BlocksServeOnce(cfg, end, i, j);
    }
    if end.served != [] {
      assert end.served[0] in end.served;
      var price := ExpectedRaw(Str(cfg.amountRaw)).value;
      forall h | h in hashes ensures h in Payments(cfg, end) && end.ledger[h].amount == price {
        var i :| 0 <= i < |hashes| && hashes[i] == h;
        assert end.served[i] in end.served;
        assert end.ledger[h].payee == cfg.address(end.served[i].requestId);
      }
      CountTimesPrice(end.ledger, Payments(cfg, end), hashes, price);
    }
  }
}
