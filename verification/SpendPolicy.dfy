/** The operator's spend gate (`examples/spend_policy.py`): decisions only, kept in a ledger. */
module SpendPolicy {
  import opened Text
  import opened Bytes
  import opened Decimals
  import opened Json
  import opened Addresses

  datatype Policy = Policy(perCallMaxRaw: nat, dailyMaxRaw: nat, allow: seq<Bytes32>)

  /** One ledger line: a record, JSON that is not an object, or text that is not JSON. `at` is absent when it is not a
      number. */
  datatype Line = Record(allow: bool, id: Json, to: Json, amountRaw: Json, at: Option<real>) | NotObject | Unreadable

  /** Why a verdict is what it is. `Raises` is no verdict: it stands for the AttributeError or ValueError that a foreign
      ledger line makes escape. */
  datatype Reason =
    | MalformedRequest | DuplicateRequestId | ReceiverNotAllowed | OverPerCallCap
    | OverDailyCap(spentToday: int) | WithinPolicy | LedgerUnreadable | Raises

  datatype Verdict = Verdict(allow: bool, reason: Reason, remainingToday: Option<int>)

  /** The exact parameters the operator's signer may sign. */
  datatype Instruction = Instruction(to: Json, amountRaw: Json, id: Json)

  /** The environment: the address checksum's digest, and the UTC day of a clock reading. */
  datatype World = World(blake: Blake40, dayOf: real -> int)

  function Deny(reason: Reason): Verdict {
    Verdict(false, reason, None)
  }

  /** An earlier approval, as `Gate.handle` reads it back. */
  predicate IsApproval(line: Line) {
    line.Record? && line.allow && line.amountRaw.Str? && line.at.Some?
  }

  /** `int(r["amount_raw"])` of an approval; None is ValueError. */
  function AmountOf(line: Line): Option<int> {
    if IsApproval(line) then ParseInt(line.amountRaw.s) else None
  }

  predicate IsOf(w: World, line: Line, day: int) {
    IsApproval(line) && w.dayOf(line.at.value) == day
  }

  /** The sum of the approvals of one day. */
  function SpentOn(w: World, approved: seq<Line>, day: int): int {
    if approved == [] then 0 else
      var last := approved[|approved| - 1];
      SpentOn(w, approved[..|approved| - 1], day) + if IsOf(w, last, day) then AmountOf(last).GetOr(0) else 0
  }

  /** That sum does not raise. */
  predicate Summable(w: World, approved: seq<Line>, day: int) {
    forall i | 0 <= i < |approved| :: IsOf(w, approved[i], day) ==> AmountOf(approved[i]).Some?
  }

  /** `amount.isdigit() and int(amount) > 0 and len(amount) <= 39` */
  predicate IsAmount(amount: Json) {
    amount.Str? && amount.s != "" && AllDigits(amount.s) && NatValue(amount.s) > 0 && |amount.s| <= 39
  }

  /** `public_key_from_address(to)`; anything but a string is refused like a malformed address. */
  function KeyOf(w: World, to: Json): Option<Bytes32> {
    if to.Str? then PublicKeyFromAddress(w.blake, to.s) else None
  }

  predicate HasId(approved: seq<Line>, id: Json) {
    exists i | 0 <= i < |approved| :: approved[i].Record? && approved[i].id == id
  }

  /** `decide` */
  function Decide(w: World, policy: Policy, request: Json, approved: seq<Line>, now: real): Verdict {
    if !request.Obj? then Deny(MalformedRequest) else
      var id, to, amount := Get(request, "id"), Get(request, "to"), Get(request, "amount_raw");
      if !id.Str? || id.s == "" || |id.s| > 128 then Deny(MalformedRequest)
      else if !IsAmount(amount) then Deny(MalformedRequest)
      else if HasId(approved, id) then Deny(DuplicateRequestId)
      else match KeyOf(w, to)
        case None => Deny(MalformedRequest)
        case Some(key) =>
          if key !in policy.allow then Deny(ReceiverNotAllowed) else
            var raw := NatValue(amount.s);
            if raw > policy.perCallMaxRaw then Deny(OverPerCallCap) else
              var spent := SpentOn(w, approved, w.dayOf(now));
              if !Summable(w, approved, w.dayOf(now)) then Deny(Raises)
              else if spent + raw > policy.dailyMaxRaw then
                Verdict(false, OverDailyCap(spent), Some(policy.dailyMaxRaw - spent))
              else Verdict(true, WithinPolicy, Some(policy.dailyMaxRaw - spent - raw))
  }

  /** What a line does to a call that reads it. */
  function Fault(line: Line): Option<Reason> {
    match line
    case Unreadable => Some(LedgerUnreadable)
    case NotObject => Some(Raises)
    case _ => if line.allow && !IsApproval(line) then Some(LedgerUnreadable) else None
  }

  /** What the first line with a fault does. */
  function Scan(ledger: seq<Line>): Option<Reason> {
    if ledger == [] then None else
      match Scan(ledger[..|ledger| - 1])
      case Some(reason) => Some(reason)
      case None => Fault(ledger[|ledger| - 1])
  }

  predicate IsReadable(ledger: seq<Line>) {
    forall i | 0 <= i < |ledger| :: ledger[i].Record? && (ledger[i].allow ==> IsApproval(ledger[i]))
  }

  function Approvals(ledger: seq<Line>): seq<Line> {
    if ledger == [] then [] else
      Approvals(ledger[..|ledger| - 1]) + if IsApproval(ledger[|ledger| - 1]) then [ledger[|ledger| - 1]] else []
  }

  function RecordOf(request: Json, verdict: Verdict, now: real): Line {
    if request.Obj? then
      Record(verdict.allow, Get(request, "id"), Get(request, "to"), Get(request, "amount_raw"), Some(now))
    else Record(verdict.allow, Null, Null, Null, Some(now))
  }

  /** One locked call of the gate: the ledger after it, and the verdict. */
  function HandleStep(w: World, policy: Policy, ledger: seq<Line>, request: Json, now: real): (seq<Line>, Verdict) {
    match Scan(ledger)
    case Some(reason) => (ledger, Deny(reason))
    case None =>
      var verdict := Decide(w, policy, request, Approvals(ledger), now);
      if verdict.reason == Raises then (ledger, verdict) else (ledger + [RecordOf(request, verdict, now)], verdict)
  }

  class Gate {
    const w: World
    const policy: Policy
    /** the ledger file */
    var ledger: seq<Line>

    constructor (w: World, policy: Policy)
      ensures this.w == w && this.policy == policy && ledger == []
    {
      this.w := w;
      this.policy := policy;
      ledger := [];
    }

    /** `handle`: read the ledger, decide, and append the decision before returning it. */
    method Handle(request: Json, now: real) returns (verdict: Verdict, signThis: Option<Instruction>)
      modifies this`ledger
      ensures (ledger, verdict) == HandleStep(w, policy, old(ledger), request, now)
      ensures signThis.Some? <==> verdict.allow
      ensures signThis.Some? ==> request.Obj?
      ensures signThis.Some? ==>
        signThis.value == Instruction(Get(request, "to"), Get(request, "amount_raw"), Get(request, "id"))
    {
      hide IsAmount, KeyOf, SpentOn, Summable;
      var approved: seq<Line> := [];
      for i := 0 to |ledger|
        invariant ledger == old(ledger)
        invariant approved == Approvals(ledger[..i])
        invariant Scan(ledger[..i]).None?
      {
        var line := ledger[i];
        assert ledger[..i + 1][..i] == ledger[..i];
        assert ledger[..i + 1][i] == line;
        if Fault(line).Some? {
          ScanStops(ledger, i + 1);
        }
        if line.Unreadable? {
          return Deny(LedgerUnreadable), None;
        }
        if line.NotObject? {
          return Deny(Raises), None;
        }
        if IsApproval(line) {
          approved := approved + [line];
        } else if line.allow {
          return Deny(LedgerUnreadable), None;
        }
      }
      assert ledger[..|ledger|] == ledger;
      verdict := Decide(w, policy, request, approved, now);
      if verdict.reason == Raises {
        return verdict, None;
      }
      ledger := ledger + [RecordOf(request, verdict, now)];
      signThis := if verdict.allow then
        Some(Instruction(Get(request, "to"), Get(request, "amount_raw"), Get(request, "id")))
      else None;
    }
  }

  lemma {:induction false} ScanStops(ledger: seq<Line>, n: nat)
    requires n <= |ledger| && Scan(ledger[..n]).Some?
    ensures Scan(ledger) == Scan(ledger[..n])
    decreases |ledger|
  {
    if n == |ledger| {
      assert ledger[..n] == ledger;
    } else {
      assert ledger[..|ledger| - 1][..n] == ledger[..n];
      ScanStops(ledger[..|ledger| - 1], n);
    }
  }

  /** Reading gets past a ledger exactly when every line is a record and every approval on it is whole; on any other
      ledger, however it came about, nothing is allowed and nothing is written. */
  lemma {:induction false} UnreadableLedgerDenies(w: World, policy: Policy, ledger: seq<Line>, request: Json, now: real)
    ensures Scan(ledger).None? <==> IsReadable(ledger)
    ensures var (after, verdict) := HandleStep(w, policy, ledger, request, now);
      !IsReadable(ledger) ==> !verdict.allow && verdict.reason in {LedgerUnreadable, Raises} && after == ledger
  {
    if ledger != [] {
      UnreadableLedgerDenies(w, policy, ledger[..|ledger| - 1], request, now);
    }
  }

  // ------------------------------------------------------------------ what the gate keeps

  /** What an approval on the ledger guarantees. */
  predicate GoodApproval(w: World, policy: Policy, line: Line) {
    && IsApproval(line) && line.id.Str? && line.id.s != ""
    && IsAmount(line.amountRaw) && AmountOf(line).Some? && 0 < AmountOf(line).value <= policy.perCallMaxRaw
    && KeyOf(w, line.to).Some? && KeyOf(w, line.to).value in policy.allow
  }

  ghost predicate Inv(w: World, policy: Policy, ledger: seq<Line>) {
    && IsReadable(ledger)
    && (forall i | 0 <= i < |ledger| && ledger[i].allow :: GoodApproval(w, policy, ledger[i]))
    && (forall i, j | 0 <= i < j < |ledger| && ledger[i].allow && ledger[j].allow :: ledger[i].id != ledger[j].id)
    && (forall day :: SpentOn(w, ledger, day) <= policy.dailyMaxRaw)
  }

  /** Only approvals count, so the ledger and its approvals have the same sums. */
  lemma {:induction false} ApprovalsKeepSums(w: World, ledger: seq<Line>, day: int)
    ensures SpentOn(w, Approvals(ledger), day) == SpentOn(w, ledger, day)
  {
    if ledger == [] {
    } else {
      var init, last := ledger[..|ledger| - 1], ledger[|ledger| - 1];
      ApprovalsKeepSums(w, init, day);
      if IsApproval(last) {
        assert Approvals(ledger)[..|Approvals(ledger)| - 1] == Approvals(init);
      } else {
        assert Approvals(ledger) == Approvals(init);
      }
    }
  }

  lemma {:induction false} ApprovalsAreLines(ledger: seq<Line>, line: Line)
    ensures line in Approvals(ledger) <==> line in ledger && IsApproval(line)
  {
    if ledger == [] {
    } else {
      ApprovalsAreLines(ledger[..|ledger| - 1], line);
      assert ledger == ledger[..|ledger| - 1] + [ledger[|ledger| - 1]];
    }
  }

  /** Every approval has an amount that can be added up. */
  predicate Countable(ledger: seq<Line>) {
    forall i | 0 <= i < |ledger| && ledger[i].Record? && ledger[i].allow :: AmountOf(ledger[i]).Some?
  }

  lemma SummableExact(w: World, ledger: seq<Line>, day: int)
    ensures Summable(w, Approvals(ledger), day) <==> Summable(w, ledger, day)
  {
    hide AmountOf, Approvals;
    var approved := Approvals(ledger);
    forall i | 0 <= i < |approved| && IsOf(w, approved[i], day)
      ensures exists j | 0 <= j < |ledger| :: ledger[j] == approved[i]
    {
      ApprovalsAreLines(ledger, approved[i]);
      assert approved[i] in approved;
    }
    forall j | 0 <= j < |ledger| && IsOf(w, ledger[j], day)
      ensures exists i | 0 <= i < |approved| :: approved[i] == ledger[j]
    {
      ApprovalsAreLines(ledger, ledger[j]);
      assert ledger[j] in ledger;
    }
  }

  /** A ledger this gate wrote reads and adds up. */
  lemma CountableReads(w: World, policy: Policy, ledger: seq<Line>, request: Json, now: real)
    requires IsReadable(ledger) && Countable(ledger)
    ensures HandleStep(w, policy, ledger, request, now).1.reason != Raises
    ensures HandleStep(w, policy, ledger, request, now).0
         == ledger + [RecordOf(request, HandleStep(w, policy, ledger, request, now).1, now)]
  {
    hide IsAmount, KeyOf, SpentOn, NatValue, HasId, Approvals, Scan, AmountOf;
    UnreadableLedgerDenies(w, policy, ledger, request, now);
    SummableExact(w, ledger, w.dayOf(now));
    assert Summable(w, ledger, w.dayOf(now));
  }

  /** An allowed request, exactly, on every ledger: what the code promises about it, in terms of the whole ledger. */
  lemma AllowExact(w: World, policy: Policy, ledger: seq<Line>, request: Json, now: real)
    ensures var verdict := HandleStep(w, policy, ledger, request, now).1;
      var spent := SpentOn(w, ledger, w.dayOf(now));
      && (verdict.allow <==>
        && IsReadable(ledger) && Summable(w, ledger, w.dayOf(now))
        && request.Obj?
        && Get(request, "id").Str? && 0 < |Get(request, "id").s| <= 128
        && (forall i | 0 <= i < |ledger| && ledger[i].allow :: ledger[i].id != Get(request, "id"))
        && IsAmount(Get(request, "amount_raw"))
        && KeyOf(w, Get(request, "to")).Some? && KeyOf(w, Get(request, "to")).value in policy.allow
        && NatValue(Get(request, "amount_raw").s) <= policy.perCallMaxRaw
        && spent + NatValue(Get(request, "amount_raw").s) <= policy.dailyMaxRaw)
      && (verdict.allow ==>
           verdict.remainingToday == Some(policy.dailyMaxRaw - spent - NatValue(Get(request, "amount_raw").s)))
      && (verdict.reason.OverDailyCap? ==> verdict.remainingToday == Some(policy.dailyMaxRaw - spent))
  {
    hide IsAmount, KeyOf, SpentOn, NatValue, HasId, Approvals, Scan, Summable;
    ApprovalsKeepSums(w, ledger, w.dayOf(now));
    UnreadableLedgerDenies(w, policy, ledger, request, now);
    SummableExact(w, ledger, w.dayOf(now));
    if request.Obj? && IsReadable(ledger) {
      DuplicateExact(ledger, Get(request, "id"));
    }
  }

  /** Every denial of a request object says what is true of it, on every ledger. */
  lemma DenialIsTrue(w: World, policy: Policy, ledger: seq<Line>, request: Json, now: real)
    requires request.Obj?
    ensures var reason := HandleStep(w, policy, ledger, request, now).1.reason;
      var id, to, amount := Get(request, "id"), Get(request, "to"), Get(request, "amount_raw");
      && (reason == LedgerUnreadable ==> !IsReadable(ledger))
      && (reason == Raises ==> !IsReadable(ledger) || !Summable(w, ledger, w.dayOf(now)))
      && (reason == MalformedRequest ==>
           !id.Str? || id.s == "" || |id.s| > 128 || !IsAmount(amount) || KeyOf(w, to).None?)
      && (reason == DuplicateRequestId ==>
           exists i | 0 <= i < |ledger| :: ledger[i].Record? && ledger[i].allow && ledger[i].id == id)
      && (reason == ReceiverNotAllowed ==> KeyOf(w, to).Some? && KeyOf(w, to).value !in policy.allow)
      && (reason == OverPerCallCap ==> IsAmount(amount) && NatValue(amount.s) > policy.perCallMaxRaw)
      && (reason.OverDailyCap? ==> reason.spentToday == SpentOn(w, ledger, w.dayOf(now)))
      && (reason.OverDailyCap? ==> IsAmount(amount) && reason.spentToday + NatValue(amount.s) > policy.dailyMaxRaw)
  {
    hide KeyOf, SpentOn, NatValue, HasId, Approvals, Scan, Summable;
    ApprovalsKeepSums(w, ledger, w.dayOf(now));
    UnreadableLedgerDenies(w, policy, ledger, request, now);
    SummableExact(w, ledger, w.dayOf(now));
    if IsReadable(ledger) {
      DuplicateExact(ledger, Get(request, "id"));
    }
  }

  lemma DuplicateExact(ledger: seq<Line>, id: Json)
    requires IsReadable(ledger)
    ensures HasId(Approvals(ledger), id) <==> exists i | 0 <= i < |ledger| :: ledger[i].allow && ledger[i].id == id
  {
    var approved := Approvals(ledger);
    if i :| 0 <= i < |approved| && approved[i].Record? && approved[i].id == id {
      ApprovalsAreLines(ledger, approved[i]);
      assert approved[i] in approved;
      var j :| 0 <= j < |ledger| && ledger[j] == approved[i];
    }
    if i :| 0 <= i < |ledger| && ledger[i].allow && ledger[i].id == id {
      ApprovalsAreLines(ledger, ledger[i]);
      var j :| 0 <= j < |approved| && approved[j] == ledger[i];
    }
  }

  lemma SpentOnSnoc(w: World, ledger: seq<Line>, line: Line, day: int)
    ensures SpentOn(w, ledger + [line], day) ==
      SpentOn(w, ledger, day) + if IsOf(w, line, day) then AmountOf(line).GetOr(0) else 0
  {
    assert (ledger + [line])[..|ledger|] == ledger;
  }

  /** One call keeps the invariant; a denial changes no day's total; an allowed amount leaves exactly the remainder the
      verdict reports. */
  lemma HandleKeepsInv(w: World, policy: Policy, ledger: seq<Line>, request: Json, now: real)
    requires Inv(w, policy, ledger)
    ensures var (after, verdict) := HandleStep(w, policy, ledger, request, now);
      && Inv(w, policy, after)
      && (!verdict.allow ==> forall day :: SpentOn(w, after, day) == SpentOn(w, ledger, day))
      && (verdict.allow ==> verdict.remainingToday == Some(policy.dailyMaxRaw - SpentOn(w, after, w.dayOf(now))))
  {
    hide IsAmount, KeyOf, Decide, NatValue, SpentOn, Scan, ParseInt;
    AllowExact(w, policy, ledger, request, now);
    CountableReads(w, policy, ledger, request, now);
    var (after, verdict) := HandleStep(w, policy, ledger, request, now);
    var line := RecordOf(request, verdict, now);
    forall day ensures SpentOn(w, after, day) == SpentOn(w, ledger, day)
      + if IsOf(w, line, day) then AmountOf(line).GetOr(0) else 0
    {
      SpentOnSnoc(w, ledger, line, day);
    }
    AmountIsPositive(Get(if request.Obj? then request else EMPTY, "amount_raw"));
  }

  lemma AmountIsPositive(amount: Json)
    ensures IsAmount(amount) ==>
      amount.Str? && AllDigits(amount.s) && NatValue(amount.s) > 0 && ParseInt(amount.s) == Some(NatValue(amount.s))
  {
    if IsAmount(amount) {
      ParseDigits(amount.s);
    }
  }

  // ------------------------------------------------------------------ runs

  datatype Call = Call(request: Json, now: real)

  function RunGate(w: World, policy: Policy, ledger: seq<Line>, calls: seq<Call>): seq<Line>
    decreases |calls|
  {
    if calls == [] then ledger else
      RunGate(w, policy, HandleStep(w, policy, ledger, calls[0].request, calls[0].now).0, calls[1..])
  }

  lemma {:induction false} RunKeepsInv(w: World, policy: Policy, ledger: seq<Line>, calls: seq<Call>)
    requires Inv(w, policy, ledger)
    ensures Inv(w, policy, RunGate(w, policy, ledger, calls))
    decreases |calls|
  {
    if calls == [] {
    } else {
      HandleKeepsInv(w, policy, ledger, calls[0].request, calls[0].now);
      RunKeepsInv(w, policy, HandleStep(w, policy, ledger, calls[0].request, calls[0].now).0, calls[1..]);
    }
  }

  /** From an empty ledger, whatever is asked and whatever the clock reads, in order or not: no day's approvals exceed
      the daily cap, approved ids are pairwise distinct, and every approval is a positive amount within the per-call cap
      to a listed key. */
  lemma GateHolds(w: World, policy: Policy, calls: seq<Call>)
    ensures var ledger := RunGate(w, policy, [], calls);
      && (forall day :: SpentOn(w, ledger, day) <= policy.dailyMaxRaw)
      && (forall i, j | 0 <= i < j < |ledger| && IsApproval(ledger[i]) && IsApproval(ledger[j]) ::
            ledger[i].id != ledger[j].id)
      && (forall i | 0 <= i < |ledger| && IsApproval(ledger[i]) ::
            && ledger[i].id.Str? && ledger[i].id.s != "" && ledger[i].to.Str?
            && var key, raw := PublicKeyFromAddress(w.blake, ledger[i].to.s), ParseInt(ledger[i].amountRaw.s);
            && key.Some? && key.value in policy.allow && raw.Some? && 0 < raw.value <= policy.perCallMaxRaw)
  {
    RunKeepsInv(w, policy, [], calls);
  }

  // ------------------------------------------------------------------ runs under changing policies

  datatype PolicyCall = PolicyCall(policy: Policy, request: Json, now: real)

  function RunPolicies(w: World, ledger: seq<Line>, calls: seq<PolicyCall>): seq<Line>
    decreases |calls|
  {
    if calls == [] then ledger else
      RunPolicies(w, HandleStep(w, calls[0].policy, ledger, calls[0].request, calls[0].now).0, calls[1..])
  }

  /** The daily cap in force at the last call allowed on a day. */
  function LastCap(w: World, ledger: seq<Line>, calls: seq<PolicyCall>, day: int): Option<nat>
    decreases |calls|
  {
    if calls == [] then None else
      var call := calls[0];
      var (after, verdict) := HandleStep(w, call.policy, ledger, call.request, call.now);
      match LastCap(w, after, calls[1..], day)
      case Some(cap) => Some(cap)
      case None => if verdict.allow && w.dayOf(call.now) == day then Some(call.policy.dailyMaxRaw) else None
  }

  lemma StepSums(w: World, policy: Policy, ledger: seq<Line>, request: Json, now: real, day: int)
    ensures var (after, verdict) := HandleStep(w, policy, ledger, request, now);
      if verdict.allow && w.dayOf(now) == day then SpentOn(w, after, day) <= policy.dailyMaxRaw
      else SpentOn(w, after, day) == SpentOn(w, ledger, day)
  {
    hide KeyOf, Decide, NatValue, SpentOn, Scan, ParseInt, IsAmount;
    AllowExact(w, policy, ledger, request, now);
    var verdict := HandleStep(w, policy, ledger, request, now).1;
    SpentOnSnoc(w, ledger, RecordOf(request, verdict, now), day);
    if verdict.allow {
      AmountIsPositive(Get(request, "amount_raw"));
    }
  }

  /** On any ledger, however it came about, and for any sequence of policies, requests and clock readings: a day's total
      is within the daily cap in force when its last approval was given, and a day without a new approval keeps its
      total. */
  lemma {:induction false} CapsFollowPolicies(w: World, ledger: seq<Line>, calls: seq<PolicyCall>, day: int)
    ensures match LastCap(w, ledger, calls, day)
      case Some(cap) => SpentOn(w, RunPolicies(w, ledger, calls), day) <= cap
      case None => SpentOn(w, RunPolicies(w, ledger, calls), day) == SpentOn(w, ledger, day)
    decreases |calls|
  {
    hide HandleStep, SpentOn;
    if calls != [] {
      StepSums(w, calls[0].policy, ledger, calls[0].request, calls[0].now, day);
      CapsFollowPolicies(w, HandleStep(w, calls[0].policy, ledger, calls[0].request, calls[0].now).0, calls[1..], day);
    }
  }

  /** What a ledger written line by line under these policies keeps. */
  ghost predicate PoliciesInv(w: World, policies: seq<Policy>, ledger: seq<Line>) {
    && |policies| == |ledger| && IsReadable(ledger)
    && (forall i | 0 <= i < |ledger| && ledger[i].allow :: GoodApproval(w, policies[i], ledger[i]))
    && (forall i, j | 0 <= i < j < |ledger| && ledger[i].allow && ledger[j].allow :: ledger[i].id != ledger[j].id)
  }

  lemma StepKeepsPolicies(w: World, policies: seq<Policy>, ledger: seq<Line>, call: PolicyCall)
    requires PoliciesInv(w, policies, ledger)
    ensures PoliciesInv(w, policies + [call.policy], HandleStep(w, call.policy, ledger, call.request, call.now).0)
  {
    hide KeyOf, Decide, NatValue, SpentOn, Scan, ParseInt, IsAmount, Summable;
    AllowExact(w, call.policy, ledger, call.request, call.now);
    CountableReads(w, call.policy, ledger, call.request, call.now);
    AmountIsPositive(Get(if call.request.Obj? then call.request else EMPTY, "amount_raw"));
  }

  function Policies(calls: seq<PolicyCall>): (ps: seq<Policy>)
    ensures |ps| == |calls|
    ensures forall i | 0 <= i < |calls| :: ps[i] == calls[i].policy
  {
    seq(|calls|, i requires 0 <= i < |calls| => calls[i].policy)
  }

  lemma {:induction false} RunKeepsPolicies(w: World, policies: seq<Policy>, ledger: seq<Line>, calls: seq<PolicyCall>)
    requires PoliciesInv(w, policies, ledger)
    ensures PoliciesInv(w, policies + Policies(calls), RunPolicies(w, ledger, calls))
    decreases |calls|
  {
    hide HandleStep, PoliciesInv;
    if calls == [] {
      assert policies + Policies(calls) == policies;
    } else {
      StepKeepsPolicies(w, policies, ledger, calls[0]);
      RunKeepsPolicies(w, policies + [calls[0].policy],
                       HandleStep(w, calls[0].policy, ledger, calls[0].request, calls[0].now).0, calls[1..]);
      assert policies + [calls[0].policy] + Policies(calls[1..]) == policies + Policies(calls);
    }
  }

  /** From an empty ledger, over policies that change from call to call: one line a call, approved ids pairwise
      distinct, every approval within the per-call cap and the list of the policy it was given under, and every day's
      total within the daily cap in force when its last approval was given. */
  lemma ChangingPoliciesHold(w: World, calls: seq<PolicyCall>)
    ensures var ledger := RunPolicies(w, [], calls);
      && |ledger| == |calls|
      && (forall i | 0 <= i < |ledger| && IsApproval(ledger[i]) ::
            && ledger[i].id.Str? && ledger[i].id.s != "" && ledger[i].to.Str?
            && var key, raw := PublicKeyFromAddress(w.blake, ledger[i].to.s), ParseInt(ledger[i].amountRaw.s);
            && key.Some? && key.value in calls[i].policy.allow
            && raw.Some? && 0 < raw.value <= calls[i].policy.perCallMaxRaw)
      && (forall i, j | 0 <= i < j < |ledger| && IsApproval(ledger[i]) && IsApproval(ledger[j]) ::
            ledger[i].id != ledger[j].id)
      && (forall day :: match LastCap(w, [], calls, day)
            case Some(cap) => SpentOn(w, ledger, day) <= cap
            case None => SpentOn(w, ledger, day) == 0)
  {
    hide HandleStep, LastCap, ParseInt, PublicKeyFromAddress, IsAmount;
    RunKeepsPolicies(w, [], [], calls);
    assert [] + Policies(calls) == Policies(calls);
    forall day ensures match LastCap(w, [], calls, day)
      case Some(cap) => SpentOn(w, RunPolicies(w, [], calls), day) <= cap
      case None => SpentOn(w, RunPolicies(w, [], calls), day) == 0
    {
      CapsFollowPolicies(w, [], calls, day);
    }
  }

  // ------------------------------------------------------------------ field by field

  /** An amount is exactly a text of 1 to 39 digits that spells a positive number. */
  lemma AmountExact(amount: Json)
    ensures IsAmount(amount) <==>
      && amount.Str? && 1 <= |amount.s| <= 39
      && (forall i | 0 <= i < |amount.s| :: amount.s[i] in "0123456789")
      && exists i | 0 <= i < |amount.s| :: amount.s[i] != '0'
  {
    if amount.Str? {
      forall i | 0 <= i < |amount.s| ensures IsDigit(amount.s[i]) <==> amount.s[i] in "0123456789" {
        ClassesExact(amount.s[i]);
      }
      if AllDigits(amount.s) {
        PositiveExact(amount.s);
      }
    }
  }

  lemma {:induction false} PositiveExact(s: string)
    requires AllDigits(s)
    ensures NatValue(s) > 0 <==> exists i | 0 <= i < |s| :: s[i] != '0'
  {
    if s != "" {
      var init, last := s[..|s| - 1], s[|s| - 1];
      PositiveExact(init);
      assert s == init + [last];
      NatValueSnoc(init, last);
      assert forall i | 0 <= i < |init| :: init[i] == s[i];
    }
  }

  /** What a call appends, field by field, and what that adds to the day's total. */
  lemma AppendExact(w: World, policy: Policy, ledger: seq<Line>, request: Json, now: real, day: int)
    requires HandleStep(w, policy, ledger, request, now).0 != ledger
    ensures var (after, verdict) := HandleStep(w, policy, ledger, request, now);
      && |after| == |ledger| + 1 && after[..|ledger|] == ledger
      && var line := after[|ledger|];
      && line.Record? && line.allow == verdict.allow && line.at == Some(now)
      && line.id == (if request.Obj? then Get(request, "id") else Null)
      && line.to == (if request.Obj? then Get(request, "to") else Null)
      && line.amountRaw == (if request.Obj? then Get(request, "amount_raw") else Null)
      && (!verdict.allow ==> SpentOn(w, after, day) == SpentOn(w, ledger, day))
      && (verdict.allow ==>
           && line.amountRaw.Str? && AllDigits(line.amountRaw.s)
           && SpentOn(w, after, day)
              == SpentOn(w, ledger, day) + if w.dayOf(now) == day then NatValue(line.amountRaw.s) else 0)
  {
    hide KeyOf, Decide, NatValue, SpentOn, Scan, ParseInt, IsAmount;
    AllowExact(w, policy, ledger, request, now);
    var verdict := HandleStep(w, policy, ledger, request, now).1;
    SpentOnSnoc(w, ledger, RecordOf(request, verdict, now), day);
    AmountIsPositive(Get(if request.Obj? then request else EMPTY, "amount_raw"));
  }

  /** The total of one day is what its approvals add up to: nothing on an empty ledger, and each line adds its amount if
      it is an approval of that day, and nothing otherwise. */
  lemma TotalExact(w: World, ledger: seq<Line>, line: Line, day: int)
    ensures SpentOn(w, [], day) == 0
    ensures SpentOn(w, ledger + [line], day) - SpentOn(w, ledger, day)
         == if line.Record? && line.allow && line.amountRaw.Str? && line.at.Some? && w.dayOf(line.at.value) == day
               && ParseInt(line.amountRaw.s).Some? then ParseInt(line.amountRaw.s).value
            else 0
  {
    hide ParseInt;
    SpentOnSnoc(w, ledger, line, day);
  }

  /** Which ledgers are read to their end, by their lines, and what a bad one does: the first bad line decides. */
  lemma FaultExact(ledger: seq<Line>, i: nat)
    requires i < |ledger| && IsReadable(ledger[..i])
    ensures ledger[i].Unreadable? ==> Scan(ledger) == Some(LedgerUnreadable)
    ensures ledger[i].NotObject? ==> Scan(ledger) == Some(Raises)
    ensures ledger[i].Record? && ledger[i].allow && (!ledger[i].amountRaw.Str? || ledger[i].at.None?) ==>
      Scan(ledger) == Some(LedgerUnreadable)
    ensures IsReadable(ledger) ==> ledger[i].Record?
    ensures IsReadable(ledger) && ledger[i].allow ==> ledger[i].amountRaw.Str? && ledger[i].at.Some?
  {
    hide Scan;
    ScanOfReadable(ledger, i);
    if Fault(ledger[i]).Some? {
      ScanStops(ledger, i + 1);
    }
  }

  lemma ScanOfReadable(ledger: seq<Line>, i: nat)
    requires i < |ledger| && IsReadable(ledger[..i])
    ensures Scan(ledger[..i + 1]) == Fault(ledger[i])
  {
    UnreadableLedgerDenies(World(_ => seq(5, _ => 0), _ => 0), Policy(0, 0, []), ledger[..i], Null, 0.0);
    assert ledger[..i + 1][..i] == ledger[..i];
  }

  /** Which reason a verdict gives, exactly: the first of these that applies. */
  lemma ReasonExact(w: World, policy: Policy, ledger: seq<Line>, request: Json, now: real)
    requires IsReadable(ledger)
    ensures var reason := HandleStep(w, policy, ledger, request, now).1.reason;
      if !request.Obj? then reason == MalformedRequest
      else
        var id, to, amount := Get(request, "id"), Get(request, "to"), Get(request, "amount_raw");
        var spent := SpentOn(w, ledger, w.dayOf(now));
        if !(id.Str? && 1 <= |id.s| <= 128) || !IsAmount(amount) then reason == MalformedRequest
        else if exists i | 0 <= i < |ledger| :: ledger[i].allow && ledger[i].id == id then reason == DuplicateRequestId
        else if !to.Str? || PublicKeyFromAddress(w.blake, to.s).None? then reason == MalformedRequest
        else if PublicKeyFromAddress(w.blake, to.s).value !in policy.allow then reason == ReceiverNotAllowed
        else if NatValue(amount.s) > policy.perCallMaxRaw then reason == OverPerCallCap
        else if !Summable(w, ledger, w.dayOf(now)) then reason == Raises
        else if spent + NatValue(amount.s) > policy.dailyMaxRaw then reason == OverDailyCap(spent)
        else reason == WithinPolicy
  {
    hide SpentOn, NatValue, HasId, Approvals, Scan, Summable, PublicKeyFromAddress;
    ApprovalsKeepSums(w, ledger, w.dayOf(now));
    UnreadableLedgerDenies(w, policy, ledger, request, now);
    SummableExact(w, ledger, w.dayOf(now));
    if request.Obj? {
      DuplicateExact(ledger, Get(request, "id"));
    }
  }
}
