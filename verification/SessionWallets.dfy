/** The buyer's session wallet (`nano_sdk/buyer.py`): a spend path under one owner mandate. */
module SessionWallets {
  import opened Text
  import opened Numerals
  import opened Bytes
  import opened Hex
  import opened Addresses
  import opened Decimals
  import opened Json
  import opened Blocks
  import opened Mandates

  /** What a wallet is built with. */
  datatype Setup = Setup(cd: Codec, cr: Crypto, privateKey: Bytes32, accountKey: Bytes32, address: string,
                         ownerKey: ByteString, mandate: Mandate, dailyCap: int)

  /** `_day`, `_daily_spend` and `_session_spent` */
  datatype Counters = Counters(day: int, daily: int, session: int)

  datatype AccountInfo = AccountInfo(balance: int, frontier: string, representative: Option<string>)

  datatype ProcessReply = ProcessRaised | NoHash | Accepted(hash: string)

  /** The world as one send meets it: the account's info (None: the call raised), the work (None: none came), the node's
      reply, and the clock at each of its three readings. */
  datatype World = World(info: Option<AccountInfo>, work: Option<string>, reply: ProcessReply,
                         verifyClock: real, checkClock: real, recordClock: real)

  datatype SpendError = NotBound | BadMandate(error: MandateError) | NotPositive | OverSessionCap | OverDailyCap
                      | OverBalance | BadDestination | InfoRaised | NoWork | BadBlock

  datatype SendResult =
    | Refused(error: SpendError)
    | NotAccepted(block: BlockDict)
    | Sent(hash: string, block: BlockDict)

  /** `int(clock) // 86400` */
  function DayOf(clock: real): int {
    Truncate(clock) / 86400
  }

  /** `_roll_day` */
  function Roll(c: Counters, clock: real): Counters {
    if DayOf(clock) != c.day then Counters(DayOf(clock), 0, c.session) else c
  }

  /** What building a wallet raises. */
  function OpenError(w: Setup, verifyClock: real): Option<SpendError> {
    if w.mandate.address != w.address then Some(NotBound)
    else match VerifyMandate(w.cd, w.mandate, w.ownerKey, verifyClock)
      case Some(error) => Some(BadMandate(error))
      case None => None
  }

  /** `check_spend`: the counters after it, and what it raised. */
  function CheckStep(w: Setup, c: Counters, amount: int, balance: Option<int>, verifyClock: real, checkClock: real)
    : (Counters, Option<SpendError>)
  {
    if !ValidateAddress(w.cd.blake40, w.mandate.address) || w.mandate.address != w.address then (c, Some(NotBound))
    else match VerifyMandate(w.cd, w.mandate, w.ownerKey, verifyClock)
      case Some(error) => (c, Some(BadMandate(error)))
      case None =>
        if amount <= 0 then (c, Some(NotPositive))
        else if c.session + amount > w.mandate.capRaw then (c, Some(OverSessionCap))
        else
          var rolled := Roll(c, checkClock);
          if rolled.daily + amount > w.dailyCap then (rolled, Some(OverDailyCap))
          else if balance.Some? && amount > balance.value then (rolled, Some(OverBalance))
          else (rolled, None)
  }

  function Frontier(info: AccountInfo): string {
    if info.frontier == "" then Zeros(64) else info.frontier
  }

  /** The block a send builds; None is ValueError. */
  function BuildBlock(w: Setup, info: AccountInfo, destination: string, amount: int, work: string): Option<BlockDict> {
    match FromHex(Frontier(info))
    case None => None
    case Some(frontier) =>
      BuildSendBlock(w.cr, w.privateKey, w.accountKey, w.address, frontier, info.representative.GetOr(w.address),
                     info.balance - amount, destination, work)
  }

  function RecordSpend(c: Counters, amount: int, clock: real): Counters {
    var rolled := Roll(c, clock);
    Counters(rolled.day, rolled.daily + amount, rolled.session + amount)
  }

  /** `send`: the counters after it, and its result. */
  function SendStep(w: Setup, c: Counters, destination: string, amount: int, world: World): (Counters, SendResult) {
    if !ValidateAddress(w.cr.blake40, destination) then (c, Refused(BadDestination))
    else if world.info.None? then (c, Refused(InfoRaised))
    else
      var info := world.info.value;
      match CheckStep(w, c, amount, Some(info.balance), world.verifyClock, world.checkClock)
      case (checked, Some(error)) => (checked, Refused(error))
      case (checked, None) =>
        if FromHex(Frontier(info)).None? then (checked, Refused(BadBlock))
        else if world.work.None? then (checked, Refused(NoWork))
        else match BuildBlock(w, info, destination, amount, world.work.value)
          case None => (checked, Refused(BadBlock))
          case Some(block) =>
            match world.reply
            case Accepted(hash) => (RecordSpend(checked, amount, world.recordClock), Sent(hash, block))
            case _ => (checked, NotAccepted(block))
  }

  class SessionWallet {
    const w: Setup
    var day: int
    var dailySpend: int
    var sessionSpent: int

    constructor (w: Setup, dayClock: real)
      ensures this.w == w && State() == Counters(DayOf(dayClock), 0, 0)
    {
      this.w := w;
      day, dailySpend, sessionSpent := DayOf(dayClock), 0, 0;
    }

    /** `__init__`, which refuses a mandate that is bound elsewhere or does not verify, and reads the clock once for
        that and once for the day. */
    static method Open(w: Setup, verifyClock: real, dayClock: real)
      returns (wallet: SessionWallet?, error: Option<SpendError>)
      ensures error == OpenError(w, verifyClock)
      ensures wallet == null <==> error.Some?
      ensures wallet != null ==> fresh(wallet) && wallet.w == w && wallet.State() == Counters(DayOf(dayClock), 0, 0)
    {
      error := OpenError(w, verifyClock);
      if error.Some? {
        return null, error;
      }
      wallet := new SessionWallet(w, dayClock);
    }

    function State(): Counters
      reads this
    {
      Counters(day, dailySpend, sessionSpent)
    }

    method RollDay(clock: real)
      modifies this`day, this`dailySpend
      ensures State() == Roll(old(State()), clock)
    {
      var today := DayOf(clock);
      if today != day {
        day := today;
        dailySpend := 0;
      }
    }

    method CheckSpend(amount: int, balance: Option<int>, verifyClock: real, checkClock: real)
      returns (error: Option<SpendError>)
      modifies this`day, this`dailySpend
      ensures (State(), error) == CheckStep(w, old(State()), amount, balance, verifyClock, checkClock)
    {
      if !ValidateAddress(w.cd.blake40, w.mandate.address) || w.mandate.address != w.address {
        return Some(NotBound);
      }
      var bad := VerifyMandate(w.cd, w.mandate, w.ownerKey, verifyClock);
      if bad.Some? {
        return Some(BadMandate(bad.value));
      }
      if amount <= 0 {
        return Some(NotPositive);
      }
      if sessionSpent + amount > w.mandate.capRaw {
        return Some(OverSessionCap);
      }
      RollDay(checkClock);
      if dailySpend + amount > w.dailyCap {
        return Some(OverDailyCap);
      }
      if balance.Some? && amount > balance.value {
        return Some(OverBalance);
      }
      return None;
    }

    method Send(destination: string, amount: int, world: World) returns (r: SendResult)
      modifies this`day, this`dailySpend, this`sessionSpent
      ensures (State(), r) == SendStep(w, old(State()), destination, amount, world)
    {
      hide ValidateAddress, CheckStep, BuildBlock, FromHex;
      if !ValidateAddress(w.cr.blake40, destination) {
        return Refused(BadDestination);
      }
      if world.info.None? {
        return Refused(InfoRaised);
      }
      var info := world.info.value;
      var error := CheckSpend(amount, Some(info.balance), world.verifyClock, world.checkClock);
      if error.Some? {
        return Refused(error.value);
      }
      if FromHex(Frontier(info)).None? {
        return Refused(BadBlock);
      }
      if world.work.None? {
        return Refused(NoWork);
      }
      var block := BuildBlock(w, info, destination, amount, world.work.value);
      if block.None? {
        return Refused(BadBlock);
      }
      if !world.reply.Accepted? {
        return NotAccepted(block.value);
      }
      RollDay(world.recordClock);
      sessionSpent := sessionSpent + amount;
      dailySpend := dailySpend + amount;
      return Sent(world.reply.hash, block.value);
    }
  }

  // ------------------------------------------------------------------ what is published

  /** The block a result put before the node. */
  function PublishedBlock(r: SendResult): Option<BlockDict> {
    match r
    case Refused(_) => None
    case NotAccepted(block) => Some(block)
    case Sent(_, block) => Some(block)
  }

  /** The check passes exactly when all six guards do: a mandate bound to this account, authentic and not expired, a
      positive amount, the session cap, today's cap and the balance. */
  lemma CheckExact(w: Setup, c: Counters, amount: int, balance: Option<int>, verifyClock: real, checkClock: real)
    ensures CheckStep(w, c, amount, balance, verifyClock, checkClock).1.None? <==>
      && w.mandate.address == w.address
      && VerifyMandate(w.cd, w.mandate, w.ownerKey, verifyClock).None?
      && amount > 0
      && c.session + amount <= w.mandate.capRaw
      && (if DayOf(checkClock) == c.day then c.daily else 0) + amount <= w.dailyCap
      && (balance.Some? ==> amount <= balance.value)
  {
    hide ValidateAddress, Canonical, DayOf;
  }

  /** Whatever is published, accepted or not, was checked: it leaves a balance of at least 0 and below 2^128, and spends
      a positive amount that the mandate, the session cap and the daily cap allow. */
  lemma PublishedIsChecked(w: Setup, c: Counters, destination: string, amount: int, world: World)
    requires PublishedBlock(SendStep(w, c, destination, amount, world).1).Some?
    ensures world.info.Some? && amount > 0
    ensures 0 <= world.info.value.balance - amount < Pow(2, 128)
    ensures PublishedBlock(SendStep(w, c, destination, amount, world).1).value.balance
         == IntText(world.info.value.balance - amount)
    ensures c.session + amount <= w.mandate.capRaw
    ensures Roll(c, world.checkClock).daily + amount <= w.dailyCap
    ensures VerifyMandate(w.cd, w.mandate, w.ownerKey, world.verifyClock).None? && w.mandate.address == w.address
    ensures ValidateAddress(w.cr.blake40, destination)
    ensures PublishedBlock(SendStep(w, c, destination, amount, world).1).value.linkAsAccount == destination
  {
    hide ValidateAddress, VerifyMandate, PublicKeyFromAddress, FromHex, HexText, Preimage, Pow;
  }

  // ------------------------------------------------------------------ runs

  /** An accepted send: the day it was recorded on, and its amount. */
  datatype Spend = Spend(day: int, amount: int)

  datatype Run = Run(counters: Counters, spends: seq<Spend>)

  datatype Step =
    | DoSend(destination: string, amount: int, world: World)
    | DoCheck(amount: int, balance: Option<int>, verifyClock: real, checkClock: real)

  function Next(w: Setup, r: Run, step: Step): Run {
    match step
    case DoCheck(amount, balance, verifyClock, checkClock) =>
      r.(counters := CheckStep(w, r.counters, amount, balance, verifyClock, checkClock).0)
    case DoSend(destination, amount, world) =>
      var (counters, result) := SendStep(w, r.counters, destination, amount, world);
      Run(counters, if result.Sent? then r.spends + [Spend(DayOf(world.recordClock), amount)] else r.spends)
  }

  function Spent(spends: seq<Spend>): int {
    if spends == [] then 0 else Spent(spends[..|spends| - 1]) + spends[|spends| - 1].amount
  }

  function SpentOn(spends: seq<Spend>, day: int): int {
    if spends == [] then 0 else
      SpentOn(spends[..|spends| - 1], day) +
      if spends[|spends| - 1].day == day then spends[|spends| - 1].amount else 0
  }

  /** The days a step reads, in order. */
  function Days(step: Step): seq<int> {
    match step
    case DoCheck(_, _, _, checkClock) => [DayOf(checkClock)]
    case DoSend(_, _, world) => [DayOf(world.checkClock), DayOf(world.recordClock)]
  }

  /** The clock does not go back a day: within the step, or behind a day the wallet has seen. */
  predicate Forward(r: Run, step: Step) {
    var days := Days(step);
    r.counters.day <= days[0] && days[0] <= days[|days| - 1]
  }

  lemma ForwardExact(r: Run, step: Step)
    ensures Forward(r, step) <==>
      match step
      case DoCheck(_, _, _, checkClock) => r.counters.day <= DayOf(checkClock)
      case DoSend(_, _, world) => r.counters.day <= DayOf(world.checkClock) <= DayOf(world.recordClock)
  {
  }

  ghost predicate Inv(w: Setup, r: Run) {
    && r.counters.session == Spent(r.spends) <= w.mandate.capRaw
    && 0 <= r.counters.daily == SpentOn(r.spends, r.counters.day)
    && (forall i | 0 <= i < |r.spends| :: r.spends[i].day <= r.counters.day && r.spends[i].amount > 0)
    && (forall day :: SpentOn(r.spends, day) == 0 || SpentOn(r.spends, day) <= w.dailyCap)
  }

  lemma {:induction false} NothingLater(spends: seq<Spend>, day: int)
    requires forall i | 0 <= i < |spends| :: spends[i].day < day
    ensures SpentOn(spends, day) == 0
  {
    if spends == [] {
    } else {
      NothingLater(spends[..|spends| - 1], day);
    }
  }

  lemma RollKeepsInv(w: Setup, r: Run, clock: real)
    requires Inv(w, r) && r.counters.day <= DayOf(clock)
    ensures Inv(w, r.(counters := Roll(r.counters, clock)))
  {
    if r.counters.day < DayOf(clock) {
      NothingLater(r.spends, DayOf(clock));
    }
  }

  lemma SpendSnoc(spends: seq<Spend>, s: Spend, day: int)
    ensures Spent(spends + [s]) == Spent(spends) + s.amount
    ensures SpentOn(spends + [s], day) == SpentOn(spends, day) + if s.day == day then s.amount else 0
  {
    assert (spends + [s])[..|spends|] == spends;
  }

  lemma RecordKeepsInv(w: Setup, r: Run, amount: int, clock: real)
    requires Inv(w, r) && r.counters.day <= DayOf(clock)
    requires 0 < amount && r.counters.session + amount <= w.mandate.capRaw && r.counters.daily + amount <= w.dailyCap
    ensures Inv(w, Run(RecordSpend(r.counters, amount, clock), r.spends + [Spend(DayOf(clock), amount)]))
  {
    hide DayOf;
    RollKeepsInv(w, r, clock);
    var spend := Spend(DayOf(clock), amount);
    forall day ensures Spent(r.spends + [spend]) == Spent(r.spends) + amount
      && SpentOn(r.spends + [spend], day) == SpentOn(r.spends, day) + if spend.day == day then amount else 0
    {
      SpendSnoc(r.spends, spend, day);
    }
  }

  /** The check leaves the counters alone or rolls them to the day it read. */
  lemma CheckRolls(w: Setup, c: Counters, amount: int, balance: Option<int>, verifyClock: real, checkClock: real)
    ensures var (after, error) := CheckStep(w, c, amount, balance, verifyClock, checkClock);
      && (after == c || after == Roll(c, checkClock))
      && (error.None? ==> (
           && after == Roll(c, checkClock) && amount > 0
           && c.session + amount <= w.mandate.capRaw && after.daily + amount <= w.dailyCap))
  {
    hide ValidateAddress, VerifyMandate, DayOf;
  }

  lemma StepKeepsInv(w: Setup, r: Run, step: Step)
    requires Inv(w, r) && Forward(r, step)
    ensures Inv(w, Next(w, r, step))
  {
    hide ValidateAddress, CheckStep, BuildBlock, FromHex, Inv, DayOf;
    match step
    case DoCheck(amount, balance, verifyClock, checkClock) =>
      CheckRolls(w, r.counters, amount, balance, verifyClock, checkClock);
      RollKeepsInv(w, r, checkClock);
    case DoSend(_, amount, world) =>
      if world.info.Some? {
        CheckRolls(w, r.counters, amount, Some(world.info.value.balance), world.verifyClock, world.checkClock);
        RollKeepsInv(w, r, world.checkClock);
        var checked := r.(counters := Roll(r.counters, world.checkClock));
        if Next(w, r, step).spends != r.spends {
          RecordKeepsInv(w, checked, amount, world.recordClock);
        }
      }
  }

  ghost predicate IsForward(w: Setup, r: Run, steps: seq<Step>)
    decreases |steps|
  {
    steps == [] || (Forward(r, steps[0]) && IsForward(w, Next(w, r, steps[0]), steps[1..]))
  }

  function After(w: Setup, r: Run, steps: seq<Step>): Run
    decreases |steps|
  {
    if steps == [] then r else After(w, Next(w, r, steps[0]), steps[1..])
  }

  lemma {:induction false} RunKeepsInv(w: Setup, r: Run, steps: seq<Step>)
    requires Inv(w, r) && IsForward(w, r, steps)
    ensures Inv(w, After(w, r, steps))
    decreases |steps|
  {
    if steps == [] {
    } else {
      StepKeepsInv(w, r, steps[0]);
      RunKeepsInv(w, Next(w, r, steps[0]), steps[1..]);
    }
  }

  /** With a clock that never goes back a day, over every run of checks and sends: the session counter is the sum of the
      accepted sends and stays within the mandate's cap, and no day's accepted sends exceed the daily cap, even when the
      day changes between the check and the record. Failed sends count nothing. */
  lemma CapsHold(w: Setup, verifyClock: real, dayClock: real, steps: seq<Step>)
    requires OpenError(w, verifyClock).None?
    requires IsForward(w, Run(Counters(DayOf(dayClock), 0, 0), []), steps)
    ensures var end := After(w, Run(Counters(DayOf(dayClock), 0, 0), []), steps);
      && end.counters.session == Spent(end.spends) <= w.mandate.capRaw
      && (forall day :: SpentOn(end.spends, day) == 0 || SpentOn(end.spends, day) <= w.dailyCap)
  {
    RunKeepsInv(w, Run(Counters(DayOf(dayClock), 0, 0), []), steps);
  }

  /** Rolling to another day keeps the daily counter true exactly when nothing was spent on that day yet. */
  lemma RollExact(w: Setup, r: Run, clock: real)
    requires Inv(w, r)
    ensures Roll(r.counters, clock).daily == SpentOn(r.spends, Roll(r.counters, clock).day)
       <==> DayOf(clock) == r.counters.day || SpentOn(r.spends, DayOf(clock)) == 0
  {
    hide DayOf;
  }

  /** In terms of what the wallet can see, its clock and its counters: rolling is right, whatever was spent when, if and
      only if the clock is not behind the day the wallet has seen, or nothing was spent before that day. */
  lemma RollSafeExact(w: Setup, c: Counters, clock: real)
    requires exists r :: Inv(w, r) && r.counters == c
    ensures (forall r | Inv(w, r) && r.counters == c ::
              Roll(c, clock).daily == SpentOn(r.spends, Roll(c, clock).day))
       <==> DayOf(clock) >= c.day || c.session == c.daily
  {
    hide DayOf;
    forall r | Inv(w, r) && r.counters == c
      ensures c.session >= c.daily
      ensures DayOf(clock) > c.day || c.session == c.daily ==>
        Roll(c, clock).daily == SpentOn(r.spends, Roll(c, clock).day)
      ensures c.session > c.daily ==> w.dailyCap >= 1
    {
      if DayOf(clock) > c.day {
        NothingLater(r.spends, DayOf(clock));
      }
      OtherDays(r.spends, c.day, DayOf(clock));
      if c.session > c.daily {
        SomethingElsewhere(w, r);
      }
    }
    if DayOf(clock) < c.day && c.session > c.daily {
      var r := Witness(w, c, DayOf(clock));
      assert Roll(c, clock).daily != SpentOn(r.spends, DayOf(clock));
    }
  }

  lemma {:induction false} OtherDays(spends: seq<Spend>, day: int, other: int)
    requires forall i | 0 <= i < |spends| :: spends[i].amount > 0
    ensures Spent(spends) >= SpentOn(spends, day) >= 0
    ensures day != other ==> 0 <= SpentOn(spends, other) <= Spent(spends) - SpentOn(spends, day)
  {
    if spends == [] {
    } else {
      OtherDays(spends[..|spends| - 1], day, other);
    }
  }

  lemma SomethingElsewhere(w: Setup, r: Run)
    requires Inv(w, r) && r.counters.session > r.counters.daily
    ensures w.dailyCap >= 1
  {
    var spend := r.spends[0];
    FirstCounts(r.spends);
    assert SpentOn(r.spends, spend.day) <= w.dailyCap;
  }

  lemma {:induction false} FirstCounts(spends: seq<Spend>)
    requires spends != [] && forall i | 0 <= i < |spends| :: spends[i].amount > 0
    ensures SpentOn(spends, spends[0].day) >= 1
  {
    if |spends| > 1 {
      FirstCounts(spends[..|spends| - 1]);
    } else {
      assert SpentOn(spends[..0], spends[0].day) == 0;
    }
  }

  /** One raw a day, for `n` days up to `day`. */
  function Daily(n: nat, day: int): (spends: seq<Spend>)
    ensures |spends| == n
  {
    if n == 0 then [] else Daily(n - 1, day - 1) + [Spend(day, 1)]
  }

  lemma {:induction false} DailyMeaning(n: nat, day: int, other: int)
    ensures Spent(Daily(n, day)) == n
    ensures SpentOn(Daily(n, day), other) == if day - n < other <= day then 1 else 0
    ensures forall i | 0 <= i < n :: Daily(n, day)[i].day <= day && Daily(n, day)[i].amount == 1
  {
    if n > 0 {
      DailyMeaning(n - 1, day - 1, other);
      SpendSnoc(Daily(n - 1, day - 1), Spend(day, 1), other);
    }
  }

  /** A history behind these counters with a spend on an earlier day. */
  lemma Witness(w: Setup, c: Counters, earlier: int) returns (r: Run)
    requires w.dailyCap >= 1 && 0 <= c.daily <= w.dailyCap && c.daily < c.session <= w.mandate.capRaw && earlier < c.day
    ensures Inv(w, r) && r.counters == c && SpentOn(r.spends, earlier) == 1
  {
    var n := c.session - c.daily;
    var past := Daily(n, earlier);
    var today := Spend(c.day, c.daily);
    r := Run(c, if c.daily == 0 then past else past + [today]);
    forall day ensures SpentOn(r.spends, day)
      == (if earlier - n < day <= earlier then 1 else 0) + (if day == c.day then c.daily else 0)
    {
      DailyMeaning(n, earlier, day);
      SpendSnoc(past, today, day);
    }
    DailyMeaning(n, earlier, earlier);
    SpendSnoc(past, today, earlier);
  }

  /** So a clock that goes back a day lets the daily cap be passed: a send of the whole cap, a check on the next day,
      and, with the clock back on the first day, another send, are all accepted. */
  lemma BackwardClockPassesDailyCap(w: Setup, destination: string, world: World, second: World, more: int, later: real)
    requires var day := DayOf(world.checkClock);
      && DayOf(world.recordClock) == day && DayOf(second.checkClock) == day && DayOf(second.recordClock) == day
      && DayOf(later) == day + 1
      && SendStep(w, Counters(day, 0, 0), destination, w.dailyCap, world).1.Sent?
      && SendStep(w, Counters(day + 1, 0, w.dailyCap), destination, more, second).1.Sent?
    requires w.mandate.capRaw > w.dailyCap
    ensures var day := DayOf(world.checkClock);
      var end := After(w, Run(Counters(day, 0, 0), []), [DoSend(destination, w.dailyCap, world),
                       DoCheck(1, None, world.verifyClock, later), DoSend(destination, more, second)]);
      SpentOn(end.spends, day) == w.dailyCap + more > w.dailyCap
  {
    hide ValidateAddress, VerifyMandate, BuildBlock, FromHex, DayOf;
    var day := DayOf(world.checkClock);
    var send, check := DoSend(destination, w.dailyCap, world), DoCheck(1, None, world.verifyClock, later);
    var again := DoSend(destination, more, second);
    var spend, spend2 := Spend(day, w.dailyCap), Spend(day, more);
    var r0 := Run(Counters(day, 0, 0), []);
    var r1 := Run(Counters(day, w.dailyCap, w.dailyCap), [spend]);
    assert Next(w, r0, send) == r1;
    var r2 := Run(Counters(day + 1, 0, w.dailyCap), [spend]);
    assert Next(w, r1, check) == r2;
    var r3 := Run(Counters(day, more, w.dailyCap + more), [spend, spend2]);
    assert Next(w, r2, again) == r3;
    assert [send, check, again][1..] == [check, again] && [check, again][1..] == [again];
    assert After(w, r2, [again]) == After(w, r3, []) == r3;
    assert After(w, r1, [check, again]) == After(w, r2, [again]);
    assert After(w, r0, [send, check, again]) == After(w, r1, [check, again]);
    SpendSnoc([], spend, day);
    SpendSnoc([spend], spend2, day);
    assert [] + [spend] == [spend] && [spend] + [spend2] == [spend, spend2];
  }

  // ------------------------------------------------------------------ what holds whatever the clock does

  /** What every step keeps, however the clock moves. */
  ghost predicate SessionInv(w: Setup, r: Run) {
    && r.counters.session == Spent(r.spends) <= w.mandate.capRaw
    && r.counters.daily >= 0
    && (forall i | 0 <= i < |r.spends| :: r.spends[i].amount > 0)
    && (w.dailyCap <= 0 ==> r.spends == [])
  }

  /** What a send does to the counters: it may roll the day, and adds the amount if the send is accepted. */
  lemma SendMoves(w: Setup, c: Counters, destination: string, amount: int, world: World)
    requires c.daily >= 0
    ensures var (after, r) := SendStep(w, c, destination, amount, world);
      && after.daily >= 0
      && after.session == c.session + (if r.Sent? then amount else 0)
      && (r.Sent? ==> amount > 0 && after.session <= w.mandate.capRaw && amount <= w.dailyCap)
  {
    hide ValidateAddress, CheckStep, BuildBlock, FromHex, DayOf;
    if world.info.Some? {
      CheckRolls(w, c, amount, Some(world.info.value.balance), world.verifyClock, world.checkClock);
    }
  }

  lemma StepKeepsSession(w: Setup, r: Run, step: Step)
    requires SessionInv(w, r)
    ensures SessionInv(w, Next(w, r, step))
  {
    hide ValidateAddress, CheckStep, BuildBlock, FromHex, DayOf, Spent, SendStep;
    match step
    case DoCheck(amount, balance, verifyClock, checkClock) =>
      CheckRolls(w, r.counters, amount, balance, verifyClock, checkClock);
    case DoSend(destination, amount, world) =>
      SendMoves(w, r.counters, destination, amount, world);
      SpendSnoc(r.spends, Spend(DayOf(world.recordClock), amount), 0);
  }

  lemma {:induction false} RunKeepsSession(w: Setup, r: Run, steps: seq<Step>)
    requires SessionInv(w, r)
    ensures SessionInv(w, After(w, r, steps))
    decreases |steps|
  {
    if steps != [] {
      StepKeepsSession(w, r, steps[0]);
      RunKeepsSession(w, Next(w, r, steps[0]), steps[1..]);
    }
  }

  /** No day's accepted sends exceed the daily cap. */
  ghost predicate KeepsDailyCap(w: Setup, spends: seq<Spend>) {
    forall day :: SpentOn(spends, day) == 0 || SpentOn(spends, day) <= w.dailyCap
  }

  /** For a wallet whose mandate allows no more than one day's cap, the daily cap holds under every clock. */
  lemma SmallMandateKeepsDailyCap(w: Setup, verifyClock: real, day: int, steps: seq<Step>)
    requires OpenError(w, verifyClock).None? && (w.dailyCap <= 0 || w.mandate.capRaw <= w.dailyCap)
    ensures KeepsDailyCap(w, After(w, Run(Counters(day, 0, 0), []), steps).spends)
  {
    hide VerifyMandate, After;
    MandateIsPositive(w, verifyClock);
    RunKeepsSession(w, Run(Counters(day, 0, 0), []), steps);
    var end := After(w, Run(Counters(day, 0, 0), []), steps);
    forall d ensures 0 <= SpentOn(end.spends, d) <= Spent(end.spends) {
      OtherDays(end.spends, d, d);
    }
  }

  lemma MandateIsPositive(w: Setup, verifyClock: real)
    requires OpenError(w, verifyClock).None?
    ensures w.mandate.capRaw > 0 && w.mandate.address == w.address
  {
    hide ValidateAddress, Canonical;
  }

  // ------------------------------------------------------------------ what the node got, acknowledged or not

  /** The amount a step puts before the node, and the part of it whose acknowledgement is lost. */
  function PublishedBy(w: Setup, r: Run, step: Step): int {
    if step.DoSend? && PublishedBlock(SendStep(w, r.counters, step.destination, step.amount, step.world).1).Some?
    then step.amount else 0
  }

  function LostBy(w: Setup, r: Run, step: Step): int {
    if step.DoSend? && SendStep(w, r.counters, step.destination, step.amount, step.world).1.NotAccepted?
    then step.amount else 0
  }

  function Published(w: Setup, r: Run, steps: seq<Step>): int
    decreases |steps|
  {
    if steps == [] then 0 else PublishedBy(w, r, steps[0]) + Published(w, Next(w, r, steps[0]), steps[1..])
  }

  function Lost(w: Setup, r: Run, steps: seq<Step>): int
    decreases |steps|
  {
    if steps == [] then 0 else LostBy(w, r, steps[0]) + Lost(w, Next(w, r, steps[0]), steps[1..])
  }

  lemma {:induction false} PublishedSplits(w: Setup, r: Run, steps: seq<Step>)
    ensures Published(w, r, steps) == Spent(After(w, r, steps).spends) - Spent(r.spends) + Lost(w, r, steps)
    ensures Lost(w, r, steps) >= 0
    decreases |steps|
  {
    if steps != [] {
      var step := steps[0];
      PublishedSplits(w, Next(w, r, step), steps[1..]);
      if step.DoSend? {
        var result := SendStep(w, r.counters, step.destination, step.amount, step.world).1;
        SpendSnoc(r.spends, Spend(DayOf(step.world.recordClock), step.amount), 0);
        if PublishedBlock(result).Some? {
          hide SendStep;
          PublishedIsChecked(w, r.counters, step.destination, step.amount, step.world);
        }
      }
    }
  }

  /** `available_session` */
  function Available(w: Setup, c: Counters): int {
    if w.mandate.capRaw > c.session then w.mandate.capRaw - c.session else 0
  }

  /** When all that a wallet put before the node, acknowledged or not, stays within the mandate's cap: exactly when what
      it sent without an acknowledgement is no more than what it still calls available. Without a lost reply it always
      does, under every clock. */
  lemma PublishedWithinCapExact(w: Setup, verifyClock: real, day: int, steps: seq<Step>)
    requires OpenError(w, verifyClock).None?
    ensures var r := Run(Counters(day, 0, 0), []);
      && (Published(w, r, steps) <= w.mandate.capRaw
          <==> Lost(w, r, steps) <= Available(w, After(w, r, steps).counters))
      && (Lost(w, r, steps) == 0 ==> Published(w, r, steps) <= w.mandate.capRaw)
  {
    hide VerifyMandate, After, Published, Lost;
    var r := Run(Counters(day, 0, 0), []);
    MandateIsPositive(w, verifyClock);
    RunKeepsSession(w, r, steps);
    PublishedSplits(w, r, steps);
  }

  // ------------------------------------------------------------------ such runs exist

  /** A block is published exactly when the destination is valid, the account answers, the check passes, the frontier is
      a hash, work comes, the representative is valid and the new balance has 128 bits; the send is accepted exactly
      when, besides, the node takes the block. */
  lemma SentExact(w: Setup, c: Counters, destination: string, amount: int, world: World)
    ensures var result := SendStep(w, c, destination, amount, world).1;
      && (PublishedBlock(result).Some? <==>
           && ValidateAddress(w.cr.blake40, destination) && world.info.Some? && world.work.Some?
           && var info := world.info.value;
           && CheckStep(w, c, amount, Some(info.balance), world.verifyClock, world.checkClock).1.None?
           && FromHex(Frontier(info)).Some? && |FromHex(Frontier(info)).value| == 32
           && ValidateAddress(w.cr.blake40, info.representative.GetOr(w.address))
           && info.balance - amount < Pow(2, 128))
      && (result.Sent? <==> PublishedBlock(result).Some? && world.reply.Accepted?)
  {
    hide ValidateAddress, VerifyMandate, FromHex, HexText, Pow, DayOf, BuildSendBlock;
    if world.info.Some? {
      var info := world.info.value;
      CheckExact(w, c, amount, Some(info.balance), world.verifyClock, world.checkClock);
      if FromHex(Frontier(info)).Some? {
        if world.work.Some? {
          BuildSucceedsExact(w.cr, w.privateKey, w.accountKey, w.address, FromHex(Frontier(info)).value,
                             info.representative.GetOr(w.address), info.balance - amount, destination,
                             world.work.value);
        }
      }
    }
  }

  /** A new account that holds just the amount, at one clock reading. */
  function NewAccount(amount: int, clock: real, reply: ProcessReply): World {
    World(Some(AccountInfo(amount, "", None)), Some(""), reply, clock, clock, clock)
  }

  /** The wallet's address is its account key's. */
  predicate Coherent(w: Setup) {
    w.address == AddressFromPublicKey(w.cr.blake40, w.accountKey)
  }

  /** From such an account, a wallet that opens publishes whatever its counters allow. */
  lemma NewAccountPublishes(w: Setup, c: Counters, amount: int, clock: real, reply: ProcessReply)
    requires Coherent(w) && OpenError(w, clock).None? && amount > 0
    requires c.session + amount <= w.mandate.capRaw && Roll(c, clock).daily + amount <= w.dailyCap
    ensures var result := SendStep(w, c, w.address, amount, NewAccount(amount, clock, reply)).1;
      PublishedBlock(result).Some? && (result.Sent? <==> reply.Accepted?)
  {
    hide ValidateAddress, VerifyMandate, FromHex, DayOf, Pow, AddressFromPublicKey, SendStep, CheckStep;
    AddressIsValid(w.cr.blake40, w.accountKey);
    AllHexReads(Zeros(64));
    PowPositive(2, 128);
    CheckExact(w, c, amount, Some(amount), clock, clock);
    SentExact(w, c, w.address, amount, NewAccount(amount, clock, reply));
  }

  /** The run that passes the daily cap. */
  function BackwardRun(w: Setup, clock: real, more: int): seq<Step> {
    [DoSend(w.address, w.dailyCap, NewAccount(w.dailyCap, clock, Accepted(""))),
     DoCheck(1, None, clock, clock + 86400.0),
     DoSend(w.address, more, NewAccount(more, clock, Accepted("")))]
  }

  /** On every wallet whose mandate allows more than one day's cap, a clock that goes back a day passes the
      daily cap. */
  lemma BackwardClockAlwaysPasses(w: Setup, clock: real, more: int)
    requires Coherent(w) && OpenError(w, clock).None? && clock >= 0.0
    requires 0 < more <= w.dailyCap && w.dailyCap + more <= w.mandate.capRaw
    ensures var day := DayOf(clock);
      SpentOn(After(w, Run(Counters(day, 0, 0), []), BackwardRun(w, clock, more)).spends, day) == w.dailyCap + more
  {
    hide ValidateAddress, VerifyMandate, DayOf, SendStep;
    var day := DayOf(clock);
    NextDay(clock);
    NewAccountPublishes(w, Counters(day, 0, 0), w.dailyCap, clock, Accepted(""));
    NewAccountPublishes(w, Counters(day + 1, 0, w.dailyCap), more, clock, Accepted(""));
    BackwardClockPassesDailyCap(w, w.address, NewAccount(w.dailyCap, clock, Accepted("")),
                                NewAccount(more, clock, Accepted("")), more, clock + 86400.0);
  }

  /** Which wallets keep the daily cap whatever the clock does: exactly those whose mandate allows no more than one
      day's cap, and those that can send nothing at all. */
  lemma DailyCapExact(w: Setup, clock: real)
    requires Coherent(w) && OpenError(w, clock).None? && clock >= 0.0
    ensures (forall steps :: KeepsDailyCap(w, After(w, Run(Counters(DayOf(clock), 0, 0), []), steps).spends))
       <==> w.dailyCap <= 0 || w.mandate.capRaw <= w.dailyCap
  {
    hide VerifyMandate, After, DayOf, Coherent, BackwardRun, OpenError;
    var day := DayOf(clock);
    if w.dailyCap <= 0 || w.mandate.capRaw <= w.dailyCap {
      forall steps ensures KeepsDailyCap(w, After(w, Run(Counters(day, 0, 0), []), steps).spends) {
        SmallMandateKeepsDailyCap(w, clock, day, steps);
      }
    } else {
      var left := w.mandate.capRaw - w.dailyCap;
      var more := if left < w.dailyCap then left else w.dailyCap;
      BackwardClockAlwaysPasses(w, clock, more);
      assert !KeepsDailyCap(w, After(w, Run(Counters(day, 0, 0), []), BackwardRun(w, clock, more)).spends);
    }
  }

  /** `n` sends of one amount whose acknowledgement is lost. */
  function LostRun(w: Setup, clock: real, amount: int, n: nat): (steps: seq<Step>)
    ensures |steps| == n
  {
    if n == 0 then []
    else [DoSend(w.address, amount, NewAccount(amount, clock, ProcessRaised))] + LostRun(w, clock, amount, n - 1)
  }

  /** A node that takes blocks and whose replies are lost gets any number of them: nothing is recorded, so nothing is
      used up of either cap. */
  lemma {:induction false} LostRepliesPublishWithoutBound(w: Setup, clock: real, amount: int, n: nat)
    requires Coherent(w) && OpenError(w, clock).None? && 0 < amount <= w.dailyCap && amount <= w.mandate.capRaw
    ensures var r := Run(Counters(DayOf(clock), 0, 0), []);
      Published(w, r, LostRun(w, clock, amount, n)) == n * amount && After(w, r, LostRun(w, clock, amount, n)) == r
  {
    hide VerifyMandate, DayOf, Coherent, OpenError, SendStep, Next;
    if n > 0 {
      var r := Run(Counters(DayOf(clock), 0, 0), []);
      var step := DoSend(w.address, amount, NewAccount(amount, clock, ProcessRaised));
      NewAccountPublishes(w, r.counters, amount, clock, ProcessRaised);
      LostLeavesCounters(w, r, step);
      LostRepliesPublishWithoutBound(w, clock, amount, n - 1);
      assert LostRun(w, clock, amount, n)[1..] == LostRun(w, clock, amount, n - 1);
      assert PublishedBy(w, r, step) == amount && n * amount == amount + (n - 1) * amount;
    }
  }

  lemma LostLeavesCounters(w: Setup, r: Run, step: Step)
    requires step.DoSend? && DayOf(step.world.checkClock) == r.counters.day
    requires SendStep(w, r.counters, step.destination, step.amount, step.world).1.NotAccepted?
    ensures Next(w, r, step) == r
  {
    hide ValidateAddress, VerifyMandate, BuildBlock, FromHex, DayOf;
  }

  lemma AddressIsValid(blake: Blake40, key: Bytes32)
    ensures ValidateAddress(blake, AddressFromPublicKey(blake, key))
  {
    DecodeInvertsEncode(blake, key);
  }

  lemma NextDay(clock: real)
    requires clock >= 0.0
    ensures DayOf(clock + 86400.0) == DayOf(clock) + 1
  {
    assert (clock + 86400.0).Floor == clock.Floor + 86400;
  }

  /** A wallet of that kind: a mandate of two raw, a daily cap of one, and a signature check that accepts. */
  function ExampleSetup(cr: Crypto, key: Bytes32): Setup {
    var address := AddressFromPublicKey(cr.blake40, key);
    Setup(Codec(_ => [], _ => "", (_, _, _) => true, cr.blake40), cr, key, key, address, key,
          Mandate("session", address, 2, 0.0, 86400.0, [], 1, [1]), 1)
  }

  lemma ExampleOpens(cr: Crypto, key: Bytes32)
    ensures var w := ExampleSetup(cr, key);
      Coherent(w) && OpenError(w, 0.0).None? && w.mandate.capRaw > w.dailyCap > 0
  {
    hide AddressFromPublicKey, ValidateAddress, Canonical;
    AddressIsValid(cr.blake40, key);
  }

  // ------------------------------------------------------------------ field by field

  /** Days are counted from second 0, 86400 seconds each; before second 0 the clock is first cut towards it. */
  lemma DayExact(clock: real, day: int)
    ensures clock >= 0.0 ==>
      (DayOf(clock) == day <==> (86400 * day) as real <= clock < (86400 * day + 86400) as real)
    ensures -1.0 < clock < 0.0 ==> DayOf(clock) == 0
    ensures clock <= -1.0 ==>
      (DayOf(clock) == day <==> (86400 * day - 1) as real < clock <= (86400 * day + 86399) as real)
  {
    var t := Truncate(clock);
    assert t / 86400 == day <==> 86400 * day <= t < 86400 * day + 86400;
    if clock < 0.0 {
      assert (-clock).Floor as real <= -clock < (-clock).Floor as real + 1.0;
    }
  }

  /** Which guard a check fails at, exactly: the first of these. */
  lemma GuardExact(w: Setup, c: Counters, amount: int, balance: Option<int>, verifyClock: real, checkClock: real)
    ensures var (after, r) := CheckStep(w, c, amount, balance, verifyClock, checkClock);
      var bound := w.mandate.address == w.address && PublicKeyFromAddress(w.cd.blake40, w.mandate.address).Some?;
      var bad := VerifyMandate(w.cd, w.mandate, w.ownerKey, verifyClock);
      var today := if DayOf(checkClock) == c.day then c.daily else 0;
      var rolled := Counters(DayOf(checkClock), today, c.session);
      if !bound then (after, r) == (c, Some(NotBound))
      else if bad.Some? then (after, r) == (c, Some(BadMandate(bad.value)))
      else if amount <= 0 then (after, r) == (c, Some(NotPositive))
      else if c.session + amount > w.mandate.capRaw then (after, r) == (c, Some(OverSessionCap))
      else if today + amount > w.dailyCap then (after, r) == (rolled, Some(OverDailyCap))
      else if balance.Some? && amount > balance.value then (after, r) == (rolled, Some(OverBalance))
      else (after, r) == (rolled, None)
  {
    hide PublicKeyFromAddress, VerifyMandate, DayOf;
  }

  /** The block that is put before the node, field by field: from the frontier the account answered with, or 64 zeros
      for a new account, to the destination, signed with the wallet's key. */
  lemma PublishedBlockExact(w: Setup, c: Counters, destination: string, amount: int, world: World, info: AccountInfo,
                            block: BlockDict)
    requires PublishedBlock(SendStep(w, c, destination, amount, world).1) == Some(block) && world.info == Some(info)
    ensures var frontier := FromHex(if info.frontier == "" then seq(64, _ => '0') else info.frontier);
      var representative := if info.representative.Some? then info.representative.value else w.address;
      && frontier.Some? && world.work.Some? && info.balance >= amount
      && block.account == w.address && block.previous == Upper(HexText(frontier.value))
      && block.representative == representative && block.balance == NatText(info.balance - amount)
      && block.linkAsAccount == destination && block.work == world.work.value
      && var link, rep := PublicKeyFromAddress(w.cr.blake40, destination),
                          PublicKeyFromAddress(w.cr.blake40, representative);
      && link.Some? && rep.Some? && block.link == Upper(HexText(link.value))
      && var bytes := BlockBytes(w.accountKey, frontier.value, rep.value, info.balance - amount, link.value);
      && bytes.Some? && block.signature == Upper(HexText(w.cr.sign(w.privateKey, w.cr.blake256(bytes.value))))
  {
    hide PublicKeyFromAddress, VerifyMandate, BuildSendBlock, BlockBytes, FromHex, HexText, CheckStep, NatText, Pow;
    PublishedIsChecked(w, c, destination, amount, world);
    assert Frontier(info) == if info.frontier == "" then seq(64, _ => '0') else info.frontier;
    BuiltBlockExact(w.cr, w.privateKey, w.accountKey, w.address, FromHex(Frontier(info)).value,
                    info.representative.GetOr(w.address), info.balance - amount, destination, world.work.value);
  }

  /** What a send comes to, exactly: the first of these; and what it leaves in the counters. */
  lemma SendExact(w: Setup, c: Counters, destination: string, amount: int, world: World)
    ensures var (after, r) := SendStep(w, c, destination, amount, world);
      if PublicKeyFromAddress(w.cr.blake40, destination).None? then (after, r) == (c, Refused(BadDestination))
      else if world.info.None? then (after, r) == (c, Refused(InfoRaised))
      else
        var (checked, error) := CheckStep(w, c, amount, Some(world.info.value.balance), world.verifyClock,
                                          world.checkClock);
        if error.Some? then (after, r) == (checked, Refused(error.value))
        else if PublishedBlock(r).None? then
          && after == checked
          && r == Refused(if FromHex(Frontier(world.info.value)).Some? && world.work.None? then NoWork else BadBlock)
        else if !world.reply.Accepted? then after == checked && r.NotAccepted?
        else
          var day := DayOf(world.recordClock);
          && r.Sent? && r.hash == world.reply.hash
          && after == Counters(day, (if day == checked.day then checked.daily else 0) + amount,
                               checked.session + amount)
  {
    hide PublicKeyFromAddress, CheckStep, FromHex, BuildBlock, DayOf;
  }
}
