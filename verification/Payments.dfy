/** The pay-per-call service (`nano_mcp/service.py`): quotes, and payments approved at most once. */
module Payments {
  import opened Text
  import opened ApprovalStores
  import opened Pricing

  /** One entry of `account_history`. */
  datatype Entry = Entry(kind: string, amount: int, account: string, hash: Option<string>)

  const QUOTE_TTL_SECONDS := 30.0

  /** An entry that shows a payment of at least `amountRaw` to `address`. */
  predicate ShowsPayment(entry: Entry, address: string, amountRaw: int) {
    entry.amount >= amountRaw && (entry.kind == "receive" || (entry.kind == "send" && entry.account == address))
  }

  /** The hash of the first such entry; a None history is a client that raised. */
  function FirstPayment(history: seq<Entry>, address: string, amountRaw: int): Option<string> {
    if history == [] then None
    else if ShowsPayment(history[0], address, amountRaw) then history[0].hash
    else FirstPayment(history[1..], address, amountRaw)
  }

  /** What the chain showed one call. */
  function ChainAnswer(history: Option<seq<Entry>>, address: string, amountRaw: int): Option<string> {
    match history
    case None => None
    case Some(entries) => FirstPayment(entries, address, amountRaw)
  }

  datatype Status = Approved(txHash: string) | Spent(earlier: string) | Expired | Pending | BadAmount

  /** The amount a call checks on-chain: the higher of what the caller names and what was quoted. */
  function CheckedAmount(named: int, quoted: Option<int>): int {
    if quoted.Some? && quoted.value > named then quoted.value else named
  }

  /** `verify_payment` as one step, but for a rival call that may approve the same request id just before this one
      tries to. */
  function VerifyStep(t: Tables, requestId: string, address: string, named: int, requireOnchain: bool, clock: real,
                      history: Option<seq<Entry>>, rival: Option<Approval>, now: real): (Tables, Status)
  {
    if named < 0 then (t, BadAmount)
    else if requestId in t.approvals then (t, Spent(t.approvals[requestId].txHash))
    else if requestId in t.expiries && clock > t.expiries[requestId] then (t, Expired)
    else
      var amount := CheckedAmount(named, Lookup(t.prices, requestId));
      var tx := if requireOnchain then ChainAnswer(history, address, amount) else Some("simulated");
      if tx.None? then (t, Pending)
      else if rival.Some? then (ClaimApproval(t, requestId, rival.value).0, Spent(rival.value.txHash))
      else (ClaimApproval(t, requestId, Approval(tx.value, address, amount, now)).0, Approved(tx.value))
  }

  datatype UsdQuote = UsdQuote(requestId: string, payTo: string, raw: int, expiresAt: real)

  class PaymentService {
    const store: ApprovalStore
    const address: string -> string

    constructor (store: ApprovalStore, address: string -> string)
      ensures this.store == store && this.address == address
    {
      this.store := store;
      this.address := address;
    }

    /** `quote`; an absent or empty request id gets a new one. */
    method Quote(price: int, requestId: string, newId: string, meanwhile: Option<map<string, int>>)
      returns (id: string, payTo: string)
      modifies store`prices
      ensures id == if requestId == "" then newId else requestId
      ensures payTo == address(id)
      ensures store.Contents() == WriteFloor(Meanwhile(old(store.Contents()), meanwhile), id,
                                             NewFloor(old(store.Contents()), id, price))
    {
      id := if requestId == "" then newId else requestId;
      payTo := address(id);
      store.RecordQuotePrice(id, price, meanwhile);
    }

    /** `quote_usd`: the price in raw at the rate, recorded after its expiry. A rate source that raised, or a price or
        rate that cannot be converted, records nothing; None is that exception. */
    method QuoteUsd(price: Ratio, rate: Option<Ratio>, requestId: string, newId: string, clock: real,
                    meanwhile: Option<map<string, int>>)
      returns (r: Option<UsdQuote>)
      requires price.Valid() && (rate.Some? ==> rate.value.Valid())
      modifies store`prices, store`expiries
      ensures r.None? <==> rate.None? || price.num <= 0 || rate.value.num <= 0
      ensures r.None? ==> store.Contents() == old(store.Contents())
      ensures r.Some? ==>
        && r.value.requestId == (if requestId == "" then newId else requestId)
        && r.value.payTo == address(r.value.requestId) && r.value.expiresAt == clock + 30.0
        && (forall m :: Covers(m, price, rate.value) <==> m >= r.value.raw)
        && var t := RecordExpiry(old(store.Contents()), r.value.requestId, r.value.expiresAt);
        && store.Contents() == WriteFloor(Meanwhile(t, meanwhile), r.value.requestId,
                                          NewFloor(t, r.value.requestId, r.value.raw))
    {
      hide Covers, CeilingDiv;
      if rate.None? {
        return None;
      }
      var raw := UsdToXnoRaw(price, rate.value);
      if raw.None? {
        return None;
      }
      forall m ensures Covers(m, price, rate.value) <==> m >= raw.value {
        QuoteIsLeast(price, rate.value, m);
      }
      var id := if requestId == "" then newId else requestId;
      var expiresAt := clock + QUOTE_TTL_SECONDS;
      store.RecordQuoteExpiry(id, expiresAt);
      store.RecordQuotePrice(id, raw.value, meanwhile);
      return Some(UsdQuote(id, address(id), raw.value, expiresAt));
    }

    /** `_onchain_paid` */
    method OnchainPaid(account: string, history: Option<seq<Entry>>, amountRaw: int) returns (r: Option<string>)
      ensures r == ChainAnswer(history, account, amountRaw)
      ensures r.Some? ==> history.Some? && exists i | 0 <= i < |history.value| ::
        && history.value[i].hash == r && history.value[i].amount >= amountRaw
        && (history.value[i].kind == "receive"
            || (history.value[i].kind == "send" && history.value[i].account == account))
    {
      if history.None? {
        return None;
      }
      var entries := history.value;
      if FirstPayment(entries, account, amountRaw).Some? {
        PaymentIsInHistory(entries, account, amountRaw);
      }
      for i := 0 to |entries|
        invariant FirstPayment(entries, account, amountRaw) == FirstPayment(entries[i..], account, amountRaw)
      {
        var entry := entries[i];
        assert entries[i..][1..] == entries[i + 1..];
        if entry.amount >= amountRaw {
          if entry.kind == "receive" {
            return entry.hash;
          }
          if entry.kind == "send" && entry.account == account {
            return entry.hash;
          }
        }
      }
      return None;
    }

    method VerifyPayment(requestId: string, amountRaw: int, requireOnchain: bool, clock: real,
                         history: Option<seq<Entry>>, rival: Option<Approval>, now: real) returns (status: Status)
      modifies store`approvals
      ensures (store.Contents(), status)
           == VerifyStep(old(store.Contents()), requestId, address(requestId), amountRaw, requireOnchain, clock,
                         history, rival, now)
    {
      if amountRaw < 0 {
        return BadAmount;
      }
      var account := address(requestId);
      var existing := store.GetApproval(requestId);
      if existing.Some? {
        return Spent(existing.value.txHash);
      }
      var expiry := store.QuoteExpiry(requestId);
      if expiry.Some? && clock > expiry.value {
        return Expired;
      }
      var amount := amountRaw;
      var quoted := store.QuotePrice(requestId);
      if quoted.Some? && quoted.value > amount {
        amount := quoted.value;
      }
      var tx := Some("simulated");
      if requireOnchain {
        tx := OnchainPaid(account, history, amount);
        if tx.None? {
          return Pending;
        }
      }
      if rival.Some? {
        var _ := store.Claim(requestId, rival.value.txHash, rival.value.paidAddress, rival.value.amountRaw,
                             rival.value.approvedAt);
      }
      var claimed := store.Claim(requestId, tx.value, account, amount, now);
      if !claimed {
        existing := store.GetApproval(requestId);
        return Spent(existing.value.txHash);
      }
      return Approved(tx.value);
    }
  }

  /** A chain answer is the hash of the first history entry that receives, or sends from the address, at least the
      amount. */
  lemma {:induction false} PaymentIsInHistory(history: seq<Entry>, address: string, amountRaw: int)
    requires FirstPayment(history, address, amountRaw).Some?
    ensures exists i | 0 <= i < |history| ::
      && history[i].hash == FirstPayment(history, address, amountRaw) && history[i].amount >= amountRaw
      && (history[i].kind == "receive" || (history[i].kind == "send" && history[i].account == address))
      && forall j | 0 <= j < i :: !(history[j].amount >= amountRaw
           && (history[j].kind == "receive" || (history[j].kind == "send" && history[j].account == address)))
  {
    if !ShowsPayment(history[0], address, amountRaw) {
      var rest := history[1..];
      PaymentIsInHistory(rest, address, amountRaw);
      var i :| 0 <= i < |rest| && rest[i].hash == FirstPayment(history, address, amountRaw)
        && ShowsPayment(rest[i], address, amountRaw)
        && forall j | 0 <= j < i :: !ShowsPayment(rest[j], address, amountRaw);
      assert history[i + 1] == rest[i];
      assert forall j | 1 <= j < i + 1 :: history[j] == rest[j - 1];
    }
  }

  /** Conversely the hash of the first such entry is the answer. */
  lemma {:induction false} FirstPaymentAnswers(history: seq<Entry>, address: string, amountRaw: int, i: nat)
    requires i < |history| && history[i].amount >= amountRaw
    requires history[i].kind == "receive" || (history[i].kind == "send" && history[i].account == address)
    requires forall j | 0 <= j < i :: !(history[j].amount >= amountRaw
               && (history[j].kind == "receive" || (history[j].kind == "send" && history[j].account == address)))
    ensures FirstPayment(history, address, amountRaw) == history[i].hash
  {
    if i > 0 {
      assert forall j | 0 <= j < i - 1 :: history[1..][j] == history[j + 1];
      FirstPaymentAnswers(history[1..], address, amountRaw, i - 1);
    }
  }

  /** The first entry that shows the payment is entry `i`. */
  predicate ShowsFirst(history: seq<Entry>, address: string, amountRaw: int, i: nat)
    requires i < |history|
  {
    && ShowsPayment(history[i], address, amountRaw)
    && forall j | 0 <= j < i :: !ShowsPayment(history[j], address, amountRaw)
  }

  /** "Not yet paid", exactly: no entry shows the payment, or the first that shows it comes without its hash, whatever
      comes after it. */
  lemma PendingMeansNoPayment(history: seq<Entry>, address: string, amountRaw: int)
    ensures FirstPayment(history, address, amountRaw).None? <==>
      || (forall i | 0 <= i < |history| :: !ShowsPayment(history[i], address, amountRaw))
      || (exists i | 0 <= i < |history| :: ShowsFirst(history, address, amountRaw, i) && history[i].hash.None?)
  {
    if FirstPayment(history, address, amountRaw).Some? {
      PaymentIsInHistory(history, address, amountRaw);
    }
    if exists i | 0 <= i < |history| :: ShowsPayment(history[i], address, amountRaw) {
      var k :| 0 <= k < |history| && ShowsPayment(history[k], address, amountRaw);
      var i := FirstShown(history, address, amountRaw, k);
      FirstPaymentAnswers(history, address, amountRaw, i);
    }
  }

  lemma FirstShown(history: seq<Entry>, address: string, amountRaw: int, k: nat) returns (i: nat)
    requires k < |history| && ShowsPayment(history[k], address, amountRaw)
    ensures i <= k && ShowsFirst(history, address, amountRaw, i)
  {
    i := 0;
    while !ShowsPayment(history[i], address, amountRaw)
      invariant i <= k && forall j | 0 <= j < i :: !ShowsPayment(history[j], address, amountRaw)
      decreases k - i
    {
      i := i + 1;
    }
  }

  /** Which status `verify_payment` gives, exactly, and what it stores. */
  lemma StatusExact(t: Tables, requestId: string, address: string, named: int, requireOnchain: bool, clock: real,
                    history: Option<seq<Entry>>, rival: Option<Approval>, now: real)
    ensures var (after, status) := VerifyStep(t, requestId, address, named, requireOnchain, clock, history, rival, now);
      var quoted := if requestId in t.prices then t.prices[requestId] else 0;
      var amount := if quoted > named then quoted else named;
      var late := requestId in t.expiries && clock > t.expiries[requestId];
      var tx := if requireOnchain then
                  (if history.Some? then FirstPayment(history.value, address, amount) else None)
                else Some("simulated");
      if named < 0 then after == t && status == BadAmount
      else if requestId in t.approvals then after == t && status == Spent(t.approvals[requestId].txHash)
      else if late then after == t && status == Expired
      else if tx.None? then after == t && status == Pending
      else if rival.Some? then
        status == Spent(rival.value.txHash) && after == t.(approvals := t.approvals[requestId := rival.value])
      else
        && status == Approved(tx.value)
        && after == t.(approvals := t.approvals[requestId := Approval(tx.value, address, amount, now)])
  {
  }

  // ------------------------------------------------------------------ interleaved calls

  /** Where one `verify_payment` call stands, with what it has read. `seen` counts the prices recorded when it read the
      floor. */
  datatype Call =
    | Started(requestId: string, named: nat, onchain: bool)
    | NotSpent(requestId: string, named: nat, onchain: bool)
    | InTime(requestId: string, named: nat, onchain: bool, expiry: Option<real>, clock: real)
    | Priced(requestId: string, named: nat, onchain: bool, expiry: Option<real>, clock: real, floor: Option<int>,
             seen: nat)
    | Paid(requestId: string, named: nat, onchain: bool, expiry: Option<real>, clock: real, floor: Option<int>,
           seen: nat, history: seq<Entry>, txHash: string)
    | Finished(approved: bool)

  /** A price recorded by a quote, and an approval: what its call had read and the row it stored. */
  datatype Recorded = Recorded(requestId: string, price: int)

  datatype Event = ApprovedBy(call: Call, row: Approval)

  /** What a handle on the file is about to write as a quoted price. */
  datatype Writing = Writing(requestId: string, price: int, floor: int)

  datatype State = State(tables: Tables, calls: map<nat, Call>, writing: map<nat, Writing>, prices: seq<Recorded>,
                         approvals: seq<Event>)

  datatype Step =
    | QuoteRead(handle: nat, requestId: string, price: int)
    | QuoteWrite(handle: nat)
    | QuoteFails(handle: nat)
    | DoExpiry(requestId: string, expiresAt: real)
    | Begin(id: nat, requestId: string, named: nat, onchain: bool)
    | ReadApproval(id: nat)
    | ReadExpiry(id: nat, clock: real)
    | ReadPrice(id: nat)
    | AskChain(id: nat, history: Option<seq<Entry>>)
    | TryClaim(id: nat, now: real)

  predicate Enabled(s: State, step: Step) {
    match step
    case QuoteRead(handle, _, _) => handle !in s.writing
    case QuoteWrite(handle) => handle in s.writing
    case QuoteFails(handle) => handle in s.writing
    case DoExpiry(_, _) => true
    case Begin(id, _, _, _) => id !in s.calls
    case ReadApproval(id) => id in s.calls && s.calls[id].Started?
    case ReadExpiry(id, _) => id in s.calls && s.calls[id].NotSpent?
    case ReadPrice(id) => id in s.calls && s.calls[id].InTime?
    case AskChain(id, _) => id in s.calls && s.calls[id].Priced?
    case TryClaim(id, _) => id in s.calls && s.calls[id].Paid?
  }

  /** One atomic step; steps of any number of calls interleave. */
  function Next(address: string -> string, s: State, step: Step): State
    requires Enabled(s, step)
  {
    match step
    case QuoteRead(handle, requestId, price) =>
      s.(writing := s.writing[handle := Writing(requestId, price, NewFloor(s.tables, requestId, price))])
    case QuoteWrite(handle) =>
      var w := s.writing[handle];
      s.(tables := WriteFloor(s.tables, w.requestId, w.floor), writing := s.writing - {handle},
         prices := s.prices + [Recorded(w.requestId, w.price)])
    case QuoteFails(handle) => s.(writing := s.writing - {handle})
    case DoExpiry(requestId, expiresAt) => s.(tables := RecordExpiry(s.tables, requestId, expiresAt))
    case Begin(id, requestId, named, onchain) => s.(calls := s.calls[id := Started(requestId, named, onchain)])
    case ReadApproval(id) =>
      var c := s.calls[id];
      s.(calls := s.calls[id := if c.requestId in s.tables.approvals then Finished(false)
                                else NotSpent(c.requestId, c.named, c.onchain)])
    case ReadExpiry(id, clock) =>
      var c := s.calls[id];
      var expiry := Lookup(s.tables.expiries, c.requestId);
      s.(calls := s.calls[id := if expiry.Some? && clock > expiry.value then Finished(false)
                                else InTime(c.requestId, c.named, c.onchain, expiry, clock)])
    case ReadPrice(id) =>
      var c := s.calls[id];
      s.(calls := s.calls[id := Priced(c.requestId, c.named, c.onchain, c.expiry, c.clock,
                                       Lookup(s.tables.prices, c.requestId), |s.prices|)])
    case AskChain(id, history) =>
      var c := s.calls[id];
      var amount := CheckedAmount(c.named, c.floor);
      var tx := if c.onchain then ChainAnswer(history, address(c.requestId), amount) else Some("simulated");
      s.(calls := s.calls[id := if tx.None? then Finished(false)
                                else Paid(c.requestId, c.named, c.onchain, c.expiry, c.clock, c.floor, c.seen,
                                          history.GetOr([]), tx.value)])
    case TryClaim(id, now) =>
      var c := s.calls[id];
      var row := RowOf(address, c, now);
      var (tables, won) := ClaimApproval(s.tables, c.requestId, row);
      s.(tables := tables, calls := s.calls[id := Finished(won)],
         approvals := if won then s.approvals + [ApprovedBy(c, row)] else s.approvals)
  }

  /** The row a paid call tries to store. */
  function RowOf(address: string -> string, c: Call, now: real): Approval
    requires c.Paid?
  {
    Approval(c.txHash, address(c.requestId), CheckedAmount(c.named, c.floor), now)
  }

  /** A call's steps one after the other, until it is finished: up to its pricing, and then from it. */
  function SoloToPrice(address: string -> string, s: State, id: nat, clock: real): (s': State)
    requires id in s.calls && s.calls[id].Started?
    ensures id in s'.calls && (s'.calls[id].Priced? || s'.calls[id].Finished?)
  {
    var s1 := Next(address, s, ReadApproval(id));
    if s1.calls[id].Finished? then s1 else
      var s2 := Next(address, s1, ReadExpiry(id, clock));
      if s2.calls[id].Finished? then s2 else Next(address, s2, ReadPrice(id))
  }

  function SoloFromPrice(address: string -> string, s: State, id: nat, history: Option<seq<Entry>>, now: real): State
    requires id in s.calls && s.calls[id].Priced?
  {
    var s1 := Next(address, s, AskChain(id, history));
    if s1.calls[id].Finished? then s1 else Next(address, s1, TryClaim(id, now))
  }

  function Solo(address: string -> string, s: State, id: nat, clock: real, history: Option<seq<Entry>>,
                now: real): State
    requires id in s.calls && s.calls[id].Started?
  {
    var priced := SoloToPrice(address, s, id, clock);
    if priced.calls[id].Finished? then priced else SoloFromPrice(address, priced, id, history, now)
  }

  lemma SoloReads(address: string -> string, s: State, id: nat, clock: real)
    requires id in s.calls && s.calls[id].Started?
    ensures var c, s' := s.calls[id], SoloToPrice(address, s, id, clock);
      && s'.tables == s.tables && s'.calls == s.calls[id := s'.calls[id]]
      && s'.calls[id] ==
        if c.requestId in s.tables.approvals
          || (c.requestId in s.tables.expiries && clock > s.tables.expiries[c.requestId]) then Finished(false)
        else Priced(c.requestId, c.named, c.onchain, Lookup(s.tables.expiries, c.requestId), clock,
                    Lookup(s.tables.prices, c.requestId), |s.prices|)
  {
  }

  /** A call that nobody interrupts does to the tables what `verify_payment` does, and is approved when it is. */
  lemma SoloIsVerifyPayment(address: string -> string, s: State, id: nat, requestId: string, named: nat, onchain: bool,
                            clock: real, history: Option<seq<Entry>>, now: real)
    requires id in s.calls && s.calls[id] == Started(requestId, named, onchain)
    ensures var (tables, status) := VerifyStep(s.tables, requestId, address(requestId), named, onchain, clock, history,
                                               None, now);
      var end := Solo(address, s, id, clock, history, now);
      end.tables == tables && id in end.calls && end.calls[id] == Finished(status.Approved?)
  {
    hide ChainAnswer, CheckedAmount, SoloToPrice;
    SoloReads(address, s, id, clock);
  }

  /** The same, but another paid call of the request id gets to its claim first. */
  function Raced(address: string -> string, s: State, id: nat, clock: real, history: Option<seq<Entry>>, rival: nat,
                 rivalNow: real, now: real): State
    requires id in s.calls && s.calls[id].Started? && rival in s.calls && s.calls[rival].Paid?
  {
    var priced := SoloToPrice(address, s, id, clock);
    if priced.calls[id].Finished? then priced else
      SoloReads(address, s, id, clock);
      var paid := Next(address, priced, AskChain(id, history));
      if paid.calls[id].Finished? then paid
      else Next(address, Next(address, paid, TryClaim(rival, rivalNow)), TryClaim(id, now))
  }

  /** The rival branch of `verify_payment` is that interleaving: the row kept is the rival's, and this call is not
      approved. So what holds over all interleavings holds of it. */
  lemma RacedIsVerifyPayment(address: string -> string, s: State, id: nat, requestId: string, named: nat, onchain: bool,
                             clock: real, history: Option<seq<Entry>>, rival: nat, rivalNow: real, now: real)
    requires id in s.calls && s.calls[id] == Started(requestId, named, onchain)
    requires rival in s.calls && s.calls[rival].Paid? && s.calls[rival].requestId == requestId
    ensures var row := RowOf(address, s.calls[rival], rivalNow);
      var (tables, status) := VerifyStep(s.tables, requestId, address(requestId), named, onchain, clock, history,
                                         Some(row), now);
      var end := Raced(address, s, id, clock, history, rival, rivalNow, now);
      && end.tables == tables && id in end.calls && end.calls[id] == Finished(false) && !status.Approved?
      && (tables == s.tables || tables.approvals == s.tables.approvals[requestId := row])
  {
    hide ChainAnswer, CheckedAmount, SoloToPrice, RowOf;
    SoloReads(address, s, id, clock);
  }

  /** The floor a list of recorded prices sets for a request id: their maximum, and at least 0. */
  function Floor(prices: seq<Recorded>, requestId: string): int {
    if prices == [] then 0 else
      var last := prices[|prices| - 1];
      var earlier := Floor(prices[..|prices| - 1], requestId);
      if last.requestId == requestId then Max(earlier, last.price) else earlier
  }

  predicate Quoted(prices: seq<Recorded>, requestId: string) {
    exists i | 0 <= i < |prices| :: prices[i].requestId == requestId
  }

  lemma {:induction false} FloorIsMaximum(prices: seq<Recorded>, requestId: string)
    ensures Floor(prices, requestId) >= 0
    ensures forall i | 0 <= i < |prices| && prices[i].requestId == requestId ::
      Floor(prices, requestId) >= prices[i].price
    ensures Floor(prices, requestId) == 0
         || exists i | 0 <= i < |prices| :: prices[i] == Recorded(requestId, Floor(prices, requestId))
  {
    if prices == [] {
    } else {
      FloorIsMaximum(prices[..|prices| - 1], requestId);
      var last := |prices| - 1;
      if Floor(prices, requestId) != Floor(prices[..last], requestId) {
        assert prices[last] == Recorded(requestId, Floor(prices, requestId));
      } else if Floor(prices, requestId) != 0 {
        var i :| 0 <= i < last && prices[..last][i] == Recorded(requestId, Floor(prices, requestId));
        assert prices[i] == Recorded(requestId, Floor(prices, requestId));
      }
    }
  }

  lemma {:induction false} NotQuotedFloor(prices: seq<Recorded>, requestId: string)
    ensures !Quoted(prices, requestId) ==> Floor(prices, requestId) == 0
  {
    if prices == [] {
    } else {
      NotQuotedFloor(prices[..|prices| - 1], requestId);
      if Quoted(prices[..|prices| - 1], requestId) {
        var i :| 0 <= i < |prices| - 1 && prices[..|prices| - 1][i].requestId == requestId;
        assert prices[i].requestId == requestId;
      }
      assert prices[|prices| - 1].requestId == requestId ==> Quoted(prices, requestId);
    }
  }

  // ------------------------------------------------------------------ what every step keeps

  /** What a call goes by is what it has read. */
  predicate CallInv(address: string -> string, c: Call) {
    && (c.InTime? || c.Priced? || c.Paid? ==> c.expiry.Some? ==> c.clock <= c.expiry.value)
    && (c.Paid? && c.onchain ==>
         exists i | 0 <= i < |c.history| ::
           && ShowsPayment(c.history[i], address(c.requestId), CheckedAmount(c.named, c.floor))
           && c.history[i].hash == Some(c.txHash))
  }

  predicate EachRowApproved(rows: set<string>, approvals: seq<Event>) {
    forall r | r in rows :: exists e | e in approvals :: e.call.Paid? && e.call.requestId == r
  }

  lemma ApprovalAddsRow(rows: set<string>, approvals: seq<Event>, e: Event)
    requires EachRowApproved(rows, approvals) && e.call.Paid?
    ensures EachRowApproved(rows + {e.call.requestId}, approvals + [e])
  {
    assert e in approvals + [e];
    assert forall e' | e' in approvals :: e' in approvals + [e];
  }

  ghost predicate Inv(address: string -> string, s: State) {
    && (forall id | id in s.calls :: CallInv(address, s.calls[id]))
    && (forall e | e in s.approvals ::
         && e.call.Paid? && CallInv(address, e.call) && e.row == RowOf(address, e.call, e.row.approvedAt)
         && e.call.requestId in s.tables.approvals && s.tables.approvals[e.call.requestId] == e.row)
    && EachRowApproved(s.tables.approvals.Keys, s.approvals)
    && (forall i, j | 0 <= i < j < |s.approvals| :: s.approvals[i].call.requestId != s.approvals[j].call.requestId)
  }

  lemma StepKeepsInv(address: string -> string, s: State, step: Step)
    requires Inv(address, s) && Enabled(s, step)
    ensures Inv(address, Next(address, s, step))
  {
    hide CheckedAmount, RowOf, EachRowApproved;
    match step
    case QuoteRead(_, _, _) =>
    case QuoteWrite(_) =>
    case QuoteFails(_) =>
    case DoExpiry(_, _) =>
    case Begin(_, _, _, _) =>
    case ReadApproval(_) =>
    case ReadExpiry(_, _) =>
    case ReadPrice(_) =>
    case AskChain(id, history) =>
      var c := s.calls[id];
      var amount := CheckedAmount(c.named, c.floor);
      if c.onchain && ChainAnswer(history, address(c.requestId), amount).Some? {
        PaymentIsInHistory(history.value, address(c.requestId), amount);
      }
    case TryClaim(id, now) => ClaimKeepsInv(address, s, id, now);
  }

  lemma ClaimKeepsInv(address: string -> string, s: State, id: nat, now: real)
    requires Inv(address, s) && Enabled(s, TryClaim(id, now))
    ensures Inv(address, Next(address, s, TryClaim(id, now)))
  {
    hide CallInv, RowOf, EachRowApproved;
    var s' := Next(address, s, TryClaim(id, now));
    var c := s.calls[id];
    FinishedInv(address, c.requestId !in s.tables.approvals);
    if c.requestId !in s.tables.approvals {
      var e := ApprovedBy(c, RowOf(address, c, now));
      assert s'.approvals == s.approvals + [e];
      assert e.row == RowOf(address, c, e.row.approvedAt) by { RowKeepsTime(address, c, now); }
      ApprovalAddsRow(s.tables.approvals.Keys, s.approvals, e);
      assert s'.tables.approvals.Keys == s.tables.approvals.Keys + {c.requestId};
    }
  }

  lemma RowKeepsTime(address: string -> string, c: Call, now: real)
    requires c.Paid?
    ensures RowOf(address, c, now).approvedAt == now
  {
  }

  lemma FinishedInv(address: string -> string, approved: bool)
    ensures CallInv(address, Finished(approved))
  {
  }

  // ------------------------------------------------------------------ what quotes keep when they do not overlap

  /** No two handles are at once between reading and writing the floor of one request id. */
  predicate NoOverlap(s: State, step: Step) {
    step.QuoteRead? ==> forall handle | handle in s.writing :: s.writing[handle].requestId != step.requestId
  }

  /** The floor a call has read is that of the prices recorded before. */
  predicate CallFloor(prices: seq<Recorded>, c: Call) {
    c.Priced? || c.Paid? ==>
      && c.seen <= |prices|
      && (Quoted(prices[..c.seen], c.requestId) ==> c.floor == Some(Floor(prices[..c.seen], c.requestId)))
  }

  predicate FloorIs(rows: map<string, int>, prices: seq<Recorded>, r: string) {
    (r in rows <==> Quoted(prices, r)) && (r in rows ==> rows[r] == Floor(prices, r))
  }

  ghost predicate FloorsInv(s: State) {
    && (forall r :: FloorIs(s.tables.prices, s.prices, r))
    && (forall id | id in s.calls :: CallFloor(s.prices, s.calls[id]))
    && (forall e | e in s.approvals :: CallFloor(s.prices, e.call))
    && (forall h | h in s.writing ::
         s.writing[h].floor == Max(Floor(s.prices, s.writing[h].requestId), s.writing[h].price))
    && (forall h, k | h in s.writing && k in s.writing && h != k :: s.writing[h].requestId != s.writing[k].requestId)
  }

  lemma RecordKeepsCall(prices: seq<Recorded>, r: Recorded, c: Call)
    requires CallFloor(prices, c)
    ensures CallFloor(prices + [r], c)
  {
    if c.Priced? || c.Paid? {
      assert (prices + [r])[..c.seen] == prices[..c.seen];
    }
  }

  lemma RecordFloor(prices: seq<Recorded>, last: Recorded, r: string)
    ensures Floor(prices + [last], r)
         == if last.requestId == r then Max(Floor(prices, r), last.price) else Floor(prices, r)
    ensures Quoted(prices + [last], r) <==> Quoted(prices, r) || last.requestId == r
  {
    var all := prices + [last];
    assert all[..|prices|] == prices;
    if i :| 0 <= i < |prices| && prices[i].requestId == r {
      assert all[i].requestId == r;
    }
    if last.requestId == r {
      assert all[|prices|].requestId == r;
    }
  }

  lemma StepKeepsFloors(address: string -> string, s: State, step: Step)
    requires FloorsInv(s) && Enabled(s, step) && NoOverlap(s, step)
    ensures FloorsInv(Next(address, s, step))
  {
    hide CheckedAmount, RowOf, Quoted, Floor;
    match step
    case QuoteRead(handle, requestId, price) =>
      NotQuotedFloor(s.prices, requestId);
      assert FloorIs(s.tables.prices, s.prices, requestId);
    case QuoteWrite(handle) => WriteKeepsFloors(address, s, handle);
    case QuoteFails(_) =>
    case DoExpiry(_, _) =>
    case Begin(_, _, _, _) =>
    case ReadApproval(_) =>
    case ReadExpiry(_, _) =>
    case ReadPrice(id) =>
      assert s.prices[..|s.prices|] == s.prices;
      assert FloorIs(s.tables.prices, s.prices, s.calls[id].requestId);
    case AskChain(_, _) =>
    case TryClaim(_, _) =>
  }

  lemma WriteKeepsFloors(address: string -> string, s: State, handle: nat)
    requires FloorsInv(s) && handle in s.writing
    ensures FloorsInv(Next(address, s, QuoteWrite(handle)))
  {
    hide CallFloor, Quoted, Floor;
    var w, s' := s.writing[handle], Next(address, s, QuoteWrite(handle));
    var last := Recorded(w.requestId, w.price);
    forall r ensures FloorIs(s'.tables.prices, s'.prices, r) {
      RecordFloor(s.prices, last, r);
      assert FloorIs(s.tables.prices, s.prices, r);
    }
    forall c | CallFloor(s.prices, c) ensures CallFloor(s'.prices, c) {
      RecordKeepsCall(s.prices, last, c);
    }
    forall h | h in s'.writing
      ensures Floor(s'.prices, s.writing[h].requestId) == Floor(s.prices, s.writing[h].requestId)
    {
      RecordFloor(s.prices, last, s.writing[h].requestId);
    }
  }

  // ------------------------------------------------------------------ runs

  ghost predicate IsRun(address: string -> string, s: State, steps: seq<Step>)
    decreases |steps|
  {
    steps == [] || (Enabled(s, steps[0]) && IsRun(address, Next(address, s, steps[0]), steps[1..]))
  }

  ghost function After(address: string -> string, s: State, steps: seq<Step>): State
    requires IsRun(address, s, steps)
    decreases |steps|
  {
    if steps == [] then s else After(address, Next(address, s, steps[0]), steps[1..])
  }

  /** Quotes of one request id do not overlap in the run. */
  ghost predicate Serial(address: string -> string, s: State, steps: seq<Step>)
    requires IsRun(address, s, steps)
    decreases |steps|
  {
    steps == [] || (NoOverlap(s, steps[0]) && Serial(address, Next(address, s, steps[0]), steps[1..]))
  }

  /** With one handle, whose lock spans a quote, they never do. */
  lemma {:induction false} OneHandleIsSerial(address: string -> string, s: State, steps: seq<Step>, handle: nat)
    requires IsRun(address, s, steps) && s.writing.Keys <= {handle}
    requires forall step | step in steps && step.QuoteRead? :: step.handle == handle
    ensures Serial(address, s, steps)
    decreases |steps|
  {
    if steps != [] {
      assert steps[0] in steps;
      OneHandleIsSerial(address, Next(address, s, steps[0]), steps[1..], handle);
    }
  }

  lemma {:induction false} RunKeepsInv(address: string -> string, s: State, steps: seq<Step>)
    requires Inv(address, s) && IsRun(address, s, steps)
    ensures Inv(address, After(address, s, steps))
    decreases |steps|
  {
    if steps == [] {
    } else {
      StepKeepsInv(address, s, steps[0]);
      RunKeepsInv(address, Next(address, s, steps[0]), steps[1..]);
    }
  }

  lemma {:induction false} RunKeepsFloors(address: string -> string, s: State, steps: seq<Step>)
    requires FloorsInv(s) && IsRun(address, s, steps) && Serial(address, s, steps)
    ensures FloorsInv(After(address, s, steps))
    decreases |steps|
  {
    if steps == [] {
    } else {
      StepKeepsFloors(address, s, steps[0]);
      RunKeepsFloors(address, Next(address, s, steps[0]), steps[1..]);
    }
  }

  const EMPTY_STATE := State(Tables(map[], map[], map[]), map[], map[], [], [])

  /** Over every interleaving of quotes and verifications, through any number of handles, from an empty store: no
      request id is approved twice; the rows stored are those of the approvals, each with its payment, its address and
      its amount; and that amount is the higher of what the caller named and the floor its call read, at a clock reading
      not past the expiry it read, and in on-chain mode shown by an entry of the history it was given. */
  lemma ApprovalsHold(address: string -> string, steps: seq<Step>)
    requires IsRun(address, EMPTY_STATE, steps)
    ensures var end := After(address, EMPTY_STATE, steps);
      && (forall e | e in end.approvals :: e.call.Paid?)
      && (forall i, j | 0 <= i < j < |end.approvals| ::
            end.approvals[i].call.requestId != end.approvals[j].call.requestId)
      && (forall r | r in end.tables.approvals ::
            exists e | e in end.approvals :: e.call.requestId == r && end.tables.approvals[r] == e.row)
      && (forall e | e in end.approvals ::
            && e.call.requestId in end.tables.approvals && end.tables.approvals[e.call.requestId] == e.row
            && e.row.txHash == e.call.txHash && e.row.paidAddress == address(e.call.requestId)
            && e.row.amountRaw == (if e.call.floor.Some? && e.call.floor.value > e.call.named then e.call.floor.value
                                   else e.call.named)
            && (e.call.expiry.Some? ==> e.call.clock <= e.call.expiry.value)
            && (e.call.onchain ==> exists i | 0 <= i < |e.call.history| ::
                  && e.call.history[i].hash == Some(e.row.txHash) && e.call.history[i].amount >= e.row.amountRaw
                  && (e.call.history[i].kind == "receive"
                      || (e.call.history[i].kind == "send" && e.call.history[i].account == e.row.paidAddress))))
  {
    RunKeepsInv(address, EMPTY_STATE, steps);
  }

  /** Where quotes of one id do not overlap: the recorded price is the maximum of 0 and all its quotes, and an approval
      is of at least every price quoted for the id before its call read the floor. */
  lemma FloorsHold(address: string -> string, steps: seq<Step>)
    requires IsRun(address, EMPTY_STATE, steps) && Serial(address, EMPTY_STATE, steps)
    ensures var end := After(address, EMPTY_STATE, steps);
      && (forall r :: r in end.tables.prices <==> Quoted(end.prices, r))
      && (forall r | r in end.tables.prices :: end.tables.prices[r] == Floor(end.prices, r))
      && (forall e | e in end.approvals ::
            && e.call.Paid? && e.call.seen <= |end.prices|
            && (forall k | 0 <= k < e.call.seen && end.prices[k].requestId == e.call.requestId ::
                  e.row.amountRaw >= end.prices[k].price))
  {
    hide Floor;
    RunKeepsInv(address, EMPTY_STATE, steps);
    RunKeepsFloors(address, EMPTY_STATE, steps);
    var end := After(address, EMPTY_STATE, steps);
    forall r ensures r in end.tables.prices <==> Quoted(end.prices, r)
      ensures r in end.tables.prices ==> end.tables.prices[r] == Floor(end.prices, r)
    {
      assert FloorIs(end.tables.prices, end.prices, r);
    }
    forall e, k | e in end.approvals && 0 <= k < e.call.seen && end.prices[k].requestId == e.call.requestId
      ensures e.row.amountRaw >= end.prices[k].price
    {
      var read := end.prices[..e.call.seen];
      assert read[k] == end.prices[k];
      FloorIsMaximum(read, e.call.requestId);
    }
  }

  // ------------------------------------------------------------------ quotes that overlap

  /** A quote through one handle that nobody interrupts is `record_quote_price`. */
  lemma QuoteIsItsSteps(address: string -> string, s: State, handle: nat, requestId: string, price: int)
    requires handle !in s.writing
    ensures var end := Next(address, Next(address, s, QuoteRead(handle, requestId, price)), QuoteWrite(handle));
      end.tables == RecordPrice(s.tables, requestId, price) && end.writing == s.writing
  {
  }

  /** The run that loses an update: the second handle reads before the first has written, and writes after it. */
  function LostUpdate(requestId: string, high: int, low: int): seq<Step> {
    [QuoteRead(0, requestId, high), QuoteRead(1, requestId, low), QuoteWrite(0), QuoteWrite(1)]
  }

  /** So the floor of two quotes can be the lower of them. */
  lemma OverlapLosesFloor(address: string -> string, requestId: string, high: int, low: int)
    requires high > low >= 0
    ensures IsRun(address, EMPTY_STATE, LostUpdate(requestId, high, low))
    ensures var end := After(address, EMPTY_STATE, LostUpdate(requestId, high, low));
      end.tables.prices == map[requestId := low] && Floor(end.prices, requestId) == high
  {
    var s0, steps := EMPTY_STATE, LostUpdate(requestId, high, low);
    var s1 := Next(address, s0, steps[0]);
    var s2 := Next(address, s1, steps[1]);
    var s3 := Next(address, s2, steps[2]);
    var s4 := Next(address, s3, steps[3]);
    assert steps[1..] == [steps[1], steps[2], steps[3]] && steps[1..][1..] == [steps[2], steps[3]];
    assert [steps[2], steps[3]][1..] == [steps[3]] && [steps[3]][1..] == [];
    assert IsRun(address, s3, [steps[3]]) && IsRun(address, s2, [steps[2], steps[3]]) && IsRun(address, s1, steps[1..]);
    assert After(address, s4, []) == s4 && After(address, s3, [steps[3]]) == s4;
    assert After(address, s2, [steps[2], steps[3]]) == s4 && After(address, s1, steps[1..]) == s4;
    assert s4.prices == [Recorded(requestId, high)] + [Recorded(requestId, low)];
    RecordFloor([], Recorded(requestId, high), requestId);
    RecordFloor([Recorded(requestId, high)], Recorded(requestId, low), requestId);
    assert [] + [Recorded(requestId, high)] == [Recorded(requestId, high)];
  }

  /** When a write lowers a floor, exactly: when the row is by then above all that its handle read and quotes. Then
      another handle has recorded a price for the id since. */
  lemma FloorFallsExact(address: string -> string, s: State, handle: nat, requestId: string, price: int,
                        between: seq<Step>)
    requires handle !in s.writing
    requires IsRun(address, Next(address, s, QuoteRead(handle, requestId, price)), between)
    requires forall step | step in between :: step != QuoteWrite(handle) && step != QuoteFails(handle)
    ensures var now := After(address, Next(address, s, QuoteRead(handle, requestId, price)), between);
      && handle in now.writing
      && now.writing[handle] == Writing(requestId, price, NewFloor(s.tables, requestId, price))
      && var row, end := Lookup(now.tables.prices, requestId).GetOr(0), Next(address, now, QuoteWrite(handle));
      && (end.tables.prices[requestId] < row <==> row > NewFloor(s.tables, requestId, price))
      && (end.tables.prices[requestId] < row ==>
           exists k | |s.prices| <= k < |now.prices| :: now.prices[k].requestId == requestId)
  {
    var read := Next(address, s, QuoteRead(handle, requestId, price));
    RunLeavesHandle(address, read, between, handle, requestId);
  }

  lemma {:induction false} RunLeavesHandle(address: string -> string, s: State, steps: seq<Step>, handle: nat,
                                           requestId: string)
    requires handle in s.writing && IsRun(address, s, steps)
    requires forall step | step in steps :: step != QuoteWrite(handle) && step != QuoteFails(handle)
    ensures var end := After(address, s, steps);
      && handle in end.writing && end.writing[handle] == s.writing[handle]
      && |s.prices| <= |end.prices| && end.prices[..|s.prices|] == s.prices
      && (Lookup(end.tables.prices, requestId) == Lookup(s.tables.prices, requestId)
         || exists k | |s.prices| <= k < |end.prices| :: end.prices[k].requestId == requestId)
    decreases |steps|
  {
    if steps != [] {
      assert steps[0] in steps && forall step | step in steps[1..] :: step in steps;
      var s' := Next(address, s, steps[0]);
      RunLeavesHandle(address, s', steps[1..], handle, requestId);
      var end := After(address, s, steps);
      assert end.prices[..|s.prices|] == end.prices[..|s'.prices|][..|s.prices|];
      if steps[0].QuoteWrite? && s.writing[steps[0].handle].requestId == requestId {
        assert end.prices[|s.prices|] == end.prices[..|s'.prices|][|s.prices|];
      }
    }
  }
}
