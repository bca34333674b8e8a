/** `nano_mcp/store.py`: approvals, quoted prices and quote expiries, one row per request id. */
module ApprovalStores {
  import opened Text

  datatype Approval = Approval(txHash: string, paidAddress: string, amountRaw: int, approvedAt: real)

  /** The three tables. */
  datatype Tables = Tables(approvals: map<string, Approval>, prices: map<string, int>, expiries: map<string, real>)

  function Lookup<K, V>(m: map<K, V>, key: K): Option<V> {
    if key in m then Some(m[key]) else None
  }

  function Max(a: int, b: int): int {
    if a >= b then a else b
  }

  /** What `record_quote_price` reads and then writes: two statements, between which another handle on the file can
      write. */
  function NewFloor(t: Tables, requestId: string, price: int): int {
    Max(Lookup(t.prices, requestId).GetOr(0), price)
  }

  function WriteFloor(t: Tables, requestId: string, floor: int): Tables {
    t.(prices := t.prices[requestId := floor])
  }

  /** `record_quote_price` that no other handle interrupts: the recorded floor only rises. */
  function RecordPrice(t: Tables, requestId: string, price: int): Tables {
    WriteFloor(t, requestId, NewFloor(t, requestId, price))
  }

  /** The tables with what another handle left of the quoted prices, if it wrote any. */
  function Meanwhile(t: Tables, prices: Option<map<string, int>>): Tables {
    if prices.Some? then t.(prices := prices.value) else t
  }

  function RecordExpiry(t: Tables, requestId: string, expiresAt: real): Tables {
    t.(expiries := t.expiries[requestId := expiresAt])
  }

  /** `claim`: the first insert for a request id wins. */
  function ClaimApproval(t: Tables, requestId: string, approval: Approval): (Tables, bool) {
    if requestId in t.approvals then (t, false)
    else (t.(approvals := t.approvals[requestId := approval]), true)
  }

  class ApprovalStore {
    var approvals: map<string, Approval>
    var prices: map<string, int>
    var expiries: map<string, real>

    constructor ()
      ensures Contents() == Tables(map[], map[], map[])
    {
      approvals, prices, expiries := map[], map[], map[];
    }

    function Contents(): Tables
      reads this
    {
      Tables(approvals, prices, expiries)
    }

    method Claim(requestId: string, txHash: string, paidAddress: string, amountRaw: int, now: real) returns (won: bool)
      modifies this`approvals
      ensures (Contents(), won)
           == ClaimApproval(old(Contents()), requestId, Approval(txHash, paidAddress, amountRaw, now))
    {
      if requestId in approvals {
        return false;
      }
      approvals := approvals[requestId := Approval(txHash, paidAddress, amountRaw, now)];
      return true;
    }

    method GetApproval(requestId: string) returns (r: Option<Approval>)
      ensures r == Lookup(approvals, requestId)
    {
      r := if requestId in approvals then Some(approvals[requestId]) else None;
    }

    method RecordQuoteExpiry(requestId: string, expiresAt: real)
      modifies this`expiries
      ensures Contents() == RecordExpiry(old(Contents()), requestId, expiresAt)
    {
      expiries := expiries[requestId := expiresAt];
    }

    method RecordQuotePrice(requestId: string, price: int, meanwhile: Option<map<string, int>>)
      modifies this`prices
      ensures Contents() == WriteFloor(Meanwhile(old(Contents()), meanwhile), requestId,
                                       NewFloor(old(Contents()), requestId, price))
      ensures meanwhile.None? ==> Contents() == RecordPrice(old(Contents()), requestId, price)
    {
      var recorded := if requestId in prices then prices[requestId] else 0;
      var floor := if recorded >= price then recorded else price;
      if meanwhile.Some? {
        prices := meanwhile.value;
      }
      prices := prices[requestId := floor];
    }

    method QuotePrice(requestId: string) returns (r: Option<int>)
      ensures r == Lookup(prices, requestId)
    {
      r := if requestId in prices then Some(prices[requestId]) else None;
    }

    method QuoteExpiry(requestId: string) returns (r: Option<real>)
      ensures r == Lookup(expiries, requestId)
    {
      r := if requestId in expiries then Some(expiries[requestId]) else None;
    }
  }

  /** What recording a price, an expiry or an approval does to the rows: the one row of the id, in its own table; a
      price row never falls, and ends at the price, at what it was, or at 0. */
  lemma RowsExact(t: Tables, requestId: string, price: int, expiresAt: real, approval: Approval, other: string)
    ensures var (priced, timed) := (RecordPrice(t, requestId, price), RecordExpiry(t, requestId, expiresAt));
      var (claimed, won) := ClaimApproval(t, requestId, approval);
      var was := if requestId in t.prices then t.prices[requestId] else 0;
      && priced.approvals == t.approvals && priced.expiries == t.expiries
      && priced.prices.Keys == t.prices.Keys + {requestId} && priced.prices[requestId] in {price, was}
      && priced.prices[requestId] >= price && priced.prices[requestId] >= was
      && (other in t.prices && other != requestId ==> priced.prices[other] == t.prices[other])
      && timed == Tables(t.approvals, t.prices, t.expiries[requestId := expiresAt])
      && (won <==> requestId !in t.approvals)
      && claimed == if won then Tables(t.approvals[requestId := approval], t.prices, t.expiries) else t
  {
  }
}
