# nano-mcp, modelled and verified

A Dafny 4.11 model of the payment-acceptance side of nano-mcp and of the codecs and arithmetic it rests on. `dafny verify dfyconfig.toml` checks all of it.

## What is modelled

A seller quotes a price, a buyer sends XNO to a one-time address, and a facilitator turns the block hash of that send into one served result, once. The model follows the money:

* **Single-use claims** (`ClaimKeys`, `ClaimTable`, `ClaimStores`, `ClaimRuns`). The spellings of a claim key in Python and in SQL; the migration of the `claims` table as a least closure; `ClaimStore` as a class with explicit transactions, every statement of which may raise; and runs of any number of stores, opening, closing, migrating, failing and claiming in any order, with the previous release writing in between. The stores refine one set of claimed classes.
* **Verify, settle, serve** (`Json`, `Facilitator`, `ResourceServer`, `Conservation`). Both halves of a request as arbitrary JSON with Python's truth and equality; the fail-closed loop over the endpoints; `settle`, `complete` and `execute`; and a ledger with endpoints that may lie, fail or stay silent, over which the service rendered is covered by payments received.
* **The other gates** (`PolicyText`, `SpendPolicy`, `ApprovalStores`, `Payments`, `SessionWallets`, `Mandates`). The operator's spend gate, its policy file and its ledger; quotes and approvals with `verify_payment` calls interleaved at every read; the session wallet under an owner's mandate; and the bytes a mandate is signed over.
* **Codecs and arithmetic** (`Numerals`, `Bytes`, `Hex`, `Decimals`, `Units`, `Amounts`, `Addresses`, `Blocks`, `VerifyMulti`, `Pricing`, `Hkdf`). Positional numerals carry base 32, bytes, hex and decimal text; on them, addresses and their two decoders, state blocks built and re-hashed, raw and nano text and the two amount readers, the multi-node verdict, the median and the exact ceiling, and HKDF, which the repository has twice, against RFC 5869.

What each operation reads off its input is also stated from the input itself, field by field or character by character (the lemmas named `...Exact`): the flags, fields and keywords of replies, payloads, ledger lines and policy files, the bytes of blocks, addresses and mandates, the digits of amounts, and the order in which guards are tried. The laws stand on those readings.

An object whose methods update fields is a class here, and each of its methods is proved equal to a step function on values (`ClaimStep`, `HandleStep`, `VerifyStep`, `SendStep`); the laws are then proved about that function, over all inputs and all runs. Digests, HMAC, Ed25519, UTF-8 and `repr` are function values the model is given; where a law needs that they do not collide, it says so, for the values at hand. Clocks, node replies and database failures are inputs, so a law holds whatever they are.

## What turned out not to hold as stated

* The old-spelling scan of a store whose migration is pending has no hex test. For keys of no recognised shape, which only direct callers of `claim` and `is_claimed` can pass, it finds rows of other keys: `ClaimStores.PendingStoreMisreadsUnrecognisedKey` has the input, and `ClaimStores.PendingStoreExact` says for which keys it is right (`HasFalseAlias`, a test on the key alone). `settle` only passes keys for which it is.
* A store that has completed its migration check is exact only while the table stays closed: `ClaimStores.TrustingStoreExact`. A write of the previous release keeps every open store exact if and only if all of them are still pending, or the written key's canonical key is stored or is that key itself: `ClaimRuns.AllowedExact`. Any other write settles its payment once through each release, from whatever state: `ClaimRuns.DisallowedWriteSettlesTwice`, and `ClaimRuns.MixedReleasesSettleTwice` from an empty table, as the upgrade notes warn.
* After a rollback the previous release settles again what this release settled, under any spelling nobody stored: `ClaimRuns.RollbackSettlesUnsentSpelling` has the run, and `ClaimRuns.SecondSettlementExact` says exactly which writes do.
* `parse_raw` reads a spelling without a point as raw, and `nano_str` prints a whole number of nano without one, so it reads that back as that many raw: `Amounts.ParseRawOfNanoStr` has the exact condition.
* Asked for more than 8160 bytes, one HKDF raises and the other returns 8160 bytes: `Hkdf.HkdfOneshot`, `Hkdf.HkdfBuyer`.
* The session wallet's daily cap needs a clock that does not go back a day, unless the mandate allows no more than one day's cap: `SessionWallets.DailyCapExact`, with the run in `SessionWallets.BackwardClockAlwaysPasses`. `SessionWallets.RollSafeExact` says when rolling is right, in terms of the clock and the counters.
* Both caps count acknowledged sends. A node that takes blocks and whose replies are lost gets any number of them: `SessionWallets.LostRepliesPublishWithoutBound`; `SessionWallets.PublishedWithinCapExact` says when what is published stays within the mandate.
* `record_quote_price` reads and writes in two statements under a lock of one object, so two handles on one file can lower a floor: `Payments.OverlapLosesFloor` has the run, `Payments.FloorFallsExact` the condition, and `Payments.FloorsHold` what holds where quotes of one id do not overlap.
* "Not yet paid" is also the answer when the first history entry that shows the payment has no hash, even if a later one shows it with its hash: `Payments.PendingMeansNoPayment`.
* `read_one` does not catch the AttributeError of a true reply that is not an object, nor the OverflowError of a balance outside 128 bits, so one such reply makes the whole verdict raise: `VerifyMulti.ReadOneRaisesExact` and `VerifyMulti.CallOutcomeExact` say exactly when, `VerifyMulti.OneReplyRaises` has inputs. Asking for no agreement indexes an empty list when nobody lied, no two blocks differ and none is confirmed, and only then: `VerifyMulti.VerdictExplained`.
* `state_block_hash` checks no field length. Contents that hash alike agree on account, previous, representative, balance and link exactly when their `previous` decode to as many bytes (`Blocks.RehashBindsFields`); every ordinary block has other contents with the same hash, in which `previous` has swallowed the next field (`Blocks.RecutHashesAlike`). Checking `previous` and `link` to be 64 hex characters would be enough (`Blocks.CheckedRehashBindsFields`). As it is, the comparison across nodes catches a recut link only where some node answers with the block itself (`VerifyMulti.RecutContradicts`).
* A hash covers nothing but those five fields (`Blocks.OtherKeysUnhashed`), so the payee and the amount of a pass are the nodes' word: `VerifyMulti.AnyPayeePasses`. A pass names the payee its link pays exactly when one of the nodes that carry the block does (`VerifyMulti.PassNamesPayeeExact`, `VerifyMulti.PassPaysRealPayee`). Comparing `link_as_account` with `link` would be enough for the payee (`VerifyMulti.ComparingIsEnough`).

## Model

| member | source | states |
|---|---|---|
| `ClaimKeys.CanonicalForms` | nano_mcp/facilitator.py:631-646 | on every key of the recognised shape the Python and SQL spellings of the canonical key are one string; any other key stands for itself |
| `ClaimKeys.CanonicalExact` | nano_mcp/facilitator.py:631-652 | the canonical form of a recognised key and the key of a claim, spelt out |
| `ClaimKeys.OtherKeysStand` | nano_mcp/facilitator.py:631-646 | no other key is recognised |
| `ClaimKeys.CanonicalFixedPoint` | nano_mcp/facilitator.py:631-646 | a recognised key is canonical exactly when its hash is upper case and a space follows it |
| `ClaimKeys.CanonicalIdempotent` | nano_mcp/facilitator.py:631-646 | canonicalising twice changes nothing |
| `ClaimKeys.PendingWhereExact` | nano_mcp/facilitator.py:427-438 | the migration's WHERE clause selects exactly the rows whose canonical key differs from them and is not stored |
| `ClaimKeys.OldSpellingExact` | nano_mcp/facilitator.py:448-456 | against a recognised canonical key the full scan finds exactly the rows of its class |
| `ClaimKeys.OldSpellingExactIff` | nano_mcp/facilitator.py:448-456 | for every canonical key, the scan finds only its class if and only if the key has no false alias |
| `ClaimKeys.FalseAlias` | nano_mcp/facilitator.py:448-456 | a key with a false alias is found by the scan under some other key |
| `ClaimKeys.ConsumptionKeyExact` | nano_mcp/facilitator.py:649-652 | two proofs share a claim key exactly when they name one block, up to hex case, for one request id |
| `ClaimTable.NeedsMigrationExact` | nano_mcp/facilitator.py:439-440 | nothing to migrate holds exactly when the table is closed under canonical keys |
| `ClaimTable.GroupsAreMissingClasses` | nano_mcp/facilitator.py:441-447 | the keys the migration adds are the classes held without their canonical key |
| `ClaimTable.MigrateIsLeastClosure` | nano_mcp/facilitator.py:441-447 | the migrated table is the least closed superset; old rows and times stay; no class appears or disappears |
| `ClaimTable.MigrateTakesEarliest` | nano_mcp/facilitator.py:443-446 | an added row has the earliest time of its class, and that of a row of it |
| `ClaimTable.MigrateIdempotent` | nano_mcp/facilitator.py:505-513 | a closed table is left alone, and migrating twice is migrating once |
| `ClaimStores.ClaimStore.constructor` | nano_mcp/facilitator.py:481-522 | an open performs one migration attempt, and succeeds whether that did or not |
| `ClaimStores.ClaimStore.MigrateLocked` | nano_mcp/facilitator.py:524-543 | a migration attempt with any of its statements failing changes the table only by migrating it, and stays pending unless the table was closed or got migrated |
| `ClaimStores.ClaimStore.ClaimSpellings` | nano_mcp/facilitator.py:548-597 | a claim is one migration attempt, if pending, and one transaction that is undone by any error or refusal |
| `ClaimStores.ClaimStore.Claim` | nano_mcp/facilitator.py:599-600 | a direct claim is that transaction on the canonical key alone |
| `ClaimStores.ClaimStore.IsClaimed` | nano_mcp/facilitator.py:602-610 | answers from the canonical row, or from the scan while the migration is pending |
| `ClaimStores.HeldMeansClassHeld` | nano_mcp/facilitator.py:563-575 | the one-key lookup, the full scan and the check of the key as sent all answer whether the class is held |
| `ClaimStores.ClaimStepMeaning` | nano_mcp/facilitator.py:562-597 | won only if no stored key is of the class, spent only if one is, exactly so without errors; an error or refusal leaves the table unchanged; a win adds the canonical key and the key as sent, now, and nothing else |
| `ClaimStores.FaultsExact` | nano_mcp/facilitator.py:562-597 | which database errors a claim of an unheld class meets, exactly |
| `ClaimStores.MigrateStepMeaning` | nano_mcp/facilitator.py:524-543 | an attempt that stays pending leaves the table unchanged, any other leaves exactly the migrated, closed table; no class, row or time is lost; and which faults leave it pending, exactly |
| `ClaimStores.ScanAgreesWithMigrated` | nano_mcp/facilitator.py:515-519 | a pending store on the old table and a store on the migrated one agree on every claim |
| `ClaimStores.TrustingStoreExact` | nano_mcp/facilitator.py:530-532 | a store that trusts one-key lookups is right about every key exactly when the table is closed |
| `ClaimStores.PendingStoreExact` | nano_mcp/facilitator.py:545-546 | a pending store is right about a key on every table exactly when the key has no false alias |
| `ClaimStores.PendingStoreMisreadsUnrecognisedKey` | nano_mcp/facilitator.py:602-610 | an input on which a pending store answers for a claim nobody made |
| `ClaimRuns.StepMeaning` | nano_mcp/facilitator.py:524-597 | each step keeps the invariant, loses no claim, and settles for this release only a class nobody held |
| `ClaimRuns.CallIsItsSteps` | nano_mcp/facilitator.py:548-597 | a whole claim call is a migration step, if the store is pending, followed by a claim step; so runs may interleave inside calls |
| `ClaimRuns.AllowedExact` | README.md:130-134 | a previous-release write keeps the invariant if and only if every open store is pending, or the written key's canonical key is stored or is that key itself |
| `ClaimRuns.DisallowedWriteSettlesTwice` | README.md:130-134 | from any sound state, a previous-release write against the rule settles, and then a migrated store settles the class again, for every spelling sent but that very one |
| `ClaimRuns.ExactlyOnce` | nano_mcp/facilitator.py:548-597 | in every run, what this release settles was held neither at the start nor by any earlier settlement of either release, in any spelling |
| `ClaimRuns.BlockSettlesOncePerRequest` | nano_mcp/facilitator.py:763-774 | a block that settled a request, through whatever store and release and under any hex case, is never settled for it by this release again; its claim is refused, or fails on a database fault |
| `ClaimRuns.SecondSettlementExact` | README.md:117-138 | what this release settled is settled again exactly by a previous-release write of a spelling that was not there before and that nobody stored |
| `ClaimRuns.SpellingStoredExact` | README.md:117-138 | after any run a spelling other than the canonical one is stored exactly if it was at the start or some step stored that very one |
| `ClaimRuns.RollbackSettlesUnsentSpelling` | README.md:135-138 | an allowed run, for every proof not in upper case: this release settles it in upper case, and after it is closed the previous release settles it again as spelt |
| `ClaimRuns.RollbackFindsTheKeyAsSent` | README.md:117-121 | after any further run, the previous release finds the canonical key and the key as sent of what this release settled |
| `ClaimRuns.RunRefinesSet` | nano_mcp/facilitator.py:477-610 | every run of any number of stores, with claims and migrations failing and the previous release writing where it may, settles what one set of classes would; a failed claim is a stutter |
| `ClaimRuns.SettleClaimable` | nano_mcp/facilitator.py:765-767 | the key and the key as sent that settle passes are of one recognised class |
| `ClaimRuns.MixedReleasesSettleTwice` | README.md:130-134 | for every proof not in upper case, a run of both releases at once that settles it twice |
| `Json.EqualToString` | nano_mcp/facilitator.py:825-836 | Python equality with a string holds for that string only, on every JSON value |
| `Json.EqualityExact` | nano_mcp/facilitator.py:825-849 | Python equality across kinds: numbers by value, True as 1; null and strings only with themselves |
| `Json.EqualityChains` | nano_mcp/facilitator.py:825-849 | Python equality is symmetric and transitive on every JSON value |
| `Json.NonBlankExact` | nano_mcp/facilitator.py:852-865 | a required section is there if it is a string with something other than blanks in it, or a true value of another kind |
| `Facilitator.ReadReplyExact` | nano_mcp/facilitator.py:342-388 | one endpoint confirms exactly when its reply normalises to a confirmed send of the amount to the payee, and what is recorded is what the block says |
| `Facilitator.StateBlockReplyReads` | nano_mcp/facilitator.py:154-251 | a real node's state-block reply is read with its payee from `link_as_account`, with contents as an object or as text |
| `Facilitator.ConfirmedFlagExact` | nano_mcp/facilitator.py:184-191 | a flag confirms exactly if it is true, or text that without outer blanks spells "true" in some case (other JSON through its repr) |
| `Facilitator.ContentsExact` | nano_mcp/facilitator.py:154-171 | the contents are an object, or text that reads as one; anything else counts as none |
| `Facilitator.NormalizeExact` | nano_mcp/facilitator.py:174-251 | when a reply is malformed, and each normalised field as the first true value of the fields it is looked for in |
| `Facilitator.ReadingExact` | nano_mcp/facilitator.py:342-385 | which cause an endpoint fails for, or what send it confirms, exactly |
| `Facilitator.VerifyBlock` | nano_mcp/facilitator.py:295-395 | the loop over the endpoints computes the result of asking all of them |
| `Facilitator.FoldsMeaning` | nano_mcp/facilitator.py:342-395 | no failure means that all vouch; sends and failures add up to the endpoints; every send recorded is of this block, payee and amount |
| `Facilitator.VerificationExact` | nano_mcp/facilitator.py:295-395 | ok exactly when there are two endpoints or more, the amount is plain and positive, and every endpoint vouches |
| `Facilitator.OkMeansConfirmedSends` | nano_mcp/facilitator.py:342-395 | ok means that every endpoint answered with a flag that says true, a send, the amount and the payee |
| `Facilitator.RefusalExact` | nano_mcp/facilitator.py:310-395 | what a verification that fails reports, and how many it consulted |
| `Facilitator.SendsInOrder` | nano_mcp/facilitator.py:374-385 | when all vouch, there is one recorded send an endpoint, in the order of the endpoints, each what that endpoint said |
| `Facilitator.EveryEndpointCounted` | nano_mcp/facilitator.py:390-395 | confirmed count plus failures is the number consulted |
| `Facilitator.FirstCauseExact` | nano_mcp/facilitator.py:386-394 | the reported reason is the first failure with a message |
| `Facilitator.CheckExact` | nano_mcp/facilitator.py:809-907 | on every pair of JSON values the check passes exactly when both halves name one payment, with a usable amount and a payee |
| `Facilitator.ReasonNamesConstant` | nano_mcp/facilitator.py:825-836 | a consistent request with another scheme, network or asset in its requirements is refused with that very reason |
| `Facilitator.ReasonNamesMismatch` | nano_mcp/facilitator.py:837-849 | a consistent request whose required amount or payee is changed, or whose extra is not an object, is refused with that very reason |
| `Facilitator.ExpectedRawMeaning` | nano_mcp/facilitator.py:96-118 | a JSON integer is raw, a plain string is what parse_raw reads; only positive ones, and nothing else, are amounts |
| `Facilitator.Facilitator.Verify` | nano_mcp/facilitator.py:691-723 | verify reaches the specified verdict on every JSON value |
| `Facilitator.ValidReports` | nano_mcp/facilitator.py:714-723 | an accepting verdict names the first endpoint's payer, the amount asked for, and as many confirmations as endpoints |
| `Facilitator.VerdictExact` | nano_mcp/facilitator.py:691-723 | which verdict verify gives, exactly, and what it counts |
| `Facilitator.ProofExact` | nano_mcp/facilitator.py:613-625 | the proof is the text of `payload.paymentProof`, and counts if it is 64 hex characters |
| `Facilitator.RequestIdExact` | nano_mcp/facilitator.py:763-766 | the request id is the text of `extra.requestId`, or nothing |
| `Facilitator.Facilitator.Settle` | nano_mcp/facilitator.py:725-783 | settle verifies again, then makes exactly one claim, of the canonical key and the key as sent, and reports it |
| `Facilitator.SettlementExact` | nano_mcp/facilitator.py:725-783 | what settle reports before and after its claim: the proof as sent, and payer and amount of the first endpoint's send |
| `Facilitator.SettleClaimsIffVerifyAccepts` | nano_mcp/facilitator.py:691-783 | given the same replies, settle claims for exactly the requests verify accepts |
| `Facilitator.ClaimMeansVouched` | nano_mcp/facilitator.py:725-783 | a claim is attempted exactly when the request is consistent, the proof is a hash and every endpoint vouches; it is of that proof and request id |
| `ResourceServer.ResourceApp.Complete` | nano_mcp/httpx402.py:197-251 | serves only on a won claim; a refused payload, an id that does not encode or a failed verification touches no claim |
| `ResourceServer.PaidToolServer.Execute` | nano_mcp/paidtool.py:97-133 | on a won claim the registered tool's own body comes back, a tool that raises raises, and a name not registered reads ok; the settlement names the proof, and payer and amount as the first endpoint had them; otherwise no tool is run |
| `ResourceServer.PlanComplete` | nano_mcp/httpx402.py:214-250 | nothing is served without a claim |
| `ResourceServer.RequirementsShape` | nano_mcp/httpx402.py:90-111 | the offer for a request, key by key |
| `ResourceServer.PayloadShape` | nano_mcp/httpx402.py:114-122 | the payload a client builds, key by key |
| `ResourceServer.PlanToServe` | nano_mcp/httpx402.py:219-242 | on every JSON payload, a claim is attempted exactly when the payload names an id that encodes, accepts what the server would issue for it with a block hash as proof, and two endpoints or more all vouch for the payment to the address of that id, twice |
| `ResourceServer.RequestedIdExact` | nano_mcp/httpx402.py:214-224 | the request id is the text of `accepted.extra.requestId`, if there is any |
| `ResourceServer.AcceptedMatchesExact` | nano_mcp/httpx402.py:126-139 | what has to be accepted, spelt out: scheme, network, asset, price, address and request id |
| `ResourceServer.AnswerExact` | nano_mcp/httpx402.py:214-250 | which refusal complete gives before it claims, exactly |
| `ResourceServer.ServedReports` | nano_mcp/httpx402.py:242-251 | what is reported for a claim that is won, spent or raises |
| `ResourceServer.ExecutePlanExact` | nano_mcp/paidtool.py:106-118 | an honest execute gets to its claim exactly when the endpoints vouch, at verify and again at settle |
| `Conservation.VouchedIsOnLedger` | nano_mcp/facilitator.py:342-395 | one truthful endpoint among those that vouch puts the payment on the ledger |
| `Conservation.StepKeepsInv` | nano_mcp/httpx402.py:232-251 | every step keeps that served results are pairwise distinct, each paid for on the ledger and claimed |
| `Conservation.ServeIsComplete` | nano_mcp/httpx402.py:232-251 | a serving step of a run is what complete does: its plan, one claim on the shared table, and a service exactly when that is won |
| `Conservation.BlocksServeOnce` | nano_mcp/httpx402.py:144-149 | no block serves twice, for one request or for two |
| `Conservation.ServiceIsPaidFor` | nano_mcp/httpx402.py:140-149 | over every run, each served result has its own confirmed send for the price; served count times price is at most what the addresses received |
| `Conservation.DerivedAddressesDistinct` | nano_mcp/oneshot.py:52-60 | one-time addresses derived from the request ids are distinct, unless a primitive collides on them |
| `SpendPolicy.Gate.Handle` | examples/spend_policy.py:120-149 | reads the ledger, decides, appends the decision, and hands out signing parameters exactly on allow; a ledger that cannot be read or added up denies or raises, and is left alone |
| `SpendPolicy.UnreadableLedgerDenies` | examples/spend_policy.py:128-139 | a ledger is read to its end exactly when every line is a record and every approval whole; on any other, nothing is allowed or written |
| `SpendPolicy.AllowExact` | examples/spend_policy.py:77-102 | on every ledger, allowed exactly when the ledger reads and adds up and the request is well formed, not a duplicate, to a listed key, within the per-call cap and today's remainder; and the remainder reported |
| `SpendPolicy.ReasonExact` | examples/spend_policy.py:77-102 | which reason a verdict gives, exactly: the first that applies, in the order of the checks |
| `SpendPolicy.AmountExact` | examples/spend_policy.py:84 | an amount is exactly a text of 1 to 39 digits, not all zero |
| `SpendPolicy.AppendExact` | examples/spend_policy.py:140-145 | the line a call appends, field by field, and what it adds to a day's total |
| `SpendPolicy.TotalExact` | examples/spend_policy.py:98 | a day's total is what its approvals add up to |
| `SpendPolicy.FaultExact` | examples/spend_policy.py:128-139 | the first bad line of a ledger decides, and how |
| `SpendPolicy.DenialIsTrue` | examples/spend_policy.py:79-101 | on every ledger, each reason for a denial is true of the request and of the whole ledger |
| `SpendPolicy.HandleKeepsInv` | examples/spend_policy.py:120-149 | one call keeps every cap; a denial consumes nothing; the remainder reported is the cap minus the new total |
| `SpendPolicy.GateHolds` | examples/spend_policy.py:77-149 | from an empty ledger, over all requests and clock readings in any order: daily caps, distinct ids, positive amounts within the per-call cap to listed keys |
| `SpendPolicy.CapsFollowPolicies` | examples/spend_policy.py:77-149 | on any ledger and under policies that change, a day's total is within the daily cap in force at its last approval, and a day without one keeps its total |
| `SpendPolicy.ChangingPoliciesHold` | examples/spend_policy.py:77-149 | from an empty ledger under policies that change: distinct ids, and every approval within the caps and the list of its own policy |
| `PolicyText.ParsePolicy` | examples/spend_policy.py:30-70 | the loop gathers what the lines say one after the other, and stops at the first bad one |
| `PolicyText.DraftExact` | examples/spend_policy.py:34-63 | the lines are accepted exactly when all read and no cap is given twice; the draft holds what they say |
| `PolicyText.AllowInOrder` | examples/spend_policy.py:55-61 | receivers are listed in the order they are first named in |
| `PolicyText.PolicyExact` | examples/spend_policy.py:64-70 | a policy comes out exactly when, besides, both caps and a receiver are there and the per-call cap is within the daily one; it has those positive caps and, once each, those receivers |
| `PolicyText.WordsExact` | examples/spend_policy.py:36-41 | a line has two words exactly if it is those words with blanks around and between them and perhaps a comment behind |
| `PolicyText.EntryExact` | examples/spend_policy.py:36-63 | what a line is taken for, by its characters: nothing, a cap under its keyword, or an allowed key |
| `PolicyText.AcceptedTextExact` | examples/spend_policy.py:30-68 | a file is accepted exactly when every line is blank, sets a cap under its keyword or allows an address, each cap is set once, an address is allowed, and the per-call cap is within the daily one |
| `PolicyText.PolicyTextMeans` | examples/spend_policy.py:42-70 | the policy has the cap of the `per_call_max_xno` line, the cap of the `daily_max_xno` line, and exactly the keys of the `allow` lines |
| `ApprovalStores.ApprovalStore.Claim` | nano_mcp/store.py:71-92 | the first claim of a request id wins and is recorded; any later one changes nothing |
| `ApprovalStores.ApprovalStore.RecordQuotePrice` | nano_mcp/store.py:119-138 | writes the maximum of 0, the row read and the new price, over whatever another handle wrote in between |
| `ApprovalStores.ApprovalStore.RecordQuoteExpiry` | nano_mcp/store.py:107-116 | the expiry becomes the new one; the other tables stay |
| `ApprovalStores.RowsExact` | nano_mcp/store.py:71-138 | a price, an expiry or an approval touches the row of its id in its own table only, and what it leaves there |
| `Payments.PaymentService.Quote` | nano_mcp/service.py:108-112 | records the price for the given or new id, over whatever another handle writes meanwhile, and gives its address |
| `Payments.PaymentService.QuoteUsd` | nano_mcp/service.py:114-140 | quotes the least raw worth the price at the rate, records an expiry 30 seconds on and then that price; a failing rate source or an unusable price or rate records nothing |
| `Payments.PaymentService.OnchainPaid` | nano_mcp/service.py:142-168 | the hash of the first history entry that shows a payment of at least the amount |
| `Payments.PaymentService.VerifyPayment` | nano_mcp/service.py:170-250 | approves at most once, never past expiry, at no less than the quote, also when a rival call gets in first |
| `Payments.StatusExact` | nano_mcp/service.py:170-250 | which status a call gives, exactly, and what it stores; the amount is the higher of the named and the quoted one |
| `Payments.PaymentIsInHistory` | nano_mcp/service.py:156-168 | a chain answer comes from the first entry that shows the payment |
| `Payments.FirstPaymentAnswers` | nano_mcp/service.py:156-168 | conversely, the hash of the first entry that receives, or sends from the address, at least the amount is the answer |
| `Payments.PendingMeansNoPayment` | nano_mcp/service.py:156-168 | no answer means exactly that no entry shows the payment, or that the first that shows it has no hash |
| `Payments.FloorIsMaximum` | nano_mcp/store.py:119-138 | the floor of a list of quotes is the maximum of 0 and the prices for the id |
| `Payments.SoloIsVerifyPayment` | nano_mcp/service.py:170-250 | the interleaved steps of a call nobody interrupts are verify_payment |
| `Payments.RacedIsVerifyPayment` | nano_mcp/service.py:229-243 | the branch where another call gets in first is that interleaving: the rival's row is kept, and this call is not approved |
| `Payments.StepKeepsInv` | nano_mcp/service.py:170-250 | each read or write of any call keeps what every call has read true |
| `Payments.ApprovalsHold` | nano_mcp/service.py:170-250 | over all interleavings of any number of handles: no id is approved twice, the stored rows are those of the approvals, each of the higher of the named amount and the floor its call read, in time, and shown by an entry of its history that receives, or sends from the address, at least that amount |
| `Payments.FloorsHold` | nano_mcp/store.py:119-138 | where quotes of one id do not overlap, recorded prices are maxima, and every approval is of at least every quote before its read |
| `Payments.OneHandleIsSerial` | nano_mcp/store.py:125-138 | with one handle, whose lock spans a quote, quotes never overlap |
| `Payments.QuoteIsItsSteps` | nano_mcp/store.py:125-138 | a read and a write that nobody interrupts record the maximum |
| `Payments.OverlapLosesFloor` | nano_mcp/store.py:125-138 | a run of two handles on one file that leaves the lower of two quotes as the floor |
| `Payments.FloorFallsExact` | nano_mcp/store.py:125-138 | a write lowers the floor exactly when the row is by then above what its handle read and quotes; then another handle recorded a price for the id in between |
| `SessionWallets.SessionWallet.Open` | nano_sdk/buyer.py:216-239 | refuses a mandate bound elsewhere or not verifying at the first clock reading; otherwise starts with nothing spent on the day of the second |
| `SessionWallets.SessionWallet.CheckSpend` | nano_sdk/buyer.py:242-263 | the check rolls the day only after the session guard, and raises as specified |
| `SessionWallets.SessionWallet.Send` | nano_sdk/buyer.py:275-327 | only an accepted send is recorded, on the day at recording |
| `SessionWallets.CheckExact` | nano_sdk/buyer.py:205-213 | the check passes exactly when all six documented guards do |
| `SessionWallets.GuardExact` | nano_sdk/buyer.py:242-263 | which guard a check fails at, exactly, and the counters it leaves |
| `SessionWallets.SendExact` | nano_sdk/buyer.py:275-327 | what a send comes to, exactly, and the counters it leaves |
| `SessionWallets.DayExact` | nano_sdk/buyer.py:268-269 | days are 86400 seconds from second 0, the clock cut towards it |
| `SessionWallets.PublishedIsChecked` | nano_sdk/buyer.py:288-322 | whatever reaches the node passed every guard and leaves a balance in 0 to 2^128 - 1 |
| `SessionWallets.PublishedBlockExact` | nano_sdk/buyer.py:290-317 | the published block, field by field, with its signature |
| `SessionWallets.RollExact` | nano_sdk/buyer.py:268-272 | rolling keeps the daily counter true exactly when nothing was spent on the new day |
| `SessionWallets.RollSafeExact` | nano_sdk/buyer.py:268-272 | in terms of clock and counters: rolling is right for every history behind them exactly when the clock is at or after the day seen, or nothing was spent before it |
| `SessionWallets.CapsHold` | nano_sdk/buyer.py:241-327 | with a clock that never goes back a day: the session counter is the sum of accepted sends within the mandate's cap, and each day's sends stay within the daily cap |
| `SessionWallets.BackwardClockPassesDailyCap` | nano_sdk/buyer.py:268-272 | with the clock going back, two sends accepted around a check on the next day add up past the daily cap of one day |
| `SessionWallets.BackwardClockAlwaysPasses` | nano_sdk/buyer.py:241-327 | every wallet whose mandate allows more than one day's cap has such a run, and here it is |
| `SessionWallets.DailyCapExact` | nano_sdk/buyer.py:241-327 | the daily cap holds under every clock exactly for wallets whose mandate allows no more than one day's cap, or that can send nothing |
| `SessionWallets.PublishedWithinCapExact` | nano_sdk/buyer.py:309-327 | all that is put before the node stays within the mandate's cap exactly when what was not acknowledged is no more than `available_session`; always, if nothing is lost |
| `SessionWallets.LostRepliesPublishWithoutBound` | nano_sdk/buyer.py:309-327 | a node whose replies are lost gets any number of blocks, and neither cap is used up |
| `SessionWallets.SentExact` | nano_sdk/buyer.py:275-327 | a block is published exactly when destination, check, frontier, work, representative and balance allow it, and the send accepted exactly when, besides, the node takes it |
| `Mandates.PeelLast` | nano_sdk/buyer.py:124 | a NUL-free last field is determined by the joined bytes |
| `Mandates.PeelFirst` | nano_sdk/buyer.py:124 | a NUL-free first field is determined by the joined bytes |
| `Mandates.JoinInjective` | nano_sdk/buyer.py:112-124 | eight joined fields are determined even if the third holds NULs |
| `Mandates.CanonicalInjective` | nano_sdk/buyer.py:112-124 | the signed bytes determine every field of a mandate with a valid address, whatever its session id holds |
| `Mandates.CanonicalExact` | nano_sdk/buyer.py:112-124 | the signed bytes are these eight texts with a NUL between each two |
| `Mandates.VerifyExact` | nano_sdk/buyer.py:171-199 | which thing is found wrong with a mandate, exactly |
| `Mandates.SignatureBindsGrant` | nano_sdk/buyer.py:171-199 | if signatures verify only for the bytes of the mandates the owner issued, every mandate that passes grants what one of those does |
| `Addresses.B32Decode` | nano_sdk/crypto.py:36-40 | the loop computes the base-32 value |
| `Addresses.B32DecodesWhatItEncodes` | nano_sdk/crypto.py:31-40 | decoding a fixed-width encoding gives the number back |
| `Addresses.B32EncodesWhatItDecodes` | nano_sdk/crypto.py:31-40 | encoding a decoded string gives the string back |
| `Addresses.NeverTooWide` | nano_sdk/crypto.py:107-111 | the refusal of a key wider than 256 bits is unreachable once the first character matched |
| `Addresses.DecodeInvertsEncode` | nano_sdk/crypto.py:76-115 | every key decodes from its address, under either prefix |
| `Addresses.EncodeInvertsDecode` | nano_sdk/crypto.py:92-115 | an accepted address is its key's address, but for the prefix |
| `Addresses.AddressInjective` | nano_sdk/crypto.py:76-89 | two keys never share an address |
| `Addresses.AddressLayout` | nano_sdk/crypto.py:76-89 | the 65 characters of an address: the prefix, the key's digits, and the digest's bytes from last to first |
| `Addresses.AddressShape` | nano_sdk/crypto.py:28 | a spelling has the shape of an address exactly when it is one of the two prefixes, 1 or 3, and 59 characters of the alphabet |
| `Addresses.AccountToPubkey` | nano_mcp/verify_multi.py:36-50 | the second decoder accepts the same strings as the first, with the same keys |
| `Blocks.BuiltBlockRehashes` | nano_sdk/block.py:74-110 | a block the SDK built re-hashes, in the verifier, to the hash it was signed under |
| `Blocks.BuiltBlockNamesDestination` | nano_sdk/block.py:95-110 | link and link_as_account name one key, and the signature is of the block's own hash |
| `Blocks.BuildSucceedsExact` | nano_sdk/block.py:90-97 | a send block is built exactly when the lengths, both addresses and the balance are in range |
| `Blocks.BlockLayout` | nano_sdk/block.py:45-52 | the 176 bytes are preamble, account, previous, representative, big-endian balance and link, at these offsets |
| `Blocks.PreambleExact` | nano_sdk/block.py:45-46 | the preamble is thirty-one zero bytes and a six |
| `Blocks.BuiltBlockExact` | nano_sdk/block.py:95-110 | a built block, field by field, with its signature |
| `Blocks.BlockBytesInjective` | nano_sdk/block.py:31-52 | the 176 bytes determine account, previous, representative, balance and link |
| `Blocks.PreimageInjective` | nano_mcp/verify_multi.py:53-61 | for equal preimages, all five fields agree exactly when the two `previous` have one length |
| `Blocks.RehashBindsFields` | nano_mcp/verify_multi.py:53-61 | for equal hashes without a blake2b collision, the five decoded fields agree exactly when the two `previous` decode to as many bytes |
| `Blocks.CheckedRehashBindsFields` | nano_mcp/verify_multi.py:53-61 | checking `previous` and `link` to be 64 hex characters would make equal hashes mean equal fields |
| `Blocks.RecutHashesAlike` | nano_mcp/verify_multi.py:53-61 | without that check, every such block has contents that hash the same with another `previous` and another link |
| `Blocks.OtherKeysUnhashed` | nano_mcp/verify_multi.py:53-61 | whatever any key but the five holds, `link_as_account` for one, the contents hash alike |
| `Blocks.BalanceExact` | nano_mcp/verify_multi.py:59 | a balance may be text that reads as an integer, or any number, cut towards 0 |
| `Hex.HexRoundTrip` | nano_sdk/block.py:103-106 | hex text in either case reads back as its bytes |
| `Hex.HexTextExact` | nano_sdk/block.py:103-106 | a byte is printed as its two hex digits, the high one first |
| `Hex.FromHexExact` | nano_mcp/verify_multi.py:53-61 | fromhex from the left: a blank is skipped, two hex digits are a byte, anything else is refused |
| `VerifyMulti.ReadAll` | nano_mcp/verify_multi.py:98 | one reading a node, in order, or the exception read_one lets through |
| `VerifyMulti.ReadOneRaisesExact` | nano_mcp/verify_multi.py:71-91 | on every JSON reply, read_one raises exactly on a true value that is not an object, and on state contents that decode up to a balance outside 128 bits, in text or as a number |
| `VerifyMulti.VerifyBlockMulti` | nano_mcp/verify_multi.py:94-123 | refuses a malformed hash before asking; raises exactly when some reply breaks its reading; otherwise judges one reading a node |
| `VerifyMulti.PassMeansConfirmed` | nano_mcp/verify_multi.py:71-123 | a pass means that at least `min_agree` replies carry the block with a flag that says true and that none lies; one lie, where none raises, is a refusal |
| `VerifyMulti.StatusExact` | nano_mcp/verify_multi.py:71-91 | how a node is read, exactly, from its reply, and the block it is taken to carry |
| `VerifyMulti.SaysConfirmedExact` | nano_mcp/verify_multi.py:89-90 | a flag confirms exactly if it is true or text that spells "true" in some case (other JSON through its repr) |
| `VerifyMulti.CallOutcomeExact` | nano_mcp/verify_multi.py:94-123 | when a call refuses or raises, in terms of its replies and arguments |
| `VerifyMulti.OneReplyRaises` | nano_mcp/verify_multi.py:53-79 | inputs: one node that answers `"busy"`, `[1]`, or a balance of -1 in text or as a number makes the whole call raise, whatever the others say |
| `VerifyMulti.PassExact` | nano_mcp/verify_multi.py:98-123 | for every min_agree: a pass, a wrong payee and a wrong amount on a block, exactly: nobody hash-false, every block carried is this one, enough confirmed it, and it is or is not as expected |
| `VerifyMulti.VerdictExplained` | nano_mcp/verify_multi.py:102-121 | the other verdicts exactly: someone lied; else two blocks differ; else too few agree; and the empty list is indexed exactly when min_agree is at most 0 and none agrees |
| `VerifyMulti.OkCountIsOrderFree` | nano_mcp/verify_multi.py:99 | the number of confirmed readings does not depend on order |
| `VerifyMulti.VerdictIsOrderFree` | nano_mcp/verify_multi.py:94-123 | the verdict does not depend on the order of the nodes |
| `VerifyMulti.SilenceChangesNothing` | nano_mcp/verify_multi.py:94-123 | a node that errors or does not know the block never changes a verdict |
| `VerifyMulti.RecutReadsAlike` | nano_mcp/verify_multi.py:71-91 | a node that answers with the recut contents is read as one that answers with the block, but for the link |
| `VerifyMulti.RecutContradicts` | nano_mcp/verify_multi.py:105-108 | two nodes that answer so contradict each other |
| `VerifyMulti.AnyPayeePasses` | nano_mcp/verify_multi.py:84-123 | for every block, payee and amount: if all nodes answer with that payee and amount, the verdict is a pass for them |
| `VerifyMulti.PassNamesPayeeExact` | nano_mcp/verify_multi.py:84-123 | a pass names the payee that its link pays exactly when some node that carries the block names it so |
| `VerifyMulti.PassPaysRealPayee` | nano_mcp/verify_multi.py:53-123 | given one carrier of 64-hex fields, that link is the one of the block sent, so one honest carrier makes the pass name its payee |
| `VerifyMulti.ComparingIsEnough` | nano_mcp/verify_multi.py:81-91 | comparing `link_as_account` with `link` in each reading would make every pass name the payee its link pays, and changes no honest reading |
| `VerifyMulti.BuiltBlockReadsOk` | nano_mcp/verify_multi.py:71-91 | an SDK-built block, returned confirmed under its hash, reads as ok with its own fields |
| `Decimals.NatRoundTrip` | nano_sdk/block.py:105 | printed decimal digits spell the number printed |
| `Decimals.DecimalRoundTrip` | nano_sdk/units.py:31 | the text of any Decimal, plain or scientific, reads back as that Decimal |
| `Decimals.DigitsExact` | nano_sdk/block.py:105 | decimal digits, printed and read one by one |
| `Decimals.ParseIntExact` | nano_mcp/verify_multi.py:59 | int reads blanks around, a sign, and digits with single underscores between them; nothing else |
| `Decimals.ParseDecimalReads` | nano_sdk/units.py:31 | Decimal reads a sign, digits with a point anywhere, and an exponent of either case and sign |
| `Decimals.ParseDecimalRefuses` | nano_sdk/units.py:31 | and no character but those of a number |
| `Units.ToRawExact` | nano_sdk/units.py:23-46 | converts exactly when the value is a non-negative whole number of raw, and then to it |
| `Units.PlainToRaw` | nano_sdk/units.py:23-46 | a plain decimal of at most 30 places converts to its digits, scaled |
| `Units.RawToNanoRoundTrip` | nano_sdk/units.py:49-53 | nano_to_raw undoes raw_to_nano, and refuses a negative amount |
| `Units.NanoStrIsTrimmed` | nano_sdk/units.py:56-65 | no trailing zero after a point, no trailing point |
| `Units.NanoStrRoundTrip` | nano_sdk/units.py:56-65 | nano_to_raw undoes nano_str on every raw amount |
| `Units.NanoStrNegative` | nano_sdk/units.py:56-65 | a negative amount prints as its absolute value after a minus sign |
| `Amounts.ParseRawOfAmount` | nano_mcp/facilitator.py:74-83 | what parse_raw reads off every plain amount; the 30-digit cut drops no digit |
| `Amounts.ParseRawWithPoint` | nano_mcp/facilitator.py:74-83 | with a point: a sign, any digits before it or none, and the first thirty after it; the sign goes with the whole part only |
| `Amounts.ParseRawOfBlanks` | nano_mcp/facilitator.py:74-83 | blanks around are not read, and no text at all reads as 0 |
| `Amounts.ReadersAgree` | nano_mcp/facilitator.py:74-98 | on every plain amount parse_raw and nano_to_raw agree, up to the unit of a spelling without a point |
| `Amounts.ParseRawOfNanoStr` | nano_mcp/facilitator.py:74-83 | parse_raw undoes nano_str exactly unless the amount is a positive whole number of nano, and then reads that number |
| `Pricing.FetchMedian` | nano_mcp/pricing.py:80-92 | the median of the sources that answered, if at least two did |
| `Pricing.RatesExact` | nano_mcp/pricing.py:84-90 | the rates are those of the sources that answered, each once, in order |
| `Pricing.NanoInRaw` | nano_mcp/pricing.py:128-131 | a nano is 10^30 raw |
| `Pricing.SortedSorts` | nano_mcp/pricing.py:72 | sorting orders the rates and keeps how many lie in any range |
| `Pricing.MedianIsOrderFree` | nano_mcp/pricing.py:66-77 | the median depends on the rates, not on their order |
| `Pricing.MedianOfFew` | nano_mcp/pricing.py:66-77 | the mean of two rates, the middle one of three |
| `Pricing.MedianFollowsMajority` | nano_mcp/pricing.py:66-77 | a strict majority inside a range puts the median inside it |
| `Pricing.HalfIsNotEnough` | nano_mcp/pricing.py:66-77 | an input with half of the rates inside and the median outside |
| `Pricing.QuoteIsLeast` | nano_mcp/pricing.py:95-134 | the quote is the least number of raw worth the price at the rate |
| `Pricing.QuoteAntitone` | nano_mcp/pricing.py:95-134 | a higher rate never asks for more |
| `Pricing.QuoteRefusesExact` | nano_mcp/pricing.py:118-128 | a quote is refused exactly for a price or rate that is not positive |
| `Pricing.MajorityBoundsQuote` | nano_mcp/pricing.py:66-134 | with a strict majority of rates between two, the quote lies between the quotes at those two |
| `Hkdf.HkdfOneshot` | nano_mcp/oneshot.py:29-49 | equals the extract and expand of RFC 5869, sections 2.2 and 2.3, up to 8160 bytes, and raises beyond |
| `Hkdf.HkdfBuyer` | nano_sdk/buyer.py:65-74 | equals the same up to 8160 bytes, and returns 8160 bytes beyond |
| `Hkdf.ExpandPrefix` | nano_mcp/oneshot.py:41-49 | a shorter output is a prefix of a longer one |
| `Hkdf.FirstBlocks` | nano_mcp/oneshot.py:39-49 | the first two blocks of the output, spelt out |
| `Hkdf.OneTimeKeyIsOneBlock` | nano_mcp/oneshot.py:52-60 | a one-time private key is one HMAC block over the request id |
| `Hkdf.OneTimeAddressesDistinct` | nano_mcp/oneshot.py:52-60 | two request ids share an address only if UTF-8, HMAC or the public-key map collides on them |

## Left out

* SQLite itself: journal mode, busy timeout, connections and locks. A table is a map, a transaction is atomic, and any of its statements may raise. Blob, NULL and non-numeric rows, and keys with an embedded NUL, are not modelled.
* Custom claim stores, and subclasses that override `claim`: `settle` makes one `claim` call on them, with the canonical key.
* HTTP, MCP and stdio plumbing, base64 and the JSON text format; `begin`, `request` and `supported`, which only build what `DeriveRequirements` specifies.
* The wording of refusal messages, and which of the three unusable-amount messages is given.
* blake2b, HMAC-SHA256, Ed25519, UTF-8, `repr` and `json.loads`, which are function values here.
* Python's digit limits on `int` and `str`, digits and blanks outside ASCII, and NaN and infinite JSON numbers. The mean of an even number of rates is exact, without Decimal's context rounding. Clock readings are real numbers.
* `parse_policy` is given the lines of the file: `splitlines` and the wording of its errors are not modelled. The ledger file is a sequence of lines, and a locked read, decision and append is one step.
* `settle` called directly with a request id that holds a lone surrogate, which SQLite refuses to bind; through `complete` and `execute` such an id is one that does not encode.
* A server or service without a master secret, whose quotes and derivations raise.
* `examples/spend_policy.py` maps a clock reading to a UTC day with `datetime`; the model takes any such map.
* `account_history` entries whose amount is not a number, and the 20-entry limit of the query.
* Two threads inside one `SessionWallet`; its checks are for one caller.
* `nano_sdk/wallet.py`, whose daily cap is the simpler sibling of the session wallet's; key derivation from a seed; the evidence, scorecard and tool scripts; and the TypeScript draft of the same protocol.
- SessionWallets.CapsHold: asks for a clock that never goes back a day, because the cap fails without it.
