# Manifund trade engine in Dafny

This project models the trade engine of the Manifund funding marketplace. A user posts an offer (a
*bid*) to buy or sell shares of a project at a fixed *valuation*, which is the implied price of 100% of
the project. The engine does three things:

- **Offer matching** (`findAndMakeTrades` and the new-bid `handler` in
  `pages/api/handle-new-bid.ts`). A new buy or sell bid is walked against the project's resting bids in
  price order. It trades `min(budget, resting amount)` against each crossing bid and stops at the first
  bid that does not cross, or once its budget is spent. Donate bids only trigger the grant-activation
  check. Buy and sell bids are matched only in an active project.
- **Trade settlement** (`handler` and `updateBidOnTrade` in `pages/api/trade.ts`). One trade appends a
  share leg and a USD leg to the txns ledger. The two legs share a bundle id and have mirrored parties.
  The traded bids are then rewritten with their remaining amount and a status of `accepted` or `pending`.
- **Valuation** (`getProposalValuation` and `getActiveValuation` in `utils/math.ts`). The first is the
  closed-form valuation of a project in proposal. The second scans the ledger backwards for the latest
  adjacent USD/share pair, or returns the sentinel `-1` when there is none.

Modules, one per concern:

- `Domain` (`domain.dfy`): bids, ledger rows, stages and `TOTAL_SHARES`.
- `Valuation` (`valuation.dfy`): `utils/math.ts`.
- `Settlement` (`settlement.dfy`): `pages/api/trade.ts`. The bids table (`map<Id, Bid>`) and the txns
  ledger (`seq<Txn>`) are the fields of the class `Market`, and its methods update them.
- `Matching` (`matching.dfy`): `pages/api/handle-new-bid.ts`.

Representation:

- USD amounts of bids are `int` minor units, so the `accepted` test on `amount == amountTraded` is exact.
- Valuations, share amounts and ledger amounts are `real`, which are exact rationals.
- A JavaScript division by zero yields Infinity or NaN. In the valuation functions this is the
  `Valuation.Num.NonFinite` value.

Each imperative operation is proved against a specification function:

- `GetActiveValuation`, the source's `while` loop, against `ActiveValuation` and `LatestPairBelow`;
- `FindAndMakeTrades`, the source's `for` loop, against `Plan` for the trades it decides on, and against
  `Legs` and `Writes` for what it appends to the ledger and writes to the table.

The properties of each operation are then proved as lemmas about those functions.

Behaviours of the code worth knowing, which the model keeps as written:

- The candidate filter is `type !==` the incoming type. It therefore also admits donate bids as
  candidates (`pages/api/handle-new-bid.ts:43`).
- The matcher never writes the incoming bid, because `trade` is called without a new bid id
  (`pages/api/handle-new-bid.ts:57`). The incoming row keeps its whole original amount and status
  `pending`, even when it is fully matched (`Matching.IncomingBidUntouched`).
- A settled trade makes the active valuation equal to the trade's valuation times the investors'
  fraction `(TOTAL_SHARES - founder_portion) / TOTAL_SHARES`. It is not the bid's valuation itself
  (`Settlement.SettledTradeSetsActiveValuation`).
- The code does not check that a trade leaves a non-negative amount, and neither does the model:
  `Settle` writes `bid.amount - usdTraded` whatever its sign. `Matching.PlanWithinBudget` shows that the matcher never
  asks for more than a resting bid holds, given non-negative amounts.

## Model

| member | source | states |
|---|---|---|
| Valuation.ProposalValuation | utils/math.ts:6-10 | The result is finite exactly when the founder does not hold every share. When finite, the valuation times the investors' fraction equals the minimum funding. |
| Valuation.ProposalValuationExample | utils/math.ts:6-10 | A minimum funding of 500 with half the shares kept by the founder gives a valuation of 1000. |
| Valuation.ProposalValuationGrowsWithFounderPortion | utils/math.ts:6-10 | For a positive minimum funding, a larger founder portion gives a strictly larger proposal valuation. |
| Valuation.Scaled | utils/math.ts:28 | `usd / shares * (10000000 - founder_portion)` is finite exactly when shares are non-zero. The result times shares equals usd times the investor share count. |
| Valuation.LatestPairBelow | utils/math.ts:17-44 | A returned index ends a qualifying pair and no higher index below the bound does. None means no index ends a pair. |
| Valuation.GetActiveValuation | utils/math.ts:13-46 | The backwards scan returns the value of the highest-index qualifying pair, or the sentinel when there is none. |
| Valuation.NoPairIsUnknown | utils/math.ts:14-17 | The scan finds nothing exactly when no index ends a pair. Empty and one-row ledgers give the sentinel `-1`. |
| Valuation.LastRowPairDecides | utils/math.ts:19-39 | When the last two rows form a pair, that pair decides the active valuation, whatever comes before it. |
| Valuation.RowWithoutProjectIsSkipped | utils/math.ts:18 | A row with an empty project never ends a pair, so the scan passes over its position. |
| Settlement.ShareAmount | pages/api/trade.ts:34 | The share amount times the valuation equals the USD traded times `TOTAL_SHARES`. |
| Settlement.TradeLegs | pages/api/trade.ts:32-59 | Exactly two legs with the same bundle. The share leg carries the project token and the USD leg the `USD` token, both with the project. The amounts are the share amount and the USD traded. The parties are mirrored. A resting buy receives shares and pays USD; a resting sell gives shares and receives USD. |
| Settlement.AfterTrade | pages/api/trade.ts:88-95 | Only amount and status change. The new amount plus the traded amount is the snapshot's amount. The status is `accepted` exactly when nothing remains, otherwise `pending`. |
| Settlement.TradeShrinksRemaining | pages/api/trade.ts:91-93 | A trade of at most the remaining amount leaves a non-negative amount that has not grown. The status becomes `accepted` exactly when the whole amount is traded. |
| Settlement.WriteBid | pages/api/trade.ts:88-95 | The update keyed on the bid's id changes that row only and keeps the key set. A missing id changes nothing. |
| Settlement.AfterSettle | pages/api/trade.ts:60-63 | Only the resting bid's row and the new bid's row change, each updated by the same USD amount. The key set is kept. |
| Settlement.Market.UpdateBidOnTrade | pages/api/trade.ts:83-99 | The table becomes `WriteBid` of the old table and the ledger is unchanged. |
| Settlement.Market.Settle | pages/api/trade.ts:31-63 | With a non-zero valuation, the ledger grows by exactly the two legs and the table becomes `AfterSettle`. Otherwise nothing is written. |
| Settlement.Market.Trade | pages/api/trade.ts:22-63 | A missing old bid, or a missing new bid when one is named, is reported before any write. The trade succeeds exactly when both bids are found and the valuation is non-zero, and then settles against the bids read before the writes. |
| Settlement.SettledTradeSetsActiveValuation | pages/api/trade.ts:32-59 | After a trade with non-zero USD against a bid whose project is non-empty and is not the `USD` token name, the active valuation of the ledger is the bid's valuation times the investors' fraction. |
| Matching.Candidates | pages/api/handle-new-bid.ts:41-44 | Exactly the rows with the same project, another bidder, another type and status `pending` are kept. No rows are added. |
| Matching.CandidatesKeepOrder | pages/api/handle-new-bid.ts:37-44 | Filtering rows sorted by price priority keeps them sorted. |
| Matching.Plan | pages/api/handle-new-bid.ts:45-58 | The scan decides on at most one trade per candidate. |
| Matching.PlanIsCrossingPrefix | pages/api/handle-new-bid.ts:46-54 | The k-th trade is against the k-th candidate, so trades cover a prefix in order. Every traded candidate crosses. |
| Matching.PlanTakesMinOfBudget | pages/api/handle-new-bid.ts:45-56 | Before each trade the budget left is positive and equals the bid's amount minus the earlier trades. The trade takes the minimum of that budget and the candidate's amount. |
| Matching.PlanWithinBudget | pages/api/handle-new-bid.ts:45-56 | With non-negative amounts, each trade is between zero and the candidate's amount. The traded total is between zero and the bid's amount. |
| Matching.PlanConsumesAllButLast | pages/api/handle-new-bid.ts:51-56 | Every trade but the last takes the candidate's whole amount. |
| Matching.PlanStopReason | pages/api/handle-new-bid.ts:47-54 | A scan that stops before the end stops at a candidate that does not cross, or with no budget left. |
| Matching.PlanMissesNoCrossing | pages/api/handle-new-bid.ts:37-54 | On price-sorted candidates, a scan that stops with budget left leaves no later candidate that would cross. |
| Matching.Legs | pages/api/handle-new-bid.ts:57 | The trades write two ledger rows each. |
| Matching.LegsAreTradePairs | pages/api/handle-new-bid.ts:57 | Rows `2k` and `2k+1` are the two legs of the k-th trade, at its resting bid's valuation and with its bundle. |
| Matching.Writes | pages/api/handle-new-bid.ts:57 | Applying the trades' updates keeps the key set of the table. |
| Matching.WritesLeaveUntouchedRows | pages/api/handle-new-bid.ts:57 | A row that no trade is against keeps its value. |
| Matching.WritesSettleEachRow | pages/api/handle-new-bid.ts:57 | For distinct rows read from the table, each traded row ends with its amount reduced by exactly its trade, and is `accepted` exactly when fully consumed. |
| Matching.MakeTrade | pages/api/handle-new-bid.ts:55-57 | One `trade` call of the scan extends the ledger by the trade's legs and the table by its update. With a zero valuation it writes nothing and the scan fails at that trade. |
| Matching.FindAndMakeTrades | pages/api/handle-new-bid.ts:31-59 | The trades executed are the plan, or its prefix up to a resting bid of zero valuation. The ledger grows by exactly their legs and the table by exactly their updates. |
| Matching.IncomingBidUntouched | pages/api/handle-new-bid.ts:42 | The matcher never writes the incoming bid's own row. |
| Matching.HandleNewBid | pages/api/handle-new-bid.ts:12-29 | A donate bid only asks for grant activation. A buy or sell bid is matched exactly when the project is active. Nothing changes unless matching runs. |
| Matching.ScenarioBuyAgainstTwoSells | pages/api/handle-new-bid.ts:45-58 | A buy of 100 at 1000 against sells of 50 at 900 and 80 at 1100 trades 50 against the first and stops at the second. |

## Left out

- Emails are not modelled: `sendTemplateEmail`, `sendShareholderEmails` and `genTradeText` are notification I/O (`pages/api/trade.ts:64-79`, `pages/api/handle-new-bid.ts:24-26, 61-87`).
- The Supabase client is not modelled: its queries, inserts and error throwing are foreign calls. The bids table and the ledger are the in-memory fields of `Settlement.Market`. The query reply of `findAndMakeTrades` is the parameter `rows`.
- Matching.FindAndMakeTrades: the database sorts the reply by valuation (`pages/api/handle-new-bid.ts:37`). The model does not require `rows` to be sorted. Price order is a hypothesis of `Matching.PlanMissesNoCrossing` and `Matching.CandidatesKeepOrder`.
- `uuid()` is a parameter. It is the `bundle` argument of `Settle`/`Trade`, and one entry of `bundles` per trade in the matcher.
- `maybeActivateGrant`, `calculateFullTrades` and `calculateShareholders` are unshown code. `HandleNewBid` reports the grant-activation request as its result.
- `utils/trade.ts` is not part of this model. Following its use at `pages/api/handle-new-bid.ts:57`, its call is `Settlement.Market.Settle` against the resting bid's snapshot, with the incoming bidder as trade partner and no new bid.
- `db/bid.ts` (`getBidById`) and `db/profile.ts` are not part of this model. A bid is looked up in the table by id, and the trade partner's profile, which only feeds the email text, is dropped.
- `db/project.ts` is not part of this model. `TOTAL_SHARES` is taken as 10,000,000, the literal that `getActiveValuation` uses.
- Concurrency is not modelled: the unawaited ledger inserts and bid updates (`pages/api/trade.ts:45, 59-63`) and races between concurrent matches. Each trade is one sequential atomic step.
- Valuation.ProposalValuation: returns the raw number, not the display string that `formatLargeNumber` makes of it (`utils/math.ts:9`).
- Settlement.Market.Settle: with a zero valuation the source computes an Infinity share amount (`pages/api/trade.ts:34`); what the database then stores depends on the client, which is not modelled. The model writes nothing and reports failure. `FindAndMakeTrades` then stops there with `failed`, whereas the source's scan goes on to the next candidate.
- Settlement.Market.Trade: a missing bid id is treated as `getBidById` failing before any write, so the model reports `BidNotFound` and writes nothing. `db/bid.ts` is not part of this model. If a miss instead returns no row, the source behaves differently in two cases. With a named new bid that is missing, `newBid` is falsy (`pages/api/trade.ts:27-30, 61`), so both legs are written, only the old bid is updated, and success is returned. With the old bid missing and the new bid present, `updateBidOnTrade(newBid, …)` still runs (`pages/api/trade.ts:62`) before `genTradeText` throws (`pages/api/trade.ts:64`).
- Floating-point rounding is not modelled: reals are exact.
- The React UI files and `db/database.types.ts`, whose type declarations hold no logic, are not modelled.
- `created_at` timestamps are the wall clock and are not modelled.
