/** The offer matcher of pages/api/handle-new-bid.ts: a new buy or sell bid is
    walked against the resting bids of its project in price order, and every
    crossing one is settled for as much as the remaining budget allows. */
module Matching {
  import opened Domain
  import opened Settlement

  /** The filter chain: same project, another bidder, another bid type (which
      lets donate bids through) and still pending. */
  predicate IsCandidate(bid: Bid, resting: Bid)
  {
    && resting.project == bid.project
    && resting.bidder != bid.bidder
    && resting.bidType != bid.bidType
    && resting.status == Pending
  }

  /** The rows that pass the filter chain, in their query order. */
  function Candidates(bid: Bid, rows: seq<Bid>): (cs: seq<Bid>)
    ensures |cs| <= |rows|
    ensures forall c :: c in cs <==> c in rows && IsCandidate(bid, c)
  {
    if rows == [] then []
    else (if IsCandidate(bid, rows[0]) then [rows[0]] else []) + Candidates(bid, rows[1..])
  }

  /** Price priority: ascending valuation for an incoming buy (cheapest seller
      first), descending for an incoming sell (highest buyer first). */
  predicate Precedes(bid: Bid, x: Bid, y: Bid)
  {
    if bid.bidType == Buy then x.valuation <= y.valuation else x.valuation >= y.valuation
  }

  predicate SortedFor(bid: Bid, s: seq<Bid>)
  {
    forall i, j :: 0 <= i < j < |s| ==> Precedes(bid, s[i], s[j])
  }

  /** The resting bid's valuation is acceptable to the incoming bid. */
  predicate Crosses(bid: Bid, resting: Bid)
  {
    if bid.bidType == Buy then resting.valuation <= bid.valuation else resting.valuation >= bid.valuation
  }

  function Min(a: int, b: int): (m: int)
    ensures m <= a && m <= b && (m == a || m == b)
  {
    if a <= b then a else b
  }

  /** One trade decided by the scan: `amount` USD against `resting`. */
  datatype Fill = Fill(resting: Bid, amount: int)

  function Total(fills: seq<Fill>): int
  {
    if fills == [] then 0 else fills[0].amount + Total(fills[1..])
  }

  /** The trades the scan decides on, given the remaining `budget`: it stops
      at the first candidate that does not cross or once the budget is
      exhausted, and otherwise trades `min(budget, candidate.amount)`. */
  function Plan(bid: Bid, cands: seq<Bid>, budget: int): (fills: seq<Fill>)
    ensures |fills| <= |cands|
    decreases |cands|
  {
    if cands == [] || !Crosses(bid, cands[0]) || budget <= 0 then []
    else
      var t := Min(budget, cands[0].amount);
      [Fill(cands[0], t)] + Plan(bid, cands[1..], budget - t)
  }

  /** The scan trades against a prefix of the candidates, in order, and only
      against candidates that cross. */
  lemma {:induction false} PlanIsCrossingPrefix(bid: Bid, cands: seq<Bid>, budget: int)
    ensures var fills := Plan(bid, cands, budget);
      forall k :: 0 <= k < |fills| ==> fills[k].resting == cands[k] && Crosses(bid, cands[k])
    decreases |cands|
  {
    var fills := Plan(bid, cands, budget);
    if fills != [] {
      var t := Min(budget, cands[0].amount);
      var rest := Plan(bid, cands[1..], budget - t);
      assert fills == [Fill(cands[0], t)] + rest;
      PlanIsCrossingPrefix(bid, cands[1..], budget - t);
      assert forall k :: 0 < k < |fills| ==> fills[k] == rest[k - 1];
    }
  }

  lemma TotalCons(f: Fill, rest: seq<Fill>)
    ensures Total([f] + rest) == f.amount + Total(rest)
  {
    assert ([f] + rest)[1..] == rest;
  }

  /** Every trade takes `min(budget left, candidate amount)`, and the budget
      left before each trade is positive. */
  lemma {:induction false} PlanTakesMinOfBudget(bid: Bid, cands: seq<Bid>, budget: int)
    ensures var fills := Plan(bid, cands, budget);
      forall k :: 0 <= k < |fills| ==>
        0 < budget - Total(fills[..k]) &&
        fills[k].amount == Min(budget - Total(fills[..k]), cands[k].amount)
    decreases |cands|
  {
    var fills := Plan(bid, cands, budget);
    if fills != [] {
      var t := Min(budget, cands[0].amount);
      var rest := Plan(bid, cands[1..], budget - t);
      assert fills == [Fill(cands[0], t)] + rest;
      PlanTakesMinOfBudget(bid, cands[1..], budget - t);
      forall k | 0 <= k < |fills|
        ensures 0 < budget - Total(fills[..k])
        ensures fills[k].amount == Min(budget - Total(fills[..k]), cands[k].amount)
      {
        if k == 0 {
          assert fills[..0] == [];
        } else {
          assert fills[..k] == [Fill(cands[0], t)] + rest[..k - 1];
          TotalCons(Fill(cands[0], t), rest[..k - 1]);
          assert fills[k] == rest[k - 1];
        }
      }
    }
  }

  /** With non-negative amounts to trade against, the budget never goes
      negative: every trade is non-negative, within the candidate's amount,
      and the traded total stays within the incoming bid's amount. */
  lemma {:induction false} PlanWithinBudget(bid: Bid, cands: seq<Bid>, budget: int)
    requires 0 <= budget
    requires forall i :: 0 <= i < |cands| ==> 0 <= cands[i].amount
    ensures var fills := Plan(bid, cands, budget);
      && 0 <= Total(fills) <= budget
      && forall k :: 0 <= k < |fills| ==> 0 <= fills[k].amount <= cands[k].amount
    decreases |cands|
  {
    var fills := Plan(bid, cands, budget);
    if fills != [] {
      var t := Min(budget, cands[0].amount);
      var rest := Plan(bid, cands[1..], budget - t);
      assert fills == [Fill(cands[0], t)] + rest;
      PlanWithinBudget(bid, cands[1..], budget - t);
      TotalCons(Fill(cands[0], t), rest);
      assert forall k :: 0 < k < |fills| ==> fills[k] == rest[k - 1];
    }
  }

  /** Every trade but the last takes the candidate's whole remaining amount:
      a trade smaller than that exhausts the budget and ends the scan. */
  lemma {:induction false} PlanConsumesAllButLast(bid: Bid, cands: seq<Bid>, budget: int)
    ensures var fills := Plan(bid, cands, budget);
      forall k :: 0 <= k < |fills| - 1 ==> fills[k].amount == cands[k].amount
    decreases |cands|
  {
    var fills := Plan(bid, cands, budget);
    if fills != [] {
      var t := Min(budget, cands[0].amount);
      var rest := Plan(bid, cands[1..], budget - t);
      assert fills == [Fill(cands[0], t)] + rest;
      PlanConsumesAllButLast(bid, cands[1..], budget - t);
      if |fills| > 1 {
        assert budget - t > 0;
      }
      assert forall k :: 0 < k < |fills| ==> fills[k] == rest[k - 1];
    }
  }

  /** The scan stops early only at a candidate that does not cross or once
      no budget is left. */
  lemma {:induction false} PlanStopReason(bid: Bid, cands: seq<Bid>, budget: int)
    ensures var fills := Plan(bid, cands, budget);
      |fills| < |cands| ==> !Crosses(bid, cands[|fills|]) || budget - Total(fills) <= 0
    decreases |cands|
  {
    var fills := Plan(bid, cands, budget);
    if fills != [] {
      var t := Min(budget, cands[0].amount);
      var rest := Plan(bid, cands[1..], budget - t);
      assert fills == [Fill(cands[0], t)] + rest;
      PlanStopReason(bid, cands[1..], budget - t);
      TotalCons(Fill(cands[0], t), rest);
    }
  }

  /** On candidates in price order, an early stop with budget left misses no
      crossing candidate: none after the stopping point crosses either. */
  lemma PlanMissesNoCrossing(bid: Bid, cands: seq<Bid>, budget: int)
    requires SortedFor(bid, cands)
    requires budget - Total(Plan(bid, cands, budget)) > 0
    ensures var fills := Plan(bid, cands, budget);
      forall j :: |fills| <= j < |cands| ==> !Crosses(bid, cands[j])
  {
    PlanStopReason(bid, cands, budget);
  }

  /** The filter keeps the query's price order. */
  lemma {:induction false} CandidatesKeepOrder(bid: Bid, rows: seq<Bid>)
    requires SortedFor(bid, rows)
    ensures SortedFor(bid, Candidates(bid, rows))
    decreases |rows|
  {
    if rows != [] {
      var tail := rows[1..];
      assert SortedFor(bid, tail) by {
        forall i, j | 0 <= i < j < |tail| ensures Precedes(bid, tail[i], tail[j]) {
          assert tail[i] == rows[i + 1] && tail[j] == rows[j + 1];
        }
      }
      CandidatesKeepOrder(bid, tail);
      var rest := Candidates(bid, tail);
      forall c | c in rest ensures Precedes(bid, rows[0], c) {
        var j :| 0 <= j < |tail| && tail[j] == c;
        assert rows[j + 1] == c;
      }
    }
  }

  /** Ledger rows written for `fills`, the k-th trade carrying `bundles[k]`. */
  function Legs(fills: seq<Fill>, bundles: seq<Id>, partner: Id): (l: seq<Txn>)
    requires |fills| <= |bundles|
    requires forall k :: 0 <= k < |fills| ==> fills[k].resting.valuation != 0.0
    ensures |l| == 2 * |fills|
    decreases |fills|
  {
    if fills == [] then []
    else
      var n := |fills| - 1;
      Legs(fills[..n], bundles, partner) + TradeLegs(fills[n].resting, fills[n].amount, partner, bundles[n])
  }

  /** Exactly two ledger rows per trade, in trade order, each pair the legs
      of that trade at the resting bid's valuation. */
  lemma {:induction false} LegsAreTradePairs(fills: seq<Fill>, bundles: seq<Id>, partner: Id, k: int)
    requires |fills| <= |bundles|
    requires forall k :: 0 <= k < |fills| ==> fills[k].resting.valuation != 0.0
    requires 0 <= k < |fills|
    ensures Legs(fills, bundles, partner)[2 * k .. 2 * k + 2]
            == TradeLegs(fills[k].resting, fills[k].amount, partner, bundles[k])
    decreases |fills|
  {
    var n := |fills| - 1;
    var front := fills[..n];
    var pre, last := Legs(front, bundles, partner), TradeLegs(fills[n].resting, fills[n].amount, partner, bundles[n]);
    var l := Legs(fills, bundles, partner);
    assert l == pre + last && |pre| == 2 * n;
    if k < n {
      LegsAreTradePairs(front, bundles, partner, k);
      assert l[2 * k .. 2 * k + 2] == pre[2 * k .. 2 * k + 2];
    } else {
      assert l[2 * k .. 2 * k + 2] == last;
    }
  }

  /** Whether a trade in `fills` is against the bid with id `id`. */
  predicate Touches(fills: seq<Fill>, id: Id)
  {
    exists k :: 0 <= k < |fills| && fills[k].resting.id == id
  }

  /** The bids table after the updates of `fills`, in order. */
  function Writes(bids: map<Id, Bid>, fills: seq<Fill>): (r: map<Id, Bid>)
    ensures r.Keys == bids.Keys
    decreases |fills|
  {
    if fills == [] then bids
    else
      var n := |fills| - 1;
      WriteBid(Writes(bids, fills[..n]), fills[n].resting, fills[n].amount)
  }

  /** A row that no trade of `fills` is against keeps its value. */
  lemma {:induction false} WritesLeaveUntouchedRows(bids: map<Id, Bid>, fills: seq<Fill>, id: Id)
    requires id in bids && !Touches(fills, id)
    ensures Writes(bids, fills)[id] == bids[id]
    decreases |fills|
  {
    if fills != [] {
      var n := |fills| - 1;
      assert !Touches(fills[..n], id) by {
        forall k | 0 <= k < n ensures fills[..n][k].resting.id != id {
          assert fills[..n][k] == fills[k];
        }
      }
      WritesLeaveUntouchedRows(bids, fills[..n], id);
      assert fills[n].resting.id != id;
    }
  }

  /** Trades against distinct rows read from the table: each traded row ends
      with its amount reduced by exactly its trade and a status that says
      whether it was fully consumed. */
  lemma {:induction false} WritesSettleEachRow(bids: map<Id, Bid>, fills: seq<Fill>, k: int)
    requires forall i :: 0 <= i < |fills| ==> fills[i].resting.id in bids && bids[fills[i].resting.id] == fills[i].resting
    requires forall i, j :: 0 <= i < j < |fills| ==> fills[i].resting.id != fills[j].resting.id
    requires 0 <= k < |fills|
    ensures Writes(bids, fills)[fills[k].resting.id] == AfterTrade(fills[k].resting, fills[k].resting, fills[k].amount)
    decreases |fills|
  {
    var n := |fills| - 1;
    var front := fills[..n];
    var id := fills[k].resting.id;
    if k < n {
      WritesSettleEachRow(bids, front, k);
      assert id != fills[n].resting.id;
    } else {
      assert !Touches(front, id) by {
        forall i | 0 <= i < |front| ensures front[i].resting.id != id {
          assert front[i] == fills[i];
        }
      }
      WritesLeaveUntouchedRows(bids, front, id);
    }
  }

  /** One more trade of the scan: what is left of the plan after position
      `i` starts with the trade against `cands[i]`. */
  lemma PlanAdvance(bid: Bid, cands: seq<Bid>, i: int, budget: int, done: seq<Fill>, plan: seq<Fill>)
    requires 0 <= i < |cands| && Crosses(bid, cands[i]) && 0 < budget
    requires done + Plan(bid, cands[i..], budget) == plan
    ensures var f := Fill(cands[i], Min(budget, cands[i].amount));
      && |done| < |plan| && plan[|done|] == f
      && Plan(bid, cands[i..], budget) == [f] + Plan(bid, cands[i + 1..], budget - f.amount)
      && (done + [f]) + Plan(bid, cands[i + 1..], budget - f.amount) == plan
  {
    var t := Min(budget, cands[i].amount);
    assert cands[i..][1..] == cands[i + 1..];
    var rest := Plan(bid, cands[i + 1..], budget - t);
    assert Plan(bid, cands[i..], budget) == [Fill(cands[i], t)] + rest;
    assert (done + [Fill(cands[i], t)]) + rest == done + ([Fill(cands[i], t)] + rest);
  }

  /** The scan stops: at the end of the candidates, at one that does not
      cross, or with no budget left, nothing of the plan remains. */
  lemma PlanHalt(bid: Bid, cands: seq<Bid>, i: int, budget: int, done: seq<Fill>, plan: seq<Fill>)
    requires 0 <= i <= |cands| && (i == |cands| || !Crosses(bid, cands[i]) || budget <= 0)
    requires done + Plan(bid, cands[i..], budget) == plan
    ensures done == plan
  {
    if i < |cands| {
      assert cands[i..][0] == cands[i];
    } else {
      assert cands[i..] == [];
    }
    assert Plan(bid, cands[i..], budget) == [];
  }

  lemma LegsSnoc(done: seq<Fill>, f: Fill, bundles: seq<Id>, partner: Id)
    requires |done| < |bundles|
    requires forall k :: 0 <= k < |done| ==> done[k].resting.valuation != 0.0
    requires f.resting.valuation != 0.0
    ensures Legs(done + [f], bundles, partner)
            == Legs(done, bundles, partner) + TradeLegs(f.resting, f.amount, partner, bundles[|done|])
  {
    assert (done + [f])[..|done|] == done;
  }

  lemma WritesSnoc(bids: map<Id, Bid>, done: seq<Fill>, f: Fill)
    ensures Writes(bids, done + [f]) == WriteBid(Writes(bids, done), f.resting, f.amount)
  {
    assert (done + [f])[..|done|] == done;
  }

  /** How far the matcher got through its plan: a prefix of it, stopping
      short only at a resting bid of zero valuation. */
  predicate Executed(plan: seq<Fill>, done: seq<Fill>, failed: bool)
  {
    && |done| <= |plan|
    && done == plan[..|done|]
    && (failed <==> |done| < |plan|)
    && (failed ==> plan[|done|].resting.valuation == 0.0)
    && (forall k :: 0 <= k < |done| ==> done[k].resting.valuation != 0.0)
  }

  lemma ExecutedWhole(plan: seq<Fill>, done: seq<Fill>)
    requires done == plan
    requires forall k :: 0 <= k < |done| ==> done[k].resting.valuation != 0.0
    ensures Executed(plan, done, false)
  {
  }

  lemma ExecutedUpToFailure(plan: seq<Fill>, done: seq<Fill>, f: Fill)
    requires |done| < |plan| && plan[|done|] == f && f.resting.valuation == 0.0
    requires exists rest :: done + rest == plan
    requires forall k :: 0 <= k < |done| ==> done[k].resting.valuation != 0.0
    ensures Executed(plan, done, true)
  {
    var rest :| done + rest == plan;
    assert plan[..|done|] == done;
  }

  /** The scan's progress after `i` candidates: the trades `done` so far and
      the plan still ahead with `budget` make up the whole `plan`, and the
      ledger and table hold exactly the rows and writes of `done`. */
  ghost predicate Scanned(bid: Bid, cands: seq<Bid>, bundles: seq<Id>, i: int, budget: int,
                          done: seq<Fill>, plan: seq<Fill>,
                          txns: seq<Txn>, bids: map<Id, Bid>, txns0: seq<Txn>, bids0: map<Id, Bid>)
  {
    && 0 <= i <= |cands| <= |bundles| && |done| == i
    && done + Plan(bid, cands[i..], budget) == plan
    && (forall k :: 0 <= k < i ==> done[k].resting.valuation != 0.0)
    && txns == txns0 + Legs(done, bundles, bid.bidder)
    && bids == Writes(bids0, done)
  }

  /** The `trade(oldBid, tradeAmount, bid.bidder)` call of the scan at
      position `i`: it settles the planned trade against `cands[i]` with
      bundle `bundles[i]`, extending the ledger rows and table writes of the
      trades `done` before it. The ghost parameters carry the scan's
      progress through the plan. */
  method MakeTrade(m: Market, bid: Bid, cands: seq<Bid>, i: int, budget: int, tradeAmount: int,
                   bundles: seq<Id>, ghost done: seq<Fill>, ghost plan: seq<Fill>,
                   ghost txns0: seq<Txn>, ghost bids0: map<Id, Bid>)
    returns (ok: bool)
    requires Scanned(bid, cands, bundles, i, budget, done, plan, m.txns, m.bids, txns0, bids0)
    requires i < |cands| && Crosses(bid, cands[i]) && 0 < budget && tradeAmount == Min(budget, cands[i].amount)
    modifies m
    ensures !ok ==> Executed(plan, done, true) && m.txns == old(m.txns) && m.bids == old(m.bids)
    ensures ok ==> Scanned(bid, cands, bundles, i + 1, budget - tradeAmount, done + [Fill(cands[i], tradeAmount)],
                           plan, m.txns, m.bids, txns0, bids0)
  {
    var f := Fill(cands[i], tradeAmount);
    PlanAdvance(bid, cands, i, budget, done, plan);
    ok := m.Settle(f.resting, f.amount, bid.bidder, None, bundles[i]);
    if ok {
      LegsSnoc(done, f, bundles, bid.bidder);
      WritesSnoc(bids0, done, f);
    } else {
      ExecutedUpToFailure(plan, done, f);
    }
  }

  /** `findAndMakeTrades`: `rows` is the project's bids as the ordered query
      returns them and `bundles` supplies a fresh bundle id per trade. Each
      trade is settled against the candidate's snapshot with the incoming
      bidder as trade partner and no new bid. */
  method FindAndMakeTrades(m: Market, bid: Bid, rows: seq<Bid>, bundles: seq<Id>)
    returns (done: seq<Fill>, failed: bool)
    requires |rows| <= |bundles|
    modifies m
    ensures Executed(Plan(bid, Candidates(bid, rows), bid.amount), done, failed)
    ensures m.txns == old(m.txns) + Legs(done, bundles, bid.bidder)
    ensures m.bids == Writes(old(m.bids), done)
  {
    var cands := Candidates(bid, rows);
    ghost var plan := Plan(bid, cands, bid.amount);
    var budget := bid.amount;
    done, failed := [], false;
    var i := 0;
    while i < |cands|
      invariant Scanned(bid, cands, bundles, i, budget, done, plan, m.txns, m.bids, old(m.txns), old(m.bids))
      decreases |cands| - i
    {
      var oldBid := cands[i];
      if !Crosses(bid, oldBid) || budget <= 0 {
        break;
      }
      var tradeAmount := Min(budget, oldBid.amount);
      var ok := MakeTrade(m, bid, cands, i, budget, tradeAmount, bundles, done, plan, old(m.txns), old(m.bids));
      if !ok {
        failed := true;
        return;
      }
      budget := budget - tradeAmount;
      done := done + [Fill(oldBid, tradeAmount)];
      i := i + 1;
    }
    PlanHalt(bid, cands, i, budget, done, plan);
    ExecutedWhole(plan, done);
  }

  /** The matcher never writes the incoming bid's row: every candidate has
      another bidder, so a row with the incoming bid's id is never traded. */
  lemma IncomingBidUntouched(bid: Bid, rows: seq<Bid>, done: seq<Fill>)
    requires forall r :: r in rows && r.id == bid.id ==> r.bidder == bid.bidder
    requires var plan := Plan(bid, Candidates(bid, rows), bid.amount);
      |done| <= |plan| && done == plan[..|done|]
    ensures !Touches(done, bid.id)
  {
    var cands := Candidates(bid, rows);
    var plan := Plan(bid, cands, bid.amount);
    PlanIsCrossingPrefix(bid, cands, bid.amount);
    forall k | 0 <= k < |done| ensures done[k].resting.id != bid.id {
      assert done[k] == plan[k];
      assert plan[k].resting == cands[k];
      assert cands[k] in cands;
    }
  }

  /** What a new bid sets off. */
  datatype Reaction = GrantActivationCheck | Matched(fills: seq<Fill>, failed: bool) | NoMatching

  /** The new-bid handler: a donate bid only asks for grant activation; a buy
      or sell bid is matched when its project is active. */
  method HandleNewBid(m: Market, bid: Bid, stage: Stage, rows: seq<Bid>, bundles: seq<Id>)
    returns (r: Reaction)
    requires |rows| <= |bundles|
    modifies m
    ensures bid.bidType == Donate ==> r == GrantActivationCheck
    ensures bid.bidType != Donate && stage != Active ==> r == NoMatching
    ensures bid.bidType != Donate && stage == Active ==> r.Matched?
    ensures !r.Matched? ==> m.bids == old(m.bids) && m.txns == old(m.txns)
    ensures r.Matched? ==>
              && Executed(Plan(bid, Candidates(bid, rows), bid.amount), r.fills, r.failed)
              && m.txns == old(m.txns) + Legs(r.fills, bundles, bid.bidder)
              && m.bids == Writes(old(m.bids), r.fills)
  {
    if bid.bidType == Donate {
      r := GrantActivationCheck;
    } else if stage == Active {
      var done, failed := FindAndMakeTrades(m, bid, rows, bundles);
      r := Matched(done, failed);
    } else {
      r := NoMatching;
    }
  }

  /** The worked scenario: a buy of 100 at 1000 against sells at 900 (50)
      and 1100 (80) trades 50 against the first and stops at the second. */
  lemma ScenarioBuyAgainstTwoSells(buyer: Id, seller: Id, p: Id)
    requires buyer != seller
    ensures var bid := Bid("b", p, buyer, Buy, 100, 1000.0, Pending);
      var s1 := Bid("s1", p, seller, Sell, 50, 900.0, Pending);
      var s2 := Bid("s2", p, seller, Sell, 80, 1100.0, Pending);
      Plan(bid, Candidates(bid, [s1, s2]), bid.amount) == [Fill(s1, 50)]
  {
    var bid := Bid("b", p, buyer, Buy, 100, 1000.0, Pending);
    var s1 := Bid("s1", p, seller, Sell, 50, 900.0, Pending);
    var s2 := Bid("s2", p, seller, Sell, 80, 1100.0, Pending);
    assert [s1, s2][1..] == [s2];
    assert Candidates(bid, [s1, s2]) == [s1, s2];
  }
}
