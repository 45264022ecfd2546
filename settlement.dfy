/** Trade settlement (pages/api/trade.ts): one trade appends a share leg and a
    USD leg to the ledger and rewrites the traded bids' remaining amount and
    status. The bids table and the txns ledger are the fields of `Market`. */
module Settlement {
  import opened Domain
  import Valuation

  /** Shares bought by `usdTraded` at `valuation` for the whole project. */
  function ShareAmount(usdTraded: int, valuation: real): (shares: real)
    requires valuation != 0.0
    ensures shares * valuation == usdTraded as real * TOTAL_SHARES as real
  {
    usdTraded as real / valuation * TOTAL_SHARES as real
  }

  /** The two ledger rows of one trade against the resting bid `resting`, in
      the order they are written: the share leg, then the USD leg. */
  function TradeLegs(resting: Bid, usdTraded: int, partner: Id, bundle: Id): (legs: seq<Txn>)
    requires resting.valuation != 0.0
    ensures |legs| == 2
    ensures legs[0].bundle == bundle && legs[1].bundle == bundle
    ensures legs[0].token == resting.project && legs[1].token == USD
    ensures legs[0].project == resting.project && legs[1].project == resting.project
    ensures legs[0].amount * resting.valuation == usdTraded as real * TOTAL_SHARES as real
    ensures legs[1].amount == usdTraded as real
    ensures legs[0].fromId == legs[1].toId && legs[0].toId == legs[1].fromId
    // a resting buy receives the shares and pays the USD
    ensures resting.bidType == Buy ==> legs[0].toId == resting.bidder && legs[0].fromId == partner
    // a resting sell gives up the shares and receives the USD
    ensures resting.bidType != Buy ==> legs[0].fromId == resting.bidder && legs[0].toId == partner
  {
    var shareTo := if resting.bidType == Buy then resting.bidder else partner;
    var shareFrom := if resting.bidType == Buy then partner else resting.bidder;
    [ Txn(shareFrom, shareTo, ShareAmount(usdTraded, resting.valuation), resting.project, resting.project, bundle),
      Txn(shareTo, shareFrom, usdTraded as real, USD, resting.project, bundle) ]
  }

  /** The table row `row` after `updateBidOnTrade(bid, amountTraded)`: the
      remaining amount and the status are computed from the snapshot `bid`;
      the other columns keep the row's values. */
  function AfterTrade(row: Bid, bid: Bid, amountTraded: int): (r: Bid)
    ensures r.(amount := row.amount, status := row.status) == row
    ensures r.amount + amountTraded == bid.amount
    ensures r.status == Accepted <==> r.amount == 0
    ensures r.status != Accepted ==> r.status == Pending
  {
    row.(amount := bid.amount - amountTraded,
         status := if bid.amount == amountTraded then Accepted else Pending)
  }

  /** A trade that takes no more than the remaining amount leaves a
      non-negative amount that has not grown. */
  lemma TradeShrinksRemaining(bid: Bid, amountTraded: int)
    requires 0 <= amountTraded <= bid.amount
    ensures 0 <= AfterTrade(bid, bid, amountTraded).amount <= bid.amount
    ensures AfterTrade(bid, bid, amountTraded).status == Accepted <==> amountTraded == bid.amount
  {
  }

  /** The bids table after the update keyed on `bid.id`; an id missing from
      the table matches no row and changes nothing. */
  function WriteBid(bids: map<Id, Bid>, bid: Bid, amountTraded: int): (r: map<Id, Bid>)
    ensures r.Keys == bids.Keys
    ensures forall id :: id in bids && id != bid.id ==> r[id] == bids[id]
    ensures bid.id in bids ==> r[bid.id] == AfterTrade(bids[bid.id], bid, amountTraded)
  {
    if bid.id in bids then bids[bid.id := AfterTrade(bids[bid.id], bid, amountTraded)] else bids
  }

  /** The bids table after one settlement: the resting bid and, when given,
      the new bid are each updated by the same traded amount. */
  function AfterSettle(bids: map<Id, Bid>, oldBid: Bid, usdTraded: int, newBid: Option<Bid>): (r: map<Id, Bid>)
    ensures r.Keys == bids.Keys
    ensures forall id :: id in bids && id != oldBid.id && (newBid.Some? ==> id != newBid.value.id) ==> r[id] == bids[id]
    ensures oldBid.id in bids && (newBid.Some? ==> newBid.value.id != oldBid.id) ==>
              r[oldBid.id] == AfterTrade(bids[oldBid.id], oldBid, usdTraded)
    ensures newBid.Some? && newBid.value.id in bids ==>
              r[newBid.value.id] == AfterTrade(bids[newBid.value.id], newBid.value, usdTraded)
  {
    var once := WriteBid(bids, oldBid, usdTraded);
    match newBid
    case None => once
    case Some(nb) => WriteBid(once, nb, usdTraded)
  }

  /** Whether the optional `newBidId` names a bid: an absent or empty id is
      falsy and means no new bid. */
  predicate GivesNewBid(newBidId: Option<Id>)
  {
    newBidId.Some? && newBidId.value != ""
  }

  datatype TradeOutcome = Traded | BidNotFound(id: Id) | ZeroValuation

  /** The bids table and the txns ledger of the marketplace. */
  class Market {
    var bids: map<Id, Bid>
    var txns: seq<Txn>

    constructor (bids0: map<Id, Bid>, txns0: seq<Txn>)
      ensures bids == bids0 && txns == txns0
    {
      bids := bids0;
      txns := txns0;
    }

    /** `updateBidOnTrade`: overwrite the amount and status of the row with
        the snapshot's id. */
    method UpdateBidOnTrade(bid: Bid, amountTraded: int)
      modifies this
      ensures bids == WriteBid(old(bids), bid, amountTraded)
      ensures txns == old(txns)
    {
      if bid.id in bids {
        var row := bids[bid.id];
        bids := bids[bid.id := row.(amount := bid.amount - amountTraded,
                                    status := if bid.amount == amountTraded then Accepted else Pending)];
      }
    }

    /** One trade against the snapshot `oldBid`, applied as one atomic step:
        the share leg and the USD leg share `bundle`, then the bids are
        updated. A zero valuation writes nothing. */
    method Settle(oldBid: Bid, usdTraded: int, tradePartnerId: Id, newBid: Option<Bid>, bundle: Id) returns (ok: bool)
      modifies this
      ensures ok <==> oldBid.valuation != 0.0
      ensures ok ==> txns == old(txns) + TradeLegs(oldBid, usdTraded, tradePartnerId, bundle)
      ensures ok ==> bids == AfterSettle(old(bids), oldBid, usdTraded, newBid)
      ensures !ok ==> bids == old(bids) && txns == old(txns)
    {
      if oldBid.valuation == 0.0 {
        return false;
      }
      var shareTo := if oldBid.bidType == Buy then oldBid.bidder else tradePartnerId;
      var shareFrom := if oldBid.bidType == Buy then tradePartnerId else oldBid.bidder;
      var shares := ShareAmount(usdTraded, oldBid.valuation);
      txns := txns + [Txn(shareFrom, shareTo, shares, oldBid.project, oldBid.project, bundle)];
      txns := txns + [Txn(shareTo, shareFrom, usdTraded as real, USD, oldBid.project, bundle)];
      UpdateBidOnTrade(oldBid, usdTraded);
      if newBid.Some? {
        UpdateBidOnTrade(newBid.value, usdTraded);
      }
      return true;
    }

    /** The trade handler: load the resting bid and the optional new bid by
        id, then settle. Both bids are read before either is written. */
    method Trade(oldBidId: Id, usdTraded: int, tradePartnerId: Id, newBidId: Option<Id>, bundle: Id)
      returns (r: TradeOutcome)
      modifies this
      ensures oldBidId !in old(bids) ==> r == BidNotFound(oldBidId)
      ensures (oldBidId in old(bids) && GivesNewBid(newBidId) && newBidId.value !in old(bids)) ==>
                r == BidNotFound(newBidId.value)
      ensures r.BidNotFound? || r == ZeroValuation ==> bids == old(bids) && txns == old(txns)
      ensures r == Traded <==>
                oldBidId in old(bids) && old(bids)[oldBidId].valuation != 0.0 &&
                (GivesNewBid(newBidId) ==> newBidId.value in old(bids))
      ensures r == Traded ==>
                txns == old(txns) + TradeLegs(old(bids)[oldBidId], usdTraded, tradePartnerId, bundle) &&
                bids == AfterSettle(old(bids), old(bids)[oldBidId], usdTraded,
                                    if GivesNewBid(newBidId) then Some(old(bids)[newBidId.value]) else None)
    {
      if oldBidId !in bids {
        return BidNotFound(oldBidId);
      }
      var oldBid := bids[oldBidId];
      var newBid: Option<Bid> := None;
      if GivesNewBid(newBidId) {
        if newBidId.value !in bids {
          return BidNotFound(newBidId.value);
        }
        newBid := Some(bids[newBidId.value]);
      }
      var ok := Settle(oldBid, usdTraded, tradePartnerId, newBid, bundle);
      r := if ok then Traded else ZeroValuation;
    }
  }

  /** After a trade against a bid with a project and a non-zero amount, the
      active valuation read from the ledger is the trade's valuation scaled by
      the investors' fraction of the shares. */
  lemma {:induction false} SettledTradeSetsActiveValuation(
    txns: seq<Txn>, resting: Bid, usdTraded: int, partner: Id, bundle: Id, founderPortion: int)
    requires resting.valuation != 0.0 && usdTraded != 0
    requires resting.project != "" && resting.project != USD
    ensures Valuation.ActiveValuation(txns + TradeLegs(resting, usdTraded, partner, bundle), founderPortion)
            == Valuation.Finite(resting.valuation * Valuation.InvestorFraction(founderPortion))
  {
    var legs := TradeLegs(resting, usdTraded, partner, bundle);
    var all := txns + legs;
    var n := |all| - 1;
    assert all[n - 1] == legs[0] && all[n] == legs[1];
    assert Valuation.IsPair(all, n);
    Valuation.LastRowPairDecides(all, founderPortion);
    var usd, shares := usdTraded as real, legs[0].amount;
    assert shares * resting.valuation == usd * TOTAL_SHARES as real;
    assert shares != 0.0;
    var v := Valuation.Scaled(usd, shares, founderPortion);
    assert v.value * shares == usd * (TOTAL_SHARES - founderPortion) as real;
    var w := resting.valuation * Valuation.InvestorFraction(founderPortion);
    assert w * shares == usd * (TOTAL_SHARES - founderPortion) as real by {
      assert w == resting.valuation * (TOTAL_SHARES - founderPortion) as real / TOTAL_SHARES as real;
      assert w * shares == (shares * resting.valuation) * (TOTAL_SHARES - founderPortion) as real / TOTAL_SHARES as real;
    }
    assert (v.value - w) * shares == 0.0;
  }
}
