/** The valuation calculator of utils/math.ts: the valuation implied by a
    project's funding parameters, and the valuation implied by the latest
    trade found in its ledger. */
module Valuation {
  import opened Domain

  /** A JavaScript number as far as these formulas can produce one: a finite
      value, or the Infinity/NaN that a division by zero yields. */
  datatype Num = Finite(value: real) | NonFinite

  /** The "no trade found" sentinel returned by the active valuation. */
  const UNKNOWN: Num := Finite(-1.0)

  /** Fraction of the shares that investors can hold. */
  function InvestorFraction(founderPortion: int): real
  {
    (TOTAL_SHARES - founderPortion) as real / TOTAL_SHARES as real
  }

  /** Valuation of a project still in proposal: the minimum funding buys the
      investors' fraction of the shares, so the whole is worth
      minFunding / fraction. A founder portion of all shares divides by zero. */
  function ProposalValuation(minFunding: int, founderPortion: int): (v: Num)
    ensures v.Finite? <==> founderPortion != TOTAL_SHARES
    ensures v.Finite? ==> v.value * InvestorFraction(founderPortion) == minFunding as real
  {
    var investorPercent := InvestorFraction(founderPortion);
    if investorPercent == 0.0 then NonFinite else Finite(minFunding as real / investorPercent)
  }

  lemma ProposalValuationExample()
    ensures ProposalValuation(500, 5_000_000) == Finite(1000.0)
  {
  }

  /** Keeping more shares for the founder raises the proposal valuation of a
      positive minimum funding. */
  lemma ProposalValuationGrowsWithFounderPortion(minFunding: int, p: int, q: int)
    requires 0 < minFunding && p < q < TOTAL_SHARES
    ensures ProposalValuation(minFunding, p).value < ProposalValuation(minFunding, q).value
  {
    var fp, fq := InvestorFraction(p), InvestorFraction(q);
    assert 0.0 < fq < fp;
    var vp, vq := ProposalValuation(minFunding, p).value, ProposalValuation(minFunding, q).value;
    assert vp * fp == minFunding as real;
    assert vq * fq == minFunding as real;
    assert 0.0 < vp;
    // vp * gap == growth * fq with vp and gap positive, so growth is positive
    var gap, growth := fp - fq, vq - vp;
    PositiveProduct(vp, gap);
    assert vp * gap == growth * fq by {
      assert vp * fp == vq * fq;
    }
    PositiveFactor(growth, fq);
  }

  lemma PositiveProduct(a: real, b: real)
    requires 0.0 < a && 0.0 < b
    ensures 0.0 < a * b
  {
  }

  lemma PositiveFactor(a: real, b: real)
    requires 0.0 < b && 0.0 < a * b
    ensures 0.0 < a
  {
  }

  /** Positions `i - 1` and `i` hold the two legs of one trade: `txns[i]` has a
      project, both rows have the same project, exactly one of them is the USD
      leg, and the parties are mirrored. */
  predicate IsPair(txns: seq<Txn>, i: int)
    requires 0 < i < |txns|
  {
    var earlier, later := txns[i - 1], txns[i];
    && later.project != ""
    && earlier.project == later.project
    && (later.token == USD) != (earlier.token == USD)
    && earlier.fromId == later.toId
    && earlier.toId == later.fromId
  }

  /** `usd / shares * (TOTAL_SHARES - founderPortion)` as a JavaScript number. */
  function Scaled(usd: real, shares: real, founderPortion: int): (v: Num)
    ensures v.Finite? <==> shares != 0.0
    ensures v.Finite? ==> v.value * shares == usd * (TOTAL_SHARES - founderPortion) as real
  {
    if shares == 0.0 then NonFinite else Finite(usd / shares * (TOTAL_SHARES - founderPortion) as real)
  }

  /** The valuation read off the pair ending at `i`, whichever of the two rows
      is the USD leg. */
  function PairValue(txns: seq<Txn>, i: int, founderPortion: int): Num
    requires 0 < i < |txns|
  {
    if txns[i].token == USD then Scaled(txns[i].amount, txns[i - 1].amount, founderPortion)
    else Scaled(txns[i - 1].amount, txns[i].amount, founderPortion)
  }

  /** The highest `i < n` at which a pair ends, if any. */
  function LatestPairBelow(txns: seq<Txn>, n: int): (r: Option<int>)
    requires n <= |txns|
    ensures r.Some? ==> 0 < r.value < n && IsPair(txns, r.value)
    ensures r.Some? ==> forall j :: r.value < j < n ==> !IsPair(txns, j)
    ensures r.None? ==> forall j :: 0 < j < n ==> !IsPair(txns, j)
    decreases n
  {
    if n <= 1 then None
    else if IsPair(txns, n - 1) then Some(n - 1)
    else LatestPairBelow(txns, n - 1)
  }

  /** The active valuation: the value of the latest pair in the ledger, or
      the sentinel when the ledger holds none. */
  function ActiveValuation(txns: seq<Txn>, founderPortion: int): Num
  {
    match LatestPairBelow(txns, |txns|)
    case None => UNKNOWN
    case Some(i) => PairValue(txns, i, founderPortion)
  }

  /** The backwards scan of `getActiveValuation`. */
  method GetActiveValuation(txns: seq<Txn>, founderPortion: int) returns (r: Num)
    ensures r == ActiveValuation(txns, founderPortion)
  {
    var i := |txns| - 1;
    var priceUsd := 0.0;
    var numShares := 0.0;
    while i > 0
      invariant -1 <= i < |txns|
      invariant |txns| == 0 || 0 <= i
      invariant i >= 0 ==> LatestPairBelow(txns, |txns|) == LatestPairBelow(txns, i + 1)
      decreases i
    {
      if txns[i].project != "" {
        if txns[i].token == USD {
          priceUsd := txns[i].amount;
          if && txns[i - 1].project == txns[i].project
             && txns[i - 1].token != USD
             && txns[i - 1].fromId == txns[i].toId
             && txns[i - 1].toId == txns[i].fromId
          {
            numShares := txns[i - 1].amount;
            return Scaled(priceUsd, numShares, founderPortion);
          }
        } else {
          numShares := txns[i].amount;
          if && txns[i - 1].project == txns[i].project
             && txns[i - 1].token == USD
             && txns[i - 1].fromId == txns[i].toId
             && txns[i - 1].toId == txns[i].fromId
          {
            priceUsd := txns[i - 1].amount;
            return Scaled(priceUsd, numShares, founderPortion);
          }
        }
      }
      i := i - 1;
    }
    return UNKNOWN;
  }

  /** With no pair anywhere in the ledger, the sentinel comes back; an empty
      or one-row ledger never holds a pair. */
  lemma {:induction false} NoPairIsUnknown(txns: seq<Txn>, founderPortion: int)
    ensures (forall j :: 0 < j < |txns| ==> !IsPair(txns, j)) <==> LatestPairBelow(txns, |txns|).None?
    ensures |txns| <= 1 ==> ActiveValuation(txns, founderPortion) == UNKNOWN
  {
  }

  /** The pair that decides the valuation is the last one: rows appended after
      a pair that form no pair themselves do not hide it, and any earlier
      history is irrelevant once a pair ends at the last row. */
  lemma {:induction false} LastRowPairDecides(txns: seq<Txn>, founderPortion: int)
    requires 1 < |txns| && IsPair(txns, |txns| - 1)
    ensures ActiveValuation(txns, founderPortion) == PairValue(txns, |txns| - 1, founderPortion)
  {
  }

  /** A row with no project never ends a pair, so its position is skipped. */
  lemma RowWithoutProjectIsSkipped(txns: seq<Txn>, i: int)
    requires 0 < i < |txns| && txns[i].project == ""
    ensures LatestPairBelow(txns, i + 1) == LatestPairBelow(txns, i)
  {
  }
}
