/** Records shared by the valuation calculator, the trade settlement and the
    offer matcher: bids (offers), ledger entries (txns) and project stages. */
module Domain {

  /** Identifiers of bids, profiles, projects and trade bundles. */
  type Id = string

  /** Fixed share supply of every project (the `TOTAL_SHARES` constant). */
  const TOTAL_SHARES: int := 10_000_000

  /** Token name of the USD leg of a trade; a share leg carries the project id. */
  const USD: string := "USD"

  datatype Option<T> = None | Some(value: T)

  datatype BidType = Buy | Sell | Donate

  datatype BidStatus = Pending | Accepted | Declined

  datatype Stage = Proposal | Active | Complete | NotFunded | Hidden

  /** A row of the bids table. `amount` is the remaining USD amount in minor
      units (cents); `valuation` is the implied price of 100% of the project,
      in the same USD minor units. */
  datatype Bid = Bid(
    id: Id,
    project: Id,
    bidder: Id,
    bidType: BidType,
    amount: int,
    valuation: real,
    status: BidStatus)

  /** A row of the txns ledger. `token` is `USD` or a project id (the share
      token of that project); `project` is empty when the row has none. */
  datatype Txn = Txn(
    fromId: Id,
    toId: Id,
    amount: real,
    token: string,
    project: string,
    bundle: Id)
}
