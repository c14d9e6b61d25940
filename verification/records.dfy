/** The records of common/models.h and the tables of common/file_io.h.
    Amounts are whole paise; ids are 1-based positions in their table. */
module Records {
  datatype Option<+T> = None | Some(value: T)

  const ROLE_BIDDER := 0
  const ROLE_AUCTIONEER := 1
  const ROLE_MODERATOR := 2
  const ROLE_ADMIN := 3

  const ACCOUNT_ACTIVE := 0
  const ACCOUNT_INACTIVE := 1

  const ERR_OK := 0
  const ERR_AUTH_FAIL := 1
  const ERR_ALREADY_LOGGED := 2
  const ERR_PERMISSION := 3
  const ERR_NOT_FOUND := 4
  const ERR_BID_TOO_LOW := 5
  const ERR_INSUFFICIENT := 6
  const ERR_AUCTION_CLOSED := 7
  const ERR_INTERNAL := 99

  datatype AuctionStatus = Pending | Open | Closed | Disputed | Cancelled
  datatype DisputeStatus = DisputeOpen | DisputeResolved | DisputeRejected

  datatype Wallet = Wallet(balance: int, hold: int) {
    function Available(): int { balance - hold }
  }

  /** Role and account status stay plain integers, as the server stores whatever
      value a request carries. */
  datatype User = User(id: nat, username: string, role: int, status: int, wallet: Wallet, deleted: bool)

  /** `leader` is highest_bidder_id: 0 while there is no bid. */
  datatype Auction = Auction(
    id: nat, seller: nat, startPrice: int, reservePrice: int, currentBid: int, leader: nat,
    status: AuctionStatus, endTime: int, bidCount: nat)

  datatype Bid = Bid(id: nat, auction: nat, bidder: nat, amount: int, isWinning: bool)

  datatype Dispute = Dispute(id: nat, auction: nat, raisedBy: nat, resolvedBy: nat, status: DisputeStatus)

  /** Lines of txn.log, as structured entries. */
  datatype Entry =
    | Hold(user: nat, amount: int)
    | Release(user: nat, amount: int)
    | Settle(user: nat, amount: int)
    | Credit(user: nat, amount: int)
    | WalSettle(auction: nat, winner: nat, seller: nat, amount: int)
    | WalRefund(dispute: nat, auction: nat, winner: nat, seller: nat, amount: int)
    | RefundAnomaly
    | BidPlaced(auction: nat, user: nat, amount: int)
    | AuctionCreated(auction: nat, user: nat)
    | AuctionClosed(auction: nat, user: nat)
    | TimerClosed(auction: nat)
    | DisputeFiled(dispute: nat, auction: nat, user: nat)
    | DisputeDecided(dispute: nat, verdict: DisputeStatus, user: nat)
    | UserAdded(user: nat, role: int)
    | RoleChanged(user: nat, oldRole: int, newRole: int)
    | AccountToggled(user: nat, status: int)
    | UserDeleted(user: nat)

  /** The contents of the data directory. */
  datatype Store = Store(
    users: seq<User>, auctions: seq<Auction>, bids: seq<Bid>, disputes: seq<Dispute>, log: seq<Entry>)

  /** Reading record `id`: fails for id 0 and past the end of the file. */
  function Find<T>(xs: seq<T>, id: nat): Option<T> {
    if 1 <= id <= |xs| then Some(xs[id - 1]) else None
  }

  /** Writing record `id` in place, or as the next record of the file. Ids are dense in every
      reachable store, so no handler writes anywhere else. */
  function Put<T>(xs: seq<T>, id: nat, x: T): seq<T> {
    if 1 <= id <= |xs| then xs[id - 1 := x]
    else if id == |xs| + 1 then xs + [x]
    else xs
  }

  predicate Exists<T>(xs: seq<T>, id: nat) {
    1 <= id <= |xs|
  }
}
