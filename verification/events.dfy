/** The request handlers and the timer as functions from one store to the next.
    Each event is one handler run without interruption. */
module Events {
  import opened Records
  import opened Wallets

  datatype Event =
    | AddUser(username: string, role: int)
    | ChangeRole(target: nat, newRole: int)
    | ToggleAccount(actorRole: int, target: nat, newStatus: int)
    | DeleteUser(target: nat)
    | Deposit(user: nat, amount: int)
    | CreateAuction(seller: nat, startPrice: int, reservePrice: int, duration: nat, now: int)
    | PlaceBid(bidder: nat, auction: nat, amount: int)
    | CloseAuction(requester: nat, requesterRole: int, auction: nat)
    | Expire(auction: nat)
    | FileDispute(user: nat, auction: nat)
    | ResolveDispute(moderator: nat, dispute: nat, verdict: DisputeStatus)

  /** The store after the handler and the status of its reply. */
  datatype Outcome = Outcome(store: Store, status: int)

  // ---------- server/admin.c and handle_toggle_account ----------

  const MAX_USERNAME := 32

  function Clipped(name: string, n: nat): string {
    if |name| <= n then name else name[..n]
  }

  /** The duplicate check compares up to 32 characters... */
  function Compared(name: string): string {
    Clipped(name, MAX_USERNAME)
  }

  /** ...but only 31 are stored. */
  function Stored(name: string): string {
    Clipped(name, MAX_USERNAME - 1)
  }

  predicate Taken(users: seq<User>, username: string) {
    exists i :: 0 <= i < |users| && !users[i].deleted && users[i].username == username
  }

  function DoAddUser(s: Store, username: string, role: int): Outcome {
    if Taken(s.users, Compared(username)) then Outcome(s, ERR_INTERNAL)
    else
      var u := User(|s.users| + 1, Stored(username), role, ACCOUNT_ACTIVE, Wallet(0, 0), false);
      Outcome(s.(users := Put(s.users, u.id, u), log := s.log + [UserAdded(u.id, role)]), ERR_OK)
  }

  predicate ActiveAdmin(u: User) {
    !u.deleted && u.status == ACCOUNT_ACTIVE && u.role == ROLE_ADMIN
  }

  function AdminCount(users: seq<User>): nat {
    if users == [] then 0
    else AdminCount(users[..|users| - 1]) + if ActiveAdmin(users[|users| - 1]) then 1 else 0
  }

  function DoChangeRole(s: Store, target: nat, newRole: int): Outcome {
    match Find(s.users, target)
    case None => Outcome(s, ERR_NOT_FOUND)
    case Some(u) =>
      if u.role == ROLE_ADMIN && newRole != ROLE_ADMIN && AdminCount(s.users) <= 1 then
        Outcome(s, ERR_PERMISSION)
      else
        Outcome(s.(users := Put(s.users, target, u.(role := newRole)),
                   log := s.log + [RoleChanged(target, u.role, newRole)]), ERR_OK)
  }

  function DoToggle(s: Store, actorRole: int, target: nat, newStatus: int): Outcome {
    match Find(s.users, target)
    case None => Outcome(s, ERR_NOT_FOUND)
    case Some(u) =>
      if u.role >= actorRole then Outcome(s, ERR_PERMISSION)
      else
        Outcome(s.(users := Put(s.users, target, u.(status := newStatus)),
                   log := s.log + [AccountToggled(target, newStatus)]), ERR_OK)
  }

  function DoDeleteUser(s: Store, target: nat): Outcome {
    match Find(s.users, target)
    case None => Outcome(s, ERR_NOT_FOUND)
    case Some(u) =>
      if u.role == ROLE_ADMIN then Outcome(s, ERR_PERMISSION)
      else
        Outcome(s.(users := Put(s.users, target, u.(deleted := true, status := ACCOUNT_INACTIVE)),
                   log := s.log + [UserDeleted(target)]), ERR_OK)
  }

  // ---------- server/wallet.c: handle_deposit ----------

  function DoDeposit(s: Store, user: nat, amount: int): Outcome {
    if amount <= 0 then Outcome(s, ERR_INTERNAL)
    else
      Outcome(CreditWallet(s, user, amount),
              if Accepts(s.users, user, amount, 0) then ERR_OK else ERR_INTERNAL)
  }

  // ---------- server/auction_engine.c ----------

  function DoCreate(s: Store, seller: nat, startPrice: int, reservePrice: int, duration: nat, now: int): Outcome {
    if startPrice <= 0 || duration < 10 then Outcome(s, ERR_INTERNAL)
    else
      var a := Auction(|s.auctions| + 1, seller, startPrice, reservePrice, startPrice, 0, Open, now + duration, 0);
      Outcome(s.(auctions := Put(s.auctions, a.id, a), log := s.log + [AuctionCreated(a.id, seller)]), ERR_OK)
  }

  predicate ReserveMet(a: Auction) {
    a.reservePrice == 0 || a.currentBid >= a.reservePrice
  }

  predicate Sells(a: Auction) {
    a.leader != 0 && ReserveMet(a)
  }

  /** The rewrite loop over bids.dat. */
  function MarkWinning(bids: seq<Bid>, auction: nat, winner: nat): seq<Bid> {
    if bids == [] then []
    else
      var b := bids[|bids| - 1];
      MarkWinning(bids[..|bids| - 1], auction, winner)
      + [if b.auction == auction && b.bidder == winner then b.(isWinning := true) else b]
  }

  function CloseInternal(s: Store, a: Auction): Store {
    var s1 := s.(auctions := Put(s.auctions, a.id, a.(status := Closed)));
    if Sells(a) then
      var s2 := s1.(log := s1.log + [WalSettle(a.id, a.leader, a.seller, a.currentBid)]);
      var s3 := SettlePayment(s2, a.leader, a.currentBid);
      var s4 := CreditWallet(s3, a.seller, a.currentBid);
      s4.(bids := MarkWinning(s4.bids, a.id, a.leader))
    else if a.leader != 0 then
      ReleaseHold(s1, a.leader, a.currentBid)
    else
      s1
  }

  function DoClose(s: Store, requester: nat, requesterRole: int, auction: nat): Outcome {
    match Find(s.auctions, auction)
    case None => Outcome(s, ERR_NOT_FOUND)
    case Some(a) =>
      if a.seller != requester && requesterRole != ROLE_ADMIN then Outcome(s, ERR_PERMISSION)
      else if a.status != Open then Outcome(s, ERR_AUCTION_CLOSED)
      else
        var s1 := CloseInternal(s, a);
        Outcome(s1.(log := s1.log + [AuctionClosed(auction, requester)]), ERR_OK)
  }

  /** One round of the timer's closing loop: re-read, and close if still open. */
  function DoExpire(s: Store, auction: nat): Store {
    match Find(s.auctions, auction)
    case None => s
    case Some(a) =>
      if a.status != Open then s
      else
        var s1 := CloseInternal(s, a);
        s1.(log := s1.log + [TimerClosed(auction)])
  }

  // ---------- server/bid_handler.c ----------

  function Raised(a: Auction, bidder: nat, amount: int): Auction {
    a.(currentBid := amount, leader := bidder, bidCount := a.bidCount + 1)
  }

  function DoBid(s: Store, bidder: nat, auction: nat, amount: int): Outcome {
    match Find(s.auctions, auction)
    case None => Outcome(s, ERR_NOT_FOUND)
    case Some(a) =>
      if a.status != Open then Outcome(s, ERR_AUCTION_CLOSED)
      else if !Exists(s.users, bidder) then Outcome(s, ERR_INTERNAL)
      else if amount > s.users[bidder - 1].wallet.Available() then Outcome(s, ERR_INSUFFICIENT)
      else if amount <= a.currentBid then Outcome(s, ERR_BID_TOO_LOW)
      else
        var s1 := if a.leader != 0 then ReleaseHold(s, a.leader, a.currentBid) else s;
        var s2 := PlaceHold(s1, bidder, amount);
        var s3 := s2.(auctions := Put(s2.auctions, auction, Raised(a, bidder, amount)));
        var b := Bid(|s3.bids| + 1, auction, bidder, amount, true);
        Outcome(s3.(bids := s3.bids + [b], log := s3.log + [BidPlaced(auction, bidder, amount)]), ERR_OK)
  }

  // ---------- server/dispute.c ----------

  function DoFile(s: Store, user: nat, auction: nat): Outcome {
    match Find(s.auctions, auction)
    case None => Outcome(s, ERR_NOT_FOUND)
    case Some(a) =>
      if a.status != Closed then Outcome(s, ERR_AUCTION_CLOSED)
      else
        var d := Dispute(|s.disputes| + 1, auction, user, 0, DisputeOpen);
        Outcome(s.(disputes := Put(s.disputes, d.id, d),
                   auctions := Put(s.auctions, auction, a.(status := Disputed)),
                   log := s.log + [DisputeFiled(d.id, auction, user)]), ERR_OK)
  }

  /** The refund: credit the leader, then debit the seller if its balance covers the amount. */
  function Refund(s: Store, dispute: nat, a: Auction): Store {
    var s1 := s.(log := s.log + [WalRefund(dispute, a.id, a.leader, a.seller, a.currentBid)]);
    var s2 := CreditWallet(s1, a.leader, a.currentBid);
    if !Exists(s2.users, a.seller) then s2
    else if s2.users[a.seller - 1].wallet.balance >= a.currentBid then
      CreditWallet(s2, a.seller, -a.currentBid)
    else
      s2.(log := s2.log + [RefundAnomaly])
  }

  function DoResolve(s: Store, moderator: nat, dispute: nat, verdict: DisputeStatus): Outcome {
    if verdict == DisputeOpen then Outcome(s, ERR_INTERNAL)
    else
      match Find(s.disputes, dispute)
      case None => Outcome(s, ERR_NOT_FOUND)
      case Some(d) =>
        if d.status != DisputeOpen then Outcome(s, ERR_INTERNAL)
        else
          var s1 := s.(disputes := Put(s.disputes, dispute, d.(status := verdict, resolvedBy := moderator)));
          match Find(s1.auctions, d.auction)
          case None => Outcome(s1, ERR_INTERNAL)
          case Some(a) =>
            var s2 := if verdict == DisputeResolved then Refund(s1, dispute, a)
                      else s1.(auctions := Put(s1.auctions, d.auction, a.(status := Closed)));
            Outcome(s2.(log := s2.log + [DisputeDecided(dispute, verdict, moderator)]), ERR_OK)
  }

  // ---------- one event, and runs of events ----------

  /** The user a request is served for, when its handler uses one. */
  function Actor(e: Event): Option<nat> {
    match e
    case Deposit(user, _) => Some(user)
    case CreateAuction(seller, _, _, _, _) => Some(seller)
    case PlaceBid(bidder, _, _) => Some(bidder)
    case CloseAuction(requester, _, _) => Some(requester)
    case FileDispute(user, _) => Some(user)
    case ResolveDispute(moderator, _, _) => Some(moderator)
    case _ => None
  }

  /** The role gates of the dispatch loop. No message reaches the soft delete, and the timer is not a request. */
  predicate Permits(role: int, e: Event) {
    match e
    case AddUser(_, _) => role == ROLE_ADMIN
    case ChangeRole(_, _) => role == ROLE_ADMIN
    case ToggleAccount(actorRole, _, _) => role >= ROLE_MODERATOR && actorRole == role
    case DeleteUser(_) => false
    case Deposit(_, _) => true
    case CreateAuction(_, _, _, _, _) => role == ROLE_AUCTIONEER || role == ROLE_ADMIN
    case PlaceBid(_, _, _) => role == ROLE_BIDDER
    case CloseAuction(_, requesterRole, _) => (role == ROLE_AUCTIONEER || role == ROLE_ADMIN) && requesterRole == role
    case Expire(_) => false
    case FileDispute(_, _) => role == ROLE_BIDDER
    case ResolveDispute(_, _, _) => role >= ROLE_MODERATOR
  }

  /** Requests are served only for a logged-in user, so for one that has a record. */
  predicate Served(s: Store, e: Event) {
    Actor(e).Some? ==> Exists(s.users, Actor(e).value)
  }

  function Handle(s: Store, e: Event): Outcome {
    match e
    case AddUser(username, role) => DoAddUser(s, username, role)
    case ChangeRole(target, newRole) => DoChangeRole(s, target, newRole)
    case ToggleAccount(actorRole, target, newStatus) => DoToggle(s, actorRole, target, newStatus)
    case DeleteUser(target) => DoDeleteUser(s, target)
    case Deposit(user, amount) => DoDeposit(s, user, amount)
    case CreateAuction(seller, startPrice, reservePrice, duration, now) =>
      DoCreate(s, seller, startPrice, reservePrice, duration, now)
    case PlaceBid(bidder, auction, amount) => DoBid(s, bidder, auction, amount)
    case CloseAuction(requester, requesterRole, auction) => DoClose(s, requester, requesterRole, auction)
    case Expire(auction) => Outcome(DoExpire(s, auction), ERR_OK)
    case FileDispute(user, auction) => DoFile(s, user, auction)
    case ResolveDispute(moderator, dispute, verdict) => DoResolve(s, moderator, dispute, verdict)
  }

  function Step(s: Store, e: Event): Outcome {
    if Served(s, e) then Handle(s, e) else Outcome(s, ERR_AUTH_FAIL)
  }

  /** The close goes through: the auction is open, and a manual request comes from its seller or an admin. */
  predicate Closes(s: Store, e: Event)
    requires e.CloseAuction? || e.Expire?
  {
    && Served(s, e)
    && Exists(s.auctions, e.auction) && s.auctions[e.auction - 1].status == Open
    && (e.CloseAuction? ==> s.auctions[e.auction - 1].seller == e.requester || e.requesterRole == ROLE_ADMIN)
  }

  function Exec(s: Store, es: seq<Event>): Store {
    if es == [] then s else Step(Exec(s, es[..|es| - 1]), es[|es| - 1]).store
  }

  /** The data directory right after seed_admin: one active admin, nothing else. */
  const SEED := Store([User(1, "admin", ROLE_ADMIN, ACCOUNT_ACTIVE, Wallet(0, 0), false)], [], [], [], [])
}
