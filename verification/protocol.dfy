/** handle_place_bid as small steps of any number of threads over the shared tables.
    Each step is one access to a file, one lock operation or one semaphore operation. */
module Protocol {
  import opened Records
  import opened Wallets
  import opened Events

  const SEM_SLOTS := 1024
  const LOCK_BUCKETS := 64

  /** (auction_id - 1) % 1024 in unsigned arithmetic. */
  function Slot(auction: nat): nat {
    (auction + SEM_SLOTS - 1) % SEM_SLOTS
  }

  function Bucket(user: nat): nat {
    user % LOCK_BUCKETS
  }

  /** The next thing a thread does. */
  datatype Pc =
    | AtPeek | AtCheck | AtWait | AtReread
    | AtRelLock | AtRelRead | AtRelWrite | AtRelUnlock
    | AtHoldLock | AtHoldCheck | AtHoldRead | AtHoldWrite | AtHoldUnlock
    | AtWrite | AtNextId | AtAppend | AtPost | AtDone

  function Rank(pc: Pc): nat {
    match pc
    case AtPeek => 0 case AtCheck => 1 case AtWait => 2 case AtReread => 3
    case AtRelLock => 4 case AtRelRead => 5 case AtRelWrite => 6 case AtRelUnlock => 7
    case AtHoldLock => 8 case AtHoldCheck => 9 case AtHoldRead => 10 case AtHoldWrite => 11 case AtHoldUnlock => 12
    case AtWrite => 13 case AtNextId => 14 case AtAppend => 15 case AtPost => 16 case AtDone => 17
  }

  /** One request: its arguments, and the handler's local variables. `rec` is the auction copy read
      inside the semaphore, `copy` the user record read inside a wallet lock. */
  datatype Thread = Thread(
    bidder: nat, auction: nat, amount: int, pc: Pc, rec: Auction, copy: User, bidId: nat, status: int)

  /** `sems` maps a taken semaphore to the thread that took it, `locks` a held wallet bucket to its holder. */
  datatype System = System(db: Store, threads: seq<Thread>, sems: map<nat, nat>, locks: map<nat, nat>)

  const NO_AUCTION := Auction(0, 0, 0, 0, 0, 0, Pending, 0, 0)
  const NO_USER := User(0, "", 0, 0, Wallet(0, 0), false)

  /** A thread moves unless it is done or waits for a semaphore or a lock. */
  predicate Enabled(y: System, t: nat) {
    && t < |y.threads|
    && var th := y.threads[t];
    && th.pc != AtDone
    && (th.pc == AtWait ==> Slot(th.auction) !in y.sems)
    && (th.pc == AtRelLock ==> Bucket(th.rec.leader) !in y.locks)
    && (th.pc == AtHoldLock ==> Bucket(th.bidder) !in y.locks)
  }

  /** What the thread itself becomes. */
  function Advance(db: Store, th: Thread): Thread {
    match th.pc
    case AtPeek =>
      if !Exists(db.auctions, th.auction) then th.(pc := AtDone, status := ERR_NOT_FOUND)
      else if db.auctions[th.auction - 1].status != Open then th.(pc := AtDone, status := ERR_AUCTION_CLOSED)
      else th.(pc := AtCheck)
    case AtCheck =>
      if !Exists(db.users, th.bidder) then th.(pc := AtDone, status := ERR_INTERNAL)
      else if th.amount > db.users[th.bidder - 1].wallet.Available() then th.(pc := AtDone, status := ERR_INSUFFICIENT)
      else th.(pc := AtWait)
    case AtWait => th.(pc := AtReread)
    case AtReread =>
      if !Exists(db.auctions, th.auction) then th.(pc := AtPost, status := ERR_NOT_FOUND)
      else
        var a := db.auctions[th.auction - 1];
        if a.status != Open then th.(pc := AtPost, status := ERR_AUCTION_CLOSED)
        else if th.amount <= a.currentBid then th.(pc := AtPost, status := ERR_BID_TOO_LOW)
        else th.(rec := a, pc := if a.leader != 0 then AtRelLock else AtHoldLock)
    case AtRelLock => th.(pc := AtRelRead)
    case AtRelRead =>
      if Exists(db.users, th.rec.leader) then th.(copy := db.users[th.rec.leader - 1], pc := AtRelWrite)
      else th.(pc := AtRelUnlock)
    case AtRelWrite => th.(pc := AtRelUnlock)
    case AtRelUnlock => th.(pc := AtHoldLock)
    case AtHoldLock => th.(pc := AtHoldCheck)
    case AtHoldCheck =>
      if !Exists(db.users, th.bidder) || th.amount > db.users[th.bidder - 1].wallet.Available() then
        th.(pc := AtHoldUnlock)
      else th.(pc := AtHoldRead)
    case AtHoldRead =>
      if Exists(db.users, th.bidder) then th.(copy := db.users[th.bidder - 1], pc := AtHoldWrite)
      else th.(pc := AtHoldUnlock)
    case AtHoldWrite => th.(pc := AtHoldUnlock)
    case AtHoldUnlock => th.(pc := AtWrite)
    case AtWrite => th.(pc := AtNextId)
    case AtNextId => th.(bidId := |db.bids| + 1, pc := AtAppend)
    case AtAppend => th.(pc := AtPost, status := ERR_OK)
    case AtPost => th.(pc := AtDone)
    case AtDone => th
  }

  /** Writing back a user copy after a guarded hold change, or nothing when it is refused. */
  function WriteBack(users: seq<User>, id: nat, copy: User, holdDelta: int): seq<User> {
    match Guarded(copy.wallet, 0, holdDelta)
    case None => users
    case Some(w) => Put(users, id, copy.(wallet := w))
  }

  /** What the step does to the tables. */
  function Touch(db: Store, th: Thread): Store {
    match th.pc
    case AtRelWrite => db.(users := WriteBack(db.users, th.rec.leader, th.copy, -th.rec.currentBid))
    case AtHoldWrite => db.(users := WriteBack(db.users, th.bidder, th.copy, th.amount))
    case AtWrite => db.(auctions := Put(db.auctions, th.auction, Raised(th.rec, th.bidder, th.amount)))
    case AtAppend => db.(bids := db.bids + [Bid(th.bidId, th.auction, th.bidder, th.amount, true)])
    case _ => db
  }

  function Sems(sems: map<nat, nat>, th: Thread, t: nat): map<nat, nat> {
    match th.pc
    case AtWait => sems[Slot(th.auction) := t]
    case AtPost => sems - {Slot(th.auction)}
    case _ => sems
  }

  function Locks(locks: map<nat, nat>, th: Thread, t: nat): map<nat, nat> {
    match th.pc
    case AtRelLock => locks[Bucket(th.rec.leader) := t]
    case AtRelUnlock => locks - {Bucket(th.rec.leader)}
    case AtHoldLock => locks[Bucket(th.bidder) := t]
    case AtHoldUnlock => locks - {Bucket(th.bidder)}
    case _ => locks
  }

  function ThreadStep(y: System, t: nat): System
    requires t < |y.threads|
  {
    var th := y.threads[t];
    System(Touch(y.db, th), y.threads[t := Advance(y.db, th)], Sems(y.sems, th, t), Locks(y.locks, th, t))
  }

  // ---------- the rest of the server, as atomic steps ----------

  predicate InCritical(th: Thread) {
    3 <= Rank(th.pc) <= 16
  }

  predicate InFlight(th: Thread) {
    th.pc != AtDone
  }

  /** Between re-read and write the thread works on its own copy of the auction record. */
  predicate HoldsCopy(th: Thread) {
    4 <= Rank(th.pc) <= 13
  }

  /** Some thread holds a copy of this auction's record. */
  ghost predicate CopyOut(y: System, auction: nat) {
    exists t :: 0 <= t < |y.threads| && HoldsCopy(y.threads[t]) && y.threads[t].auction == auction
  }

  /** The auction a refund is about, when the event makes one. */
  function RefundTarget(s: Store, e: Event): Option<Auction> {
    if e.ResolveDispute? && e.verdict == DisputeResolved && Served(s, e)
       && Exists(s.disputes, e.dispute) && s.disputes[e.dispute - 1].status == DisputeOpen then
      Find(s.auctions, s.disputes[e.dispute - 1].auction)
    else None
  }

  /** The wallets whose lock an event takes. A seller whose balance does not cover a refund is only read, outside
      the lock. */
  predicate Touches(s: Store, e: Event, u: nat) {
    || (e.Deposit? && e.amount > 0 && u == e.user)
    || ((e.CloseAuction? || e.Expire?) && Closes(s, e)
        && var a := s.auctions[e.auction - 1];
           (a.leader != 0 && u == a.leader) || (Sells(a) && u == a.seller))
    || (RefundTarget(s, e).Some?
        && var a := RefundTarget(s, e).value;
           || (a.leader != 0 && u == a.leader)
           || (u == a.seller && Exists(s.users, u) && a.currentBid <= s.users[u - 1].wallet.balance))
  }

  /** The refund takes the amount from a seller who does not get it back as the leader. */
  predicate Debits(s: Store, a: Auction) {
    && Exists(s.users, a.seller) && a.seller != a.leader
    && a.currentBid <= s.users[a.seller - 1].wallet.Available()
  }

  /** The bidder can afford the bid, and after the refund's debit no longer could. */
  predicate Undercuts(s: Store, a: Auction, bidder: nat, amount: int) {
    && bidder == a.seller && Debits(s, a)
    && var available := s.users[a.seller - 1].wallet.Available();
      available - a.currentBid < amount <= available
  }

  predicate OpenIn(s: Store, auction: nat) {
    Exists(s.auctions, auction) && s.auctions[auction - 1].status == Open
  }

  /** The thread relies on what its bidder can afford: from the check to the hold; and before the check,
      once the auction it found open is not open any more. */
  predicate Relies(s: Store, th: Thread) {
    2 <= Rank(th.pc) <= 11 || (th.pc == AtCheck && !OpenIn(s, th.auction))
  }

  /** Deposits, new auctions, closes and disputes may run between any two steps, under three conditions:
      wallet locks are respected; a close waits while a copy of its auction's record is out; and a refund
      does not undercut a bid that relies on its bidder's money. */
  ghost predicate EnvAllowed(y: System, e: Event) {
    && (e.Deposit? || e.CreateAuction? || e.CloseAuction? || e.Expire? || e.FileDispute? || e.ResolveDispute?)
    && LocksRespected(y, e)
    && ((e.CloseAuction? || e.Expire?) && Closes(y.db, e) ==> !CopyOut(y, e.auction))
    && (RefundTarget(y.db, e).Some? ==>
          forall t :: 0 <= t < |y.threads| && Relies(y.db, y.threads[t]) ==>
            !Undercuts(y.db, RefundTarget(y.db, e).value, y.threads[t].bidder, y.threads[t].amount))
  }

  ghost predicate LocksRespected(y: System, e: Event) {
    forall u: nat :: Touches(y.db, e, u) ==> Bucket(u) !in y.locks
  }

  /** A logged-in user has one connection and so at most one request in flight. */
  predicate MayBegin(y: System, bidder: nat) {
    && Exists(y.db.users, bidder)
    && forall t :: 0 <= t < |y.threads| && InFlight(y.threads[t]) ==> y.threads[t].bidder != bidder
  }

  datatype Action = Begin(bidder: nat, auction: nat, amount: int) | Run(t: nat) | Env(e: Event)

  ghost predicate Allowed(y: System, a: Action) {
    match a
    case Begin(bidder, _, _) => MayBegin(y, bidder)
    case Run(t) => Enabled(y, t)
    case Env(e) => EnvAllowed(y, e)
  }

  function Request(th: Thread): Event {
    PlaceBid(th.bidder, th.auction, th.amount)
  }

  function Next(y: System, a: Action): System {
    match a
    case Begin(bidder, auction, amount) =>
      y.(threads := y.threads + [Thread(bidder, auction, amount, AtPeek, NO_AUCTION, NO_USER, 0, ERR_OK)])
    case Run(t) => if t < |y.threads| then ThreadStep(y, t) else y
    case Env(e) => y.(db := Step(y.db, e).store)
  }

  ghost predicate Execution(y: System, acts: seq<Action>, z: System)
    decreases |acts|
  {
    if acts == [] then z == y
    else Allowed(y, acts[0]) && Execution(Next(y, acts[0]), acts[1..], z)
  }
}
