/** Interleaved bids behave like atomic ones. An accepted bid takes effect at its first wallet write,
    a rejected one at the moment that justifies its reply; `History` records that sequential order
    beside the running system. */
module Refinement {
  import opened Records
  import opened Sums
  import opened Events
  import opened Escrow
  import opened Protocol
  import opened Exclusion
  import Disputes

  /** One entry of the sequential order: the bid of a thread, or an event of the rest of the server. */
  datatype Item = OfThread(t: nat) | OfEnv(e: Event)

  /** Positions in the sequential order: where the thread peeked, and where its bid takes effect. */
  datatype Mark = Mark(peekAt: nat, linAt: nat)

  /** `items` are the events that took effect, `trace` the sequential stores between them. */
  datatype History = History(trace: seq<Store>, items: seq<Item>, marks: seq<Mark>)

  function EventOf(threads: seq<Thread>, i: Item): Event {
    match i
    case OfThread(t) => if t < |threads| then Request(threads[t]) else Expire(0)
    case OfEnv(e) => e
  }

  // ---------- stages of an accepted bid ----------

  /** Past the first wallet write, before the bid is in the log. */
  predicate Committed(th: Thread) {
    7 <= Rank(th.pc) <= 15 && (th.rec.leader != 0 || Rank(th.pc) >= 12)
  }

  /** Committed, but the own hold is still to be written. */
  predicate Owing(th: Thread) {
    Committed(th) && Rank(th.pc) <= 11
  }

  /** Committed, but the auction record is still to be written. */
  predicate Unwritten(th: Thread) {
    Committed(th) && Rank(th.pc) <= 13
  }

  predicate Finished(th: Thread) {
    Rank(th.pc) >= 16
  }

  /** The bid has taken effect. */
  predicate Placed(th: Thread) {
    Committed(th) || (Finished(th) && th.status == ERR_OK)
  }

  // ---------- how the tables relate to the sequential store ----------

  function OwedBy(u: nat): Thread -> int {
    (th: Thread) => if Owing(th) && th.bidder == u then th.amount else 0
  }

  function Debt(threads: seq<Thread>, u: nat): int {
    SumOf(threads, OwedBy(u))
  }

  function PlusHold(u: User, amount: int): User {
    u.(wallet := Wallet(u.wallet.balance, u.wallet.hold + amount))
  }

  /** The sequential hold is the stored hold plus what a committed bid has yet to place. */
  predicate UserMatches(users: seq<User>, threads: seq<Thread>, abs: seq<User>, i: nat)
    requires i < |users| == |abs|
  {
    abs[i] == PlusHold(users[i], Debt(threads, i + 1))
  }

  ghost predicate UsersMatch(users: seq<User>, threads: seq<Thread>, abs: seq<User>) {
    |users| == |abs| && forall i :: 0 <= i < |users| ==> UserMatches(users, threads, abs, i)
  }

  /** The thread in the critical section of this very auction. */
  function Holder(y: System, auction: nat): Option<nat> {
    if Slot(auction) in y.sems && y.sems[Slot(auction)] < |y.threads|
       && y.threads[y.sems[Slot(auction)]].auction == auction then
      Some(y.sems[Slot(auction)])
    else None
  }

  /** The auction record as the sequential order sees it. */
  function Shown(y: System, i: nat): Auction
    requires i < |y.db.auctions|
  {
    match Holder(y, i + 1)
    case None => y.db.auctions[i]
    case Some(t) =>
      var th := y.threads[t];
      if Unwritten(th) then Raised(th.rec, th.bidder, th.amount) else y.db.auctions[i]
  }

  predicate AuctionMatches(y: System, abs: seq<Auction>, i: nat)
    requires i < |y.db.auctions| == |abs|
  {
    abs[i] == Shown(y, i)
  }

  ghost predicate AuctionsMatch(y: System, abs: seq<Auction>) {
    |y.db.auctions| == |abs| && forall i :: 0 <= i < |abs| ==> AuctionMatches(y, abs, i)
  }

  /** A logged bid without its id and flag. */
  datatype Offer = Offer(bidder: nat, amount: int)

  function OffersOn(bids: seq<Bid>, auction: nat): seq<Offer> {
    if bids == [] then []
    else
      var earlier := OffersOn(bids[..|bids| - 1], auction);
      var b := bids[|bids| - 1];
      if b.auction == auction then earlier + [Offer(b.bidder, b.amount)] else earlier
  }

  function Unlogged(y: System, auction: nat): seq<Offer> {
    match Holder(y, auction)
    case None => []
    case Some(t) =>
      var th := y.threads[t];
      if Committed(th) then [Offer(th.bidder, th.amount)] else []
  }

  predicate BidMatches(y: System, abs: seq<Bid>, a: nat) {
    OffersOn(abs, a) == OffersOn(y.db.bids, a) + Unlogged(y, a)
  }

  ghost predicate BidsMatch(y: System, abs: seq<Bid>) {
    forall a: nat :: BidMatches(y, abs, a)
  }

  // ---------- what each thread may rely on ----------

  function Avail(users: seq<User>, u: nat): int
    requires Exists(users, u)
  {
    users[u - 1].wallet.Available()
  }

  /** At the peek the auction was open, and a bid that cannot be afforded now could not be then. */
  predicate PeekStands(s: Store, db: Store, th: Thread) {
    && Exists(s.auctions, th.auction) && s.auctions[th.auction - 1].status == Open
    && Exists(s.users, th.bidder) && Exists(db.users, th.bidder)
    && (th.amount > Avail(db.users, th.bidder) ==> th.amount > Avail(s.users, th.bidder))
  }

  /** The local copies are still what the tables hold. */
  predicate CopiesStand(db: Store, th: Thread) {
    && (4 <= Rank(th.pc) <= 13 ==>
          && Exists(db.auctions, th.auction) && th.rec == db.auctions[th.auction - 1]
          && th.rec.status == Open && th.rec.currentBid < th.amount)
    && (4 <= Rank(th.pc) <= 7 ==> th.rec.leader != 0)
    && (th.pc == AtRelWrite ==> Exists(db.users, th.rec.leader) && th.copy == db.users[th.rec.leader - 1])
    && (th.pc == AtHoldWrite ==> Exists(db.users, th.bidder) && th.copy == db.users[th.bidder - 1])
  }

  /** The optimistic wallet check is still valid, from the check to the hold. */
  predicate CheckStands(db: Store, th: Thread) {
    && Exists(db.users, th.bidder)
    && (2 <= Rank(th.pc) <= 11 ==> th.amount <= Avail(db.users, th.bidder))
  }

  /** The reply of a finished bid is the reply of the atomic bid where it takes effect. */
  predicate ReplyStands(h: History, t: nat, th: Thread)
    requires t < |h.marks|
  {
    var k := h.marks[t].linAt;
    && (Placed(th) ==> k < |h.items| && h.items[k] == OfThread(t))
    && (Placed(th) || Finished(th) ==>
          k < |h.trace| && Step(h.trace[k], Request(th)).status == if Placed(th) then ERR_OK else th.status)
  }

  predicate ThreadOk(y: System, h: History, t: nat)
    requires t < |y.threads| == |h.marks|
  {
    ThreadStands(y.db, h, t, y.threads[t])
  }

  predicate ThreadStands(db: Store, h: History, t: nat, th: Thread)
    requires t < |h.marks|
  {
    && CopiesStand(db, th) && CheckStands(db, th) && ReplyStands(h, t, th)
    && (th.pc == AtCheck ==> h.marks[t].peekAt < |h.trace| && PeekStands(h.trace[h.marks[t].peekAt], db, th))
  }

  predicate StepAt(threads: seq<Thread>, h: History, k: nat)
    requires k < |h.items| && |h.trace| == |h.items| + 1
  {
    h.trace[k + 1] == Step(h.trace[k], EventOf(threads, h.items[k])).store
  }

  predicate OwnerAt(threads: seq<Thread>, h: History, k: nat)
    requires k < |h.items| && |h.marks| == |threads|
  {
    h.items[k].OfThread? ==>
      var t := h.items[k].t;
      t < |threads| && Placed(threads[t]) && h.marks[t].linAt == k
  }

  /** The trace is the sequential execution of the items, and each accepted bid is in it once. */
  ghost predicate Chronicle(threads: seq<Thread>, h: History) {
    && |h.trace| == |h.items| + 1 && |h.marks| == |threads|
    && (forall k :: 0 <= k < |h.items| ==> StepAt(threads, h, k))
    && (forall k :: 0 <= k < |h.items| ==> OwnerAt(threads, h, k))
  }

  function Last(h: History): Store
    requires h.trace != []
  {
    h.trace[|h.trace| - 1]
  }

  ghost predicate OnePerUser(threads: seq<Thread>) {
    forall t, u :: 0 <= t < u < |threads| && InFlight(threads[t]) && InFlight(threads[u]) ==>
      threads[t].bidder != threads[u].bidder
  }

  ghost predicate AllOk(y: System, h: History)
    requires |h.marks| == |y.threads|
  {
    forall t :: 0 <= t < |y.threads| ==> ThreadOk(y, h, t)
  }

  ghost predicate Matches(y: System, abs: Store) {
    && UsersMatch(y.db.users, y.threads, abs.users)
    && AuctionsMatch(y, abs.auctions)
    && BidsMatch(y, abs.bids)
    && y.db.disputes == abs.disputes
  }

  ghost predicate Inv(y: System, h: History) {
    && Exclusive(y)
    && Chronicle(y.threads, h)
    && Sound(Last(h)) && Disputes.Reviewed(Last(h))
    && Matches(y, Last(h))
    && AllOk(y, h)
    && OnePerUser(y.threads)
  }

  function Earliest(m: Mark): nat {
    if m.peekAt < m.linAt then m.peekAt else m.linAt
  }

  /** A mark moves only to where the thread peeked or to the present. */
  predicate MarkKept(m: Mark, m': Mark, now: nat) {
    Earliest(m') >= Earliest(m) || Earliest(m') >= now
  }

  /** The sequential order only grew, by at most the bid of thread `t`. */
  predicate Grows(h: History, h': History, t: nat) {
    && h.trace <= h'.trace && (h'.items == h.items || h'.items == h.items + [OfThread(t)])
    && t < |h.marks| == |h'.marks| && h'.marks == h.marks[t := h'.marks[t]]
    && MarkKept(h.marks[t], h'.marks[t], |h.items|)
  }

  /** From one moment of a run to a later one: the order only grew, finished bids keep their place, and
      no bid, begun or yet to begin, is put before what had already happened. */
  ghost predicate Later(y: System, h: History, z: System, h': History) {
    && h.trace <= h'.trace && h.items <= h'.items
    && |h.marks| == |y.threads| <= |z.threads| == |h'.marks|
    && (forall t :: 0 <= t < |y.threads| ==> MarkKept(h.marks[t], h'.marks[t], |h.items|))
    && (forall t :: 0 <= t < |y.threads| && y.threads[t].pc == AtDone ==>
          z.threads[t] == y.threads[t] && h'.marks[t] == h.marks[t])
    && (forall u :: |y.threads| <= u < |z.threads| ==> |h.items| <= Earliest(h'.marks[u]))
  }

  lemma LaterStill(y: System, h: History, y1: System, h1: History, z: System, h2: History)
    requires Later(y, h, y1, h1) && Later(y1, h1, z, h2)
    ensures Later(y, h, z, h2)
  {
    forall t | 0 <= t < |y.threads| ensures MarkKept(h.marks[t], h2.marks[t], |h.items|) {
      assert MarkKept(h1.marks[t], h2.marks[t], |h1.items|);
    }
    forall u | |y.threads| <= u < |z.threads| ensures |h.items| <= Earliest(h2.marks[u]) {
      if u < |y1.threads| {
        assert MarkKept(h1.marks[u], h2.marks[u], |h1.items|);
      }
    }
  }

  // ---------- consequences used throughout ----------

  /** A user with a bid in flight that owes nothing owes nothing at all. */
  lemma NoDebt(threads: seq<Thread>, t: nat)
    requires OnePerUser(threads) && t < |threads| && InFlight(threads[t]) && !Owing(threads[t])
    ensures Debt(threads, threads[t].bidder) == 0
  {
    SumOfZero(threads, OwedBy(threads[t].bidder));
  }

  lemma OwnDebt(threads: seq<Thread>, t: nat)
    requires OnePerUser(threads) && t < |threads| && Owing(threads[t])
    ensures Debt(threads, threads[t].bidder) == threads[t].amount
  {
    SumOfOnly(threads, t, OwedBy(threads[t].bidder));
  }

  /** Status and, for auctions that are not open, the whole record are the same on both sides. */
  lemma ShownStatus(y: System, h: History, i: nat)
    requires Inv(y, h) && i < |y.db.auctions|
    ensures Last(h).auctions[i].status == y.db.auctions[i].status
    ensures y.db.auctions[i].status != Open ==> Last(h).auctions[i] == y.db.auctions[i]
  {
    hide Step;
    assert AuctionMatches(y, Last(h).auctions, i);
    if Holder(y, i + 1).Some? {
      var t := Holder(y, i + 1).value;
      assert ThreadOk(y, h, t);
    }
  }

  /** An owing bid's amount is escrowed by the auction it is about to be written to. */
  lemma OwingShare(y: System, h: History, t: nat)
    requires Inv(y, h) && t < |y.threads| && Owing(y.threads[t])
    ensures var th := y.threads[t];
      && Exists(Last(h).auctions, th.auction)
      && ShareOf(th.bidder)(Last(h).auctions[th.auction - 1]) == th.amount
      && Holder(y, th.auction) == Some(t)
  {
    hide Step, Sound;
    var th := y.threads[t];
    assert ThreadOk(y, h, t);
    assert InCritical(th);
    assert AuctionMatches(y, Last(h).auctions, th.auction - 1);
  }

  /** No committed bid is about to replace the record. */
  predicate Settled(y: System, i: nat) {
    Holder(y, i + 1).Some? ==> !Unwritten(y.threads[Holder(y, i + 1).value])
  }

  predicate OwesFor(th: Thread, u: nat) {
    Owing(th) && th.bidder == u
  }

  /** What is owed for a user is part of the escrow... */
  lemma DebtEscrowed(y: System, h: History, u: nat)
    requires Inv(y, h)
    ensures Debt(y.threads, u) <= Escrowed(Last(h).auctions, u)
  {
    hide Step, Sound, BidsMatch, UsersMatch, AuctionsMatch, Exclusive;
    SharesNonneg(Last(h), u);
    if t :| 0 <= t < |y.threads| && OwesFor(y.threads[t], u) {
      OwnDebt(y.threads, t);
      OwingShare(y, h, t);
      SumOfCovers(Last(h).auctions, y.threads[t].auction - 1, ShareOf(u));
    } else {
      assert forall t :: 0 <= t < |y.threads| ==> !OwesFor(y.threads[t], u);
      SumOfZero(y.threads, OwedBy(u));
    }
  }

  /** ...and comes on top of every auction whose record stands. */
  lemma DebtAndShare(y: System, h: History, u: nat, i: nat)
    requires Inv(y, h) && i < |Last(h).auctions| && Settled(y, i)
    ensures Debt(y.threads, u) + Share(Last(h).auctions[i], u) <= Escrowed(Last(h).auctions, u)
  {
    hide Step, Sound, BidsMatch, UsersMatch, AuctionsMatch, Exclusive;
    var lots := Last(h).auctions;
    SharesNonneg(Last(h), u);
    SumOfCovers(lots, i, ShareOf(u));
    if t :| 0 <= t < |y.threads| && OwesFor(y.threads[t], u) {
      OwnDebt(y.threads, t);
      OwingShare(y, h, t);
      var j := y.threads[t].auction - 1;
      assert i != j;
      if i < j { SumOfCoversTwo(lots, i, j, ShareOf(u)); } else { SumOfCoversTwo(lots, j, i, ShareOf(u)); }
    } else {
      assert forall t :: 0 <= t < |y.threads| ==> !OwesFor(y.threads[t], u);
      SumOfZero(y.threads, OwedBy(u));
    }
  }

  /** Stored wallets stay solvent in every intermediate state. */
  lemma StoredSolvent(y: System, h: History, u: nat)
    requires Inv(y, h) && Exists(y.db.users, u)
    ensures Solvent(y.db.users[u - 1].wallet)
    ensures y.db.users[u - 1].wallet.hold == Escrowed(Last(h).auctions, u) - Debt(y.threads, u)
  {
    hide Step;
    var abs := Last(h);
    assert GoodUser(abs, u - 1);
    assert UserMatches(y.db.users, y.threads, abs.users, u - 1);
    DebtEscrowed(y, h, u);
    DebtNonneg(y, h, u);
  }

  lemma DebtNonneg(y: System, h: History, u: nat)
    requires Inv(y, h)
    ensures Debt(y.threads, u) >= 0
  {
    hide Step, BidsMatch, UsersMatch, AuctionsMatch, Exclusive;
    forall t | 0 <= t < |y.threads| ensures OwedBy(u)(y.threads[t]) >= 0 {
      var th := y.threads[t];
      if Owing(th) {
        OwingShare(y, h, t);
        assert GoodAuction(Last(h), th.auction - 1);
      }
    }
    SumOfNonneg(y.threads, OwedBy(u));
  }

  /** A stored hold covers the current bid of an open auction whose record stands. */
  lemma StoredCovers(y: System, h: History, i: nat)
    requires Inv(y, h) && i < |y.db.auctions| && Settled(y, i)
    requires y.db.auctions[i].status == Open && y.db.auctions[i].leader != 0
    ensures Last(h).auctions[i] == y.db.auctions[i]
    ensures LeaderHolds(y.db.users, y.db.auctions[i])
  {
    hide Step;
    var a := y.db.auctions[i];
    assert AuctionMatches(y, Last(h).auctions, i);
    assert GoodAuction(Last(h), i);
    DebtAndShare(y, h, a.leader, i);
    StoredSolvent(y, h, a.leader);
  }
}
