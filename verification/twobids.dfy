/** Two bids of one user in flight at once, as two connections of the same user allow them. */
module TwoBids {
  import opened Records
  import opened Sums
  import opened Events
  import opened Escrow
  import opened Protocol
  import opened Exclusion
  import opened Linearization
  import opened Schedules
  import opened Undercutting

  /** Both requests have begun, whether or not their users may have two in flight. */
  function BothIn(db: Store, one: Event, two: Event): System
    requires one.PlaceBid? && two.PlaceBid?
  {
    Next(Next(Start(db), Begin(one.bidder, one.auction, one.amount)), Begin(two.bidder, two.auction, two.amount))
  }

  /** Two acceptable bids of one user; on one and the same auction the second is the higher one. */
  predicate SameUser(db: Store, one: Event, two: Event) {
    && one.PlaceBid? && two.PlaceBid? && one.bidder == two.bidder
    && BidAccepted(db, one.bidder, one.auction, one.amount)
    && BidAccepted(db, two.bidder, two.auction, two.amount)
    && (one.auction == two.auction ==> one.amount < two.amount)
  }

  /** What the user has on hold as the leader of this auction. */
  function Led(lots: seq<Auction>, auction: nat, user: nat): int
    requires Exists(lots, auction)
  {
    if lots[auction - 1].leader == user then lots[auction - 1].currentBid else 0
  }

  function AfterBid(lots: seq<Auction>, e: Event): seq<Auction>
    requires e.PlaceBid? && Exists(lots, e.auction)
  {
    lots[e.auction - 1 := Raised(lots[e.auction - 1], e.bidder, e.amount)]
  }

  // ---------- both look ----------

  function Waiting(y: System, t: nat): System
    requires t < |y.threads|
  {
    y.(threads := y.threads[t := y.threads[t].(pc := AtWait)])
  }

  /** An acceptable bid peeks and checks. */
  lemma LooksUp(y: System, t: nat)
    requires t < |y.threads| && y.threads[t].pc == AtPeek
    requires BidAccepted(y.db, y.threads[t].bidder, y.threads[t].auction, y.threads[t].amount)
    ensures Execution(y, [Run(t), Run(t)], Waiting(y, t))
  {
    var y1 := ThreadStep(y, t);
    assert y1 == y.(threads := y.threads[t := y.threads[t].(pc := AtCheck)]);
    assert ThreadStep(y1, t) == Waiting(y, t);
    Nowhere(y);
    OneMore(y, [], y, Run(t));
    OneMore(y, [] + [Run(t)], y1, Run(t));
    assert [] + [Run(t)] + [Run(t)] == [Run(t), Run(t)];
  }

  lemma Nowhere(y: System)
    ensures Execution(y, [], y)
  {}

  /** Both have seen the money, and neither has taken any. */
  lemma BothLook(db: Store, one: Event, two: Event) returns (acts: seq<Action>, z: System)
    requires SameUser(db, one, two)
    ensures Execution(BothIn(db, one, two), acts, z) && BidsOnly(acts)
    ensures z.db == db && |z.threads| == 2 && z.sems == map[] && z.locks == map[]
    ensures z.threads[0].pc == AtWait && z.threads[1].pc == AtWait
    ensures Request(z.threads[0]) == one && Request(z.threads[1]) == two
  {
    hide Execution, ThreadStep;
    var y := BothIn(db, one, two);
    LooksUp(y, 0);
    LooksUp(Waiting(y, 0), 1);
    z := Waiting(Waiting(y, 0), 1);
    acts := [Run(0), Run(0)] + [Run(1), Run(1)];
    Chain(y, [Run(0), Run(0)], Waiting(y, 0), [Run(1), Run(1)], z);
  }

  // ---------- one after the other ----------

  lemma FreshExclusive(y: System)
    requires |y.threads| == 2 && y.sems == map[] && y.locks == map[]
    requires y.threads[0].pc == AtWait && y.threads[1].pc == AtWait
    ensures Exclusive(y) && ClearFor(y, 0)
  {}

  lemma DoneIsClear(y: System)
    requires |y.threads| == 2 && y.threads[0].pc == AtDone
    ensures ClearFor(y, 1)
  {}

  lemma SetsOut(y: System, t: nat, e: Event, w: Wallet, lots: seq<Auction>)
    requires t < |y.threads| && y.threads[t].pc == AtWait && e.PlaceBid? && Request(y.threads[t]) == e
    requires Exists(y.db.users, e.bidder) && y.db.users[e.bidder - 1].wallet == w && y.db.auctions == lots
    requires Exists(lots, e.auction) && lots[e.auction - 1].status == Open && lots[e.auction - 1].currentBid < e.amount
    ensures Alone(y, t, e.bidder, e.auction, e.amount, w, lots)
  {}

  lemma Arrived(y: System, t: nat, e: Event, w: Wallet, lots: seq<Auction>)
    requires e.PlaceBid? && Alone(y, t, e.bidder, e.auction, e.amount, w, lots) && y.threads[t].pc == AtDone
    ensures y.threads[t].status == ERR_OK && Request(y.threads[t]) == e
    ensures y.db.auctions == AfterBid(lots, e) && Exists(y.db.users, e.bidder)
    ensures y.db.users[e.bidder - 1].wallet == Left(lots[e.auction - 1], e.bidder, e.amount, w)
  {}

  /** What the user leads with is on hold, for both auctions together. */
  lemma LeadsBoth(s: Store, one: Event, two: Event)
    requires Sound(s) && SameUser(s, one, two)
    ensures var w := s.users[one.bidder - 1].wallet;
      && 0 <= w.hold <= w.balance
      && 0 < s.auctions[one.auction - 1].currentBid && 0 < s.auctions[two.auction - 1].currentBid
      && Led(s.auctions, one.auction, one.bidder) <= w.hold
      && (one.auction != two.auction ==>
            Led(s.auctions, one.auction, one.bidder) + Led(s.auctions, two.auction, one.bidder) <= w.hold)
  {
    var u := one.bidder;
    assert GoodUser(s, u - 1) && GoodAuction(s, one.auction - 1) && GoodAuction(s, two.auction - 1);
    SharesNonneg(s, u);
    SumOfCovers(s.auctions, one.auction - 1, ShareOf(u));
    if one.auction < two.auction {
      SumOfCoversTwo(s.auctions, one.auction - 1, two.auction - 1, ShareOf(u));
    } else if two.auction < one.auction {
      SumOfCoversTwo(s.auctions, two.auction - 1, one.auction - 1, ShareOf(u));
    }
  }

  /** The wallet the second bid finds, and what it leaves of it. */
  lemma SecondWallet(db: Store, one: Event, two: Event)
    requires Sound(db) && SameUser(db, one, two)
    ensures var w := db.users[one.bidder - 1].wallet;
      var lots := AfterBid(db.auctions, one);
      var w1 := Left(db.auctions[one.auction - 1], one.bidder, one.amount, w);
      var w2 := Left(lots[two.auction - 1], two.bidder, two.amount, w1);
      var free := w.Available() + Led(db.auctions, one.auction, one.bidder) - one.amount;
      && Backed(db.auctions[one.auction - 1], one.bidder, w) && Backed(lots[two.auction - 1], two.bidder, w1)
      && lots[two.auction - 1].status == Open && lots[two.auction - 1].currentBid < two.amount
      && w1.hold == w.hold - Led(db.auctions, one.auction, one.bidder) + one.amount && w1.Available() == free
      && w2.hold == w1.hold - Led(lots, two.auction, two.bidder)
           + if two.amount <= free + Led(lots, two.auction, two.bidder) then two.amount else 0
  {
    LeadsBoth(db, one, two);
  }

  /** Holds and escrow after both bids are recorded. */
  lemma RecordedEscrow(s: Store, t: Store, one: Event, two: Event)
    requires Sound(s) && SameUser(s, one, two) && Exists(t.users, one.bidder)
    requires t.auctions == AfterBid(AfterBid(s.auctions, one), two)
    requires t.users[one.bidder - 1].wallet.hold
      != s.users[one.bidder - 1].wallet.hold - Led(s.auctions, one.auction, one.bidder) + one.amount
         - Led(AfterBid(s.auctions, one), two.auction, two.bidder) + two.amount
    ensures !Sound(t)
  {
    var u := one.bidder;
    var lots := AfterBid(s.auctions, one);
    assert GoodUser(s, u - 1);
    EscrowedUpdate(s.auctions, one.auction - 1, lots[one.auction - 1], u);
    EscrowedUpdate(lots, two.auction - 1, t.auctions[two.auction - 1], u);
    assert Sound(t) ==> GoodUser(t, u - 1);
  }

  lemma MoneyDecides(s: Store, e: Event)
    requires e.PlaceBid? && Exists(s.auctions, e.auction) && Exists(s.users, e.bidder)
    requires s.auctions[e.auction - 1].status == Open && s.auctions[e.auction - 1].currentBid < e.amount
    ensures Step(s, e).status == if e.amount <= s.users[e.bidder - 1].wallet.Available() then ERR_OK else ERR_INSUFFICIENT
  {}

  /** One after the other, as atomic bids: the second is refused if the first left too little. */
  lemma InSequence(s: Store, one: Event, two: Event)
    requires Sound(s) && SameUser(s, one, two)
    ensures var s1 := Step(s, one);
      var free := s.users[one.bidder - 1].wallet.Available() + Led(s.auctions, one.auction, one.bidder) - one.amount;
      && s1.status == ERR_OK
      && Step(s1.store, two).status == if two.amount <= free then ERR_OK else ERR_INSUFFICIENT
  {
    hide Sound, DoBid;
    BidKeepsSound(s, one.bidder, one.auction, one.amount);
    MoneyDecides(BidStore(s, one.bidder, one.auction, one.amount), two);
  }

  /** Two bids of one user, both past the check before either takes its hold, run to the end one after the other.
      Both are accepted and recorded. The hold of the second is placed exactly when what the first left, with
      what the second bid's auction gives back, covers it; otherwise the user leads with nothing held. One after
      the other from the start, the second would have been refused. */
  lemma SecondBidUnheldIff(db: Store, one: Event, two: Event) returns (acts: seq<Action>, z: System)
    requires Sound(db) && SameUser(db, one, two)
    ensures Execution(BothIn(db, one, two), acts, z) && BidsOnly(acts)
    ensures |z.threads| == 2 && Request(z.threads[0]) == one && Request(z.threads[1]) == two
    ensures forall t :: 0 <= t < 2 ==> z.threads[t].pc == AtDone && z.threads[t].status == ERR_OK
    ensures var lots := AfterBid(db.auctions, one);
      var w := db.users[one.bidder - 1].wallet;
      var free := w.Available() + Led(db.auctions, one.auction, one.bidder) - one.amount;
      var back := Led(lots, two.auction, two.bidder);
      && z.db.auctions == AfterBid(lots, two) && Exists(z.db.users, one.bidder)
      && z.db.users[one.bidder - 1].wallet.hold
         == w.hold - Led(db.auctions, one.auction, one.bidder) + one.amount - back
            + (if two.amount <= free + back then two.amount else 0)
      && (two.amount > free + back ==> !Sound(z.db))
      && Step(Step(db, one).store, two).status == if two.amount <= free then ERR_OK else ERR_INSUFFICIENT
  {
    hide Execution, Sound, Exclusive, ClearFor, Alone, Backed, Left, SameUser, Step;
    var looks, y;
    looks, y := BothLook(db, one, two);
    FreshExclusive(y);
    AcceptedBoth(db, one, two);
    SecondWallet(db, one, two);
    var w := db.users[one.bidder - 1].wallet;
    SetsOut(y, 0, one, w, db.auctions);
    var first, m := AloneEnds(y, 0, one.bidder, one.auction, one.amount, w, db.auctions);
    Arrived(m, 0, one, w, db.auctions);
    DoneIsClear(m);
    var lots := AfterBid(db.auctions, one);
    var w1 := Left(db.auctions[one.auction - 1], one.bidder, one.amount, w);
    SetsOut(m, 1, two, w1, lots);
    var second;
    second, z := AloneEnds(m, 1, two.bidder, two.auction, two.amount, w1, lots);
    Arrived(z, 1, two, w1, lots);
    Chain(BothIn(db, one, two), looks, y, first, m);
    Chain(BothIn(db, one, two), looks + first, m, second, z);
    acts := looks + first + second;
    InSequence(db, one, two);
    if two.amount > w1.Available() + Led(lots, two.auction, two.bidder) {
      RecordedEscrow(db, z.db, one, two);
    }
  }

  lemma AcceptedBoth(db: Store, one: Event, two: Event)
    requires SameUser(db, one, two)
    ensures one.PlaceBid? && two.PlaceBid? && one.bidder == two.bidder && Exists(db.users, one.bidder)
    ensures Exists(db.auctions, one.auction) && Exists(db.auctions, two.auction)
    ensures db.auctions[one.auction - 1].status == Open && db.auctions[one.auction - 1].currentBid < one.amount
  {}
}
