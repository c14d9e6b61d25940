/** Exactly when a refund takes away the money a bid relies on, and what becomes of the bid. */
module Undercutting {
  import opened Records
  import opened Wallets
  import opened Events
  import opened Escrow
  import opened Protocol
  import opened Exclusion
  import opened Refinement
  import opened Commits
  import opened Environment
  import opened Linearization
  import opened Schedules
  import opened Steps
  import opened Races
  import opened Stage
  import Disputes

  /** In every reachable state, a refund breaks the optimistic check of a bid between check and hold
      exactly when it undercuts it: the bidder is the seller to be debited, is not credited as the leader,
      the debit goes through, and what is left is below the amount. */
  lemma RefundBreaksCheckIff(db: Store, acts: seq<Action>, y: System, e: Event, t: nat)
    requires Sound(db) && Disputes.Reviewed(db) && Execution(Start(db), acts, y)
    requires RefundTarget(y.db, e).Some? && t < |y.threads| && 2 <= Rank(y.threads[t].pc) <= 11
    ensures var th := y.threads[t];
      var after := Step(y.db, e).store;
      && Exists(after.users, th.bidder)
      && (th.amount > Avail(after.users, th.bidder)
          <==> Undercuts(y.db, RefundTarget(y.db, e).value, th.bidder, th.amount))
  {
    hide Step, Inv, Execution, Sound, Disputes.Reviewed;
    var h := ReachableInv(db, acts, y);
    StillAffords(y, h, t);
    RefundOutcome(y, h, e, y.threads[t].bidder);
  }

  /** What a refund leaves available to one user. */
  lemma RefundLeaves(users: seq<User>, a: Auction, u: nat)
    requires 0 < a.currentBid && Exists(users, a.seller) && Exists(users, u)
    requires Solvent(users[u - 1].wallet) && Solvent(users[a.seller - 1].wallet)
    ensures var back := ApplyDelta(users, a.leader, a.currentBid, 0);
      var after := if back[a.seller - 1].wallet.balance >= a.currentBid then ApplyDelta(back, a.seller, -a.currentBid, 0)
                   else back;
      && |after| == |users| && after[u - 1].wallet.hold == users[u - 1].wallet.hold
      && Avail(after, u) == Avail(users, u) + (if u == a.leader then a.currentBid else 0)
         - (if u == a.seller && (a.seller == a.leader || a.currentBid <= Avail(users, u)) then a.currentBid else 0)
  {}

  /** What a refund leaves in a running system. */
  lemma RefundOutcome(y: System, h: History, e: Event, u: nat)
    requires Inv(y, h) && RefundTarget(y.db, e).Some? && Exists(y.db.users, u)
    ensures var a := RefundTarget(y.db, e).value;
      var after := Step(y.db, e).store;
      && Exists(y.db.users, a.seller) && Solvent(y.db.users[u - 1].wallet)
      && |after.users| == |y.db.users| && after.auctions == y.db.auctions
      && after.users[u - 1].wallet.hold == y.db.users[u - 1].wallet.hold
      && Solvent(after.users[u - 1].wallet)
      && Avail(after.users, u) == Avail(y.db.users, u) + (if u == a.leader then a.currentBid else 0)
         - (if u == a.seller && (a.seller == a.leader || a.currentBid <= Avail(y.db.users, u)) then a.currentBid else 0)
      && 0 < a.currentBid
  {
    hide Step, ApplyDelta, Matches, Sound, Disputes.Reviewed, Exclusive, AllOk;
    var a := RefundTarget(y.db, e).value;
    DisputedSame(y, h, e);
    RefundStep(y.db, e, a);
    StoredSolvent(y, h, u);
    StoredSolvent(y, h, a.seller);
    RefundLeaves(y.db.users, a, u);
  }

  /** What a leader who bids again gets back first. */
  function Freed(a: Auction, bidder: nat, w: Wallet): Wallet {
    if a.leader == bidder then Wallet(w.balance, w.hold - a.currentBid) else w
  }

  /** What the bid leaves of the bidder's wallet: the hold is placed when what is free by then covers it. */
  function Left(a: Auction, bidder: nat, amount: int, w: Wallet): Wallet {
    var v := Freed(a, bidder, w);
    if amount <= v.Available() then Wallet(v.balance, v.hold + amount) else v
  }

  /** A bid alone on its way from its check to the end, while all others stand still. `w` is its bidder's wallet
      and `lots` the auctions when it sets out; nobody asks any more whether the amount is available. */
  predicate Alone(y: System, t: nat, bidder: nat, auction: nat, amount: int, w: Wallet, lots: seq<Auction>) {
    && t < |y.threads|
    && Exists(lots, auction)
    && var th := y.threads[t];
    && var a := lots[auction - 1];
    && Request(th) == PlaceBid(bidder, auction, amount) && 2 <= Rank(th.pc)
    && Exists(y.db.users, bidder) && a.status == Open && a.currentBid < amount
    && y.db.users[bidder - 1].wallet == WalletAt(th.pc, a, bidder, amount, w)
    && (4 <= Rank(th.pc) <= 13 ==> th.rec == a)
    && (4 <= Rank(th.pc) <= 7 ==> a.leader != 0)
    && (th.pc == AtRelWrite && a.leader == bidder ==> th.copy == y.db.users[bidder - 1])
    && (th.pc in {AtHoldRead, AtHoldWrite} ==> amount <= Freed(a, bidder, w).Available())
    && (th.pc == AtHoldWrite ==> th.copy == y.db.users[bidder - 1])
    && (8 <= Rank(th.pc) && a.leader == 0 ==> Freed(a, bidder, w) == w)
    && y.db.auctions == (if Rank(th.pc) <= 13 then lots else lots[auction - 1 := Raised(a, bidder, amount)])
    && (16 <= Rank(th.pc) ==> th.status == ERR_OK)
  }

  function WalletAt(pc: Pc, a: Auction, bidder: nat, amount: int, w: Wallet): Wallet {
    if Rank(pc) <= 6 then w
    else if Rank(pc) <= 11 then Freed(a, bidder, w)
    else Left(a, bidder, amount, w)
  }

  /** The wallet is solvent, and holds what its user leads this auction with. */
  predicate Backed(a: Auction, bidder: nat, w: Wallet) {
    0 <= w.hold <= w.balance && 0 < a.currentBid && (a.leader == bidder ==> a.currentBid <= w.hold) && bidder != 0
  }

  lemma AloneReads(y: System, t: nat, bidder: nat, auction: nat, amount: int, w: Wallet, lots: seq<Auction>)
    requires Alone(y, t, bidder, auction, amount, w, lots) && Rank(y.threads[t].pc) <= 12
    requires y.threads[t].pc !in {AtRelWrite, AtHoldWrite} && Backed(lots[auction - 1], bidder, w)
    ensures Alone(ThreadStep(y, t), t, bidder, auction, amount, w, lots)
    ensures Rank(ThreadStep(y, t).threads[t].pc) > Rank(y.threads[t].pc)
  {
    hide Locks, Sems, WriteBack;
    assert Touch(y.db, y.threads[t]) == y.db;
  }

  lemma AloneMovesMoney(y: System, t: nat, bidder: nat, auction: nat, amount: int, w: Wallet, lots: seq<Auction>)
    requires Alone(y, t, bidder, auction, amount, w, lots) && y.threads[t].pc in {AtRelWrite, AtHoldWrite}
    requires Backed(lots[auction - 1], bidder, w)
    ensures Alone(ThreadStep(y, t), t, bidder, auction, amount, w, lots)
    ensures Rank(ThreadStep(y, t).threads[t].pc) > Rank(y.threads[t].pc)
  {
    hide Locks, Sems, WriteBack;
    var th := y.threads[t];
    if th.pc == AtRelWrite {
      ReleaseOwn(y.db.users, th, bidder, lots[auction - 1], w);
    } else {
      QuietWriteBack(y.db.users, bidder, amount);
    }
  }

  lemma AloneRecords(y: System, t: nat, bidder: nat, auction: nat, amount: int, w: Wallet, lots: seq<Auction>)
    requires Alone(y, t, bidder, auction, amount, w, lots) && 13 <= Rank(y.threads[t].pc) <= 16
    ensures Alone(ThreadStep(y, t), t, bidder, auction, amount, w, lots)
    ensures Rank(ThreadStep(y, t).threads[t].pc) > Rank(y.threads[t].pc)
  {
    hide Locks, Sems, WriteBack;
  }

  lemma AloneGoesOn(y: System, t: nat, bidder: nat, auction: nat, amount: int, w: Wallet, lots: seq<Auction>)
    requires Alone(y, t, bidder, auction, amount, w, lots) && y.threads[t].pc != AtDone
    requires Backed(lots[auction - 1], bidder, w)
    ensures Alone(ThreadStep(y, t), t, bidder, auction, amount, w, lots)
    ensures Rank(ThreadStep(y, t).threads[t].pc) > Rank(y.threads[t].pc)
  {
    hide ThreadStep;
    if y.threads[t].pc in {AtRelWrite, AtHoldWrite} {
      AloneMovesMoney(y, t, bidder, auction, amount, w, lots);
    } else if Rank(y.threads[t].pc) <= 12 {
      AloneReads(y, t, bidder, auction, amount, w, lots);
    } else {
      AloneRecords(y, t, bidder, auction, amount, w, lots);
    }
  }

  /** The release touches the bidder only when the bidder leads, and then passes the guards. */
  lemma ReleaseOwn(users: seq<User>, th: Thread, bidder: nat, a: Auction, w: Wallet)
    requires Exists(users, bidder) && users[bidder - 1].wallet == w && Backed(a, bidder, w)
    requires th.rec == a && (a.leader == bidder ==> th.copy == users[bidder - 1])
    ensures var after := WriteBack(users, th.rec.leader, th.copy, -th.rec.currentBid);
      Exists(after, bidder) && after[bidder - 1].wallet == Freed(a, bidder, w)
  {
    if a.leader == bidder {
      QuietWriteBack(users, bidder, -a.currentBid);
    }
  }

  lemma AloneMoves(y: System, t: nat)
    requires ClearFor(y, t)
    ensures OnlyMoved(y, ThreadStep(y, t), t) && ClearFor(ThreadStep(y, t), t)
  {
    hide Touch, Locks, Sems, OutOfTheWay;
    StillClear(y, ThreadStep(y, t), t);
  }

  lemma {:induction false} AloneEnds(y: System, t: nat, bidder: nat, auction: nat, amount: int, w: Wallet, lots: seq<Auction>)
    returns (acts: seq<Action>, z: System)
    requires Exclusive(y) && ClearFor(y, t)
    requires Alone(y, t, bidder, auction, amount, w, lots) && Backed(lots[auction - 1], bidder, w)
    ensures Execution(y, acts, z) && BidsOnly(acts) && Exclusive(z) && OnlyMoved(y, z, t)
    ensures Alone(z, t, bidder, auction, amount, w, lots) && z.threads[t].pc == AtDone
    decreases 17 - Rank(y.threads[t].pc)
  {
    hide ThreadStep, Exclusive, Enabled;
    if y.threads[t].pc == AtDone {
      acts, z := [], y;
    } else {
      ClearCanMove(y, t);
      ThreadKeepsExclusive(y, t);
      AloneMoves(y, t);
      AloneGoesOn(y, t, bidder, auction, amount, w, lots);
      var rest;
      rest, z := AloneEnds(ThreadStep(y, t), t, bidder, auction, amount, w, lots);
      acts := [Run(t)] + rest;
      assert acts[1..] == rest;
    }
  }

  lemma RefundSetsOut(y: System, h: History, e: Event, bidder: nat, auction: nat, amount: int)
    requires Inv(y, h) && |y.threads| == 1 && y.threads[0].pc == AtWait
    requires Request(y.threads[0]) == PlaceBid(bidder, auction, amount)
    requires BidAccepted(y.db, bidder, auction, amount) && RefundTarget(y.db, e).Some?
    ensures Exclusive(Happens(y, e)) && ClearFor(Happens(y, e), 0) && Exists(Happens(y, e).db.users, bidder)
    ensures var w := Happens(y, e).db.users[bidder - 1].wallet;
      && Alone(Happens(y, e), 0, bidder, auction, amount, w, y.db.auctions) && Backed(y.db.auctions[auction - 1], bidder, w)
      && w.hold == y.db.users[bidder - 1].wallet.hold
  {
    hide Step, Matches, Disputes.Reviewed, Sound, Chronicle, RefundTarget;
    RefundOutcome(y, h, e, bidder);
    NoCopySame(y, h, auction);
    StoredPositive(y, h, auction);
    if y.db.auctions[auction - 1].leader != 0 {
      StoredCovers(y, h, auction - 1);
    }
  }

  lemma StoredPositive(y: System, h: History, auction: nat)
    requires Inv(y, h) && Exists(y.db.auctions, auction) && !CopyOut(y, auction)
    ensures 0 < y.db.auctions[auction - 1].currentBid
  {
    hide Step;
    NoCopySame(y, h, auction);
    assert GoodAuction(Last(h), auction - 1);
  }

  /** The result of place_hold is ignored, and this is what that means. For every acceptable bid and every
      refund there is an execution in which the refund runs between check and hold. The bid is accepted and
      recorded in any case; its hold is placed exactly when what the refund left, with what a leader gets
      back, covers the amount. */
  lemma RefundBetweenCheckAndHold(db: Store, bidder: nat, auction: nat, amount: int, e: Event)
    returns (acts: seq<Action>, y: System, more: seq<Action>, z: System)
    requires Sound(db) && Disputes.Reviewed(db)
    requires BidAccepted(db, bidder, auction, amount) && RefundTarget(db, e).Some?
    ensures Execution(Start(db), acts, y) && y.db == db && |y.threads| == 1 && y.threads[0].pc == AtWait
    ensures Execution(Happens(y, e), more, z) && BidsOnly(more)
    ensures |z.threads| == 1 && z.threads[0].pc == AtDone && z.threads[0].status == ERR_OK
    ensures Request(z.threads[0]) == PlaceBid(bidder, auction, amount)
    ensures z.db.auctions == db.auctions[auction - 1 := Raised(db.auctions[auction - 1], bidder, amount)]
    ensures Exists(z.db.users, bidder) && Exists(Happens(y, e).db.users, bidder)
    ensures var w := Happens(y, e).db.users[bidder - 1].wallet;
      var back := if db.auctions[auction - 1].leader == bidder then db.auctions[auction - 1].currentBid else 0;
      && w.hold == db.users[bidder - 1].wallet.hold
      && z.db.users[bidder - 1].wallet.hold == w.hold - back + (if amount <= w.Available() + back then amount else 0)
      && (amount > w.Available() + back ==> !Sound(z.db))
  {
    hide Step, Inv, Execution, ClearFor, OnItsWay, Sound, Disputes.Reviewed, ThreadStep, RefundTarget, Exclusive;
    var y0, h0 := Begun(db, bidder, auction, amount);
    var looks, h;
    looks, y, h := Looks(y0, h0, 0, 2);
    acts := [Begin(bidder, auction, amount)] + looks;
    Chain(Start(db), [Begin(bidder, auction, amount)], y0, looks, y);
    RefundSetsOut(y, h, e, bidder, auction, amount);
    more, z := AloneEnds(Happens(y, e), 0, bidder, auction, amount, Happens(y, e).db.users[bidder - 1].wallet, db.auctions);
    NotHeld(db, z.db, bidder, auction, amount);
  }

  /** In particular, of a user who does not lead already: an undercut bid is recorded with nothing held. */
  lemma UndercutBidIsRecorded(db: Store, bidder: nat, auction: nat, amount: int, e: Event)
    returns (acts: seq<Action>, y: System, more: seq<Action>, z: System)
    requires Sound(db) && Disputes.Reviewed(db)
    requires BidAccepted(db, bidder, auction, amount) && db.auctions[auction - 1].leader != bidder
    requires RefundTarget(db, e).Some? && Undercuts(db, RefundTarget(db, e).value, bidder, amount)
    ensures Execution(Start(db), acts, y) && y.db == db && |y.threads| == 1 && y.threads[0].pc == AtWait
    ensures Execution(Happens(y, e), more, z) && BidsOnly(more)
    ensures |z.threads| == 1 && z.threads[0].pc == AtDone && z.threads[0].status == ERR_OK
    ensures Request(z.threads[0]) == PlaceBid(bidder, auction, amount)
    ensures Exists(z.db.auctions, auction) && z.db.auctions[auction - 1] == Raised(db.auctions[auction - 1], bidder, amount)
    ensures Exists(z.db.users, bidder) && z.db.users[bidder - 1].wallet.hold == db.users[bidder - 1].wallet.hold
    ensures !Sound(z.db)
  {
    hide Execution, Sound, Disputes.Reviewed, Undercuts, RefundTarget, Step;
    acts, y, more, z := RefundBetweenCheckAndHold(db, bidder, auction, amount, e);
    UndercutLeaves(db, e, bidder, amount);
  }

  lemma UndercutLeaves(s: Store, e: Event, bidder: nat, amount: int)
    requires Sound(s) && Disputes.Reviewed(s)
    requires RefundTarget(s, e).Some? && Undercuts(s, RefundTarget(s, e).value, bidder, amount)
    ensures Exists(Step(s, e).store.users, bidder) && amount > Avail(Step(s, e).store.users, bidder)
  {
    hide Step, ApplyDelta, Sound, Inv, Disputes.Reviewed;
    StartInv(s);
    RefundOutcome(Start(s), Fresh(s), e, bidder);
  }

  /** The leader of an open auction whose hold did not grow with the bid. */
  lemma NotHeld(s: Store, t: Store, bidder: nat, auction: nat, amount: int)
    requires Sound(s) && BidAccepted(s, bidder, auction, amount)
    requires t.auctions == s.auctions[auction - 1 := Raised(s.auctions[auction - 1], bidder, amount)]
    requires Exists(t.users, bidder)
    ensures var a := s.auctions[auction - 1];
      t.users[bidder - 1].wallet.hold
        != s.users[bidder - 1].wallet.hold - (if a.leader == bidder then a.currentBid else 0) + amount
      ==> !Sound(t)
  {
    assert GoodUser(s, bidder - 1) && GoodAuction(s, auction - 1);
    EscrowedUpdate(s.auctions, auction - 1, Raised(s.auctions[auction - 1], bidder, amount), bidder);
    assert Sound(t) ==> GoodUser(t, bidder - 1);
  }

  /** Before the check, too, a refund may come too late: the auction closes, the refund takes the money, and
      the bid is told that its bidder cannot afford it. No place in the sequential order gives that reply. */
  lemma LateRefusalUnexplained(db: Store, bidder: nat, auction: nat, amount: int, e: Event)
    requires Sound(db) && Disputes.Reviewed(db) && BidAccepted(db, bidder, auction, amount)
    requires var shut := Step(db, Expire(auction)).store;
      RefundTarget(shut, e).Some? && Undercuts(shut, RefundTarget(shut, e).value, bidder, amount)
    ensures var request := PlaceBid(bidder, auction, amount);
      var acts := [Begin(bidder, auction, amount), Run(0), Env(Expire(auction))];
      var y := After(Start(db), acts, 3);
      && Execution(Start(db), acts, y)
      && |y.threads| == 1 && Enabled(Happens(y, e), 0)
      && ThreadStep(Happens(y, e), 0).threads[0].status == ERR_INSUFFICIENT
      && Step(db, request).status == ERR_OK
      && Step(y.db, request).status == ERR_AUCTION_CLOSED
      && Step(Happens(y, e).db, request).status == ERR_AUCTION_CLOSED
  {
    hide Step, Inv, Execution, ClearFor, OnItsWay, Sound, Disputes.Reviewed, RefundTarget, Undercuts;
    var begin := Begin(bidder, auction, amount);
    var y0, h0 := Begun(db, bidder, auction, amount);
    BidReply(db, PlaceBid(bidder, auction, amount));
    var h1 := ThreadStepKeepsInv(y0, h0, 0);
    var y1 := ThreadStep(y0, 0);
    OneMore(Start(db), [begin], y0, Run(0));
    NoLocksYet(y1, h1);
    assert [begin] + [Run(0)] == [begin, Run(0)];
    OneMore(Start(db), [begin, Run(0)], y1, Env(Expire(auction)));
    assert [begin, Run(0)] + [Env(Expire(auction))] == [begin, Run(0), Env(Expire(auction))];
    var y2 := Happens(y1, Expire(auction));
    CloseShuts(y1, h1, Expire(auction));
    var h2 := NextKeepsInv(y1, h1, Env(Expire(auction)));
    AfterIs(Start(db), [begin, Run(0), Env(Expire(auction))], y2);
    LateRefund(y2, h2, e, bidder, auction, amount);
  }

  lemma NoLocksYet(y: System, h: History)
    requires Inv(y, h) && |y.threads| == 1 && y.threads[0].pc == AtCheck
    ensures y.locks == map[] && forall auction :: !CopyOut(y, auction)
  {
    hide Step, Chronicle, Matches, Sound, Disputes.Reviewed;
    assert y.locks.Keys == {};
  }

  lemma {:induction false} AfterIs(y: System, acts: seq<Action>, z: System)
    requires Execution(y, acts, z)
    ensures After(y, acts, |acts|) == z
    decreases |acts|
  {
    hide Allowed, Next;
    if acts != [] {
      AfterIs(Next(y, acts[0]), acts[1..], z);
    }
  }

  lemma ClosedReply(s: Store, bidder: nat, auction: nat, amount: int)
    requires Exists(s.users, bidder) && ClosedIn(s, auction)
    ensures Step(s, PlaceBid(bidder, auction, amount)).status == ERR_AUCTION_CLOSED
  {}

  lemma LateRefund(y: System, h: History, e: Event, bidder: nat, auction: nat, amount: int)
    requires Inv(y, h) && |y.threads| == 1 && y.threads[0].pc == AtCheck
    requires Request(y.threads[0]) == PlaceBid(bidder, auction, amount)
    requires ClosedIn(y.db, auction)
    requires RefundTarget(y.db, e).Some? && Undercuts(y.db, RefundTarget(y.db, e).value, bidder, amount)
    ensures Enabled(Happens(y, e), 0)
    ensures ThreadStep(Happens(y, e), 0).threads[0].status == ERR_INSUFFICIENT
    ensures Step(y.db, PlaceBid(bidder, auction, amount)).status == ERR_AUCTION_CLOSED
    ensures Step(Happens(y, e).db, PlaceBid(bidder, auction, amount)).status == ERR_AUCTION_CLOSED
  {
    hide Step, Inv, RefundTarget;
    RefundOutcome(y, h, e, bidder);
    ClosedReply(y.db, bidder, auction, amount);
    ClosedReply(Happens(y, e).db, bidder, auction, amount);
  }

  // ---------- the server can get into that situation ----------

  /** From the seed, by requests the role gates let through, to a bid that can be afforded and a refund that
      undercuts it, before and after the auction closes. */
  lemma UndercutHappens()
    ensures RunGated(SEED, STAGE)
    ensures var s := Exec(SEED, STAGE);
      && Sound(s) && Disputes.Reviewed(s)
      && BidAccepted(s, 3, 2, 50) && s.auctions[1].leader != 3
      && RefundTarget(s, REFUND).Some? && Undercuts(s, RefundTarget(s, REFUND).value, 3, 50)
      && Gated(s, PlaceBid(3, 2, 50)) && Gated(s, REFUND)
    ensures var shut := Step(Exec(SEED, STAGE), Expire(2)).store;
      RefundTarget(shut, REFUND).Some? && Undercuts(shut, RefundTarget(shut, REFUND).value, 3, 50)
  {
    hide Exec;
    StageSet();
    StageGated();
    var s := Exec(SEED, STAGE);
    assert GatedBy(s, PlaceBid(3, 2, 50), 3) && GatedBy(s, REFUND, 1);
    ReachableSound(s);
  }
}
