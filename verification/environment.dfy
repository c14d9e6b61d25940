/** New requests and the rest of the server, running between the steps of the bids. */
module Environment {
  import opened Records
  import opened Sums
  import opened Wallets
  import opened Events
  import opened Escrow
  import opened Protocol
  import opened Exclusion
  import opened Refinement
  import opened Steps
  import Disputes

  // ---------- a new request ----------

  function Started(h: History): History {
    h.(marks := h.marks + [Mark(|h.items|, |h.items|)])
  }

  lemma BeginMatches(y: System, z: System, abs: Store)
    requires Exclusive(y) && Matches(y, abs)
    requires z.db == y.db && z.sems == y.sems && |z.threads| == |y.threads| + 1
    requires z.threads == y.threads + [z.threads[|y.threads|]] && z.threads[|y.threads|].pc == AtPeek
    ensures Matches(z, abs)
  {
    var th := z.threads[|y.threads|];
    forall a: nat
      ensures Unlogged(z, a) == Unlogged(y, a)
      ensures 1 <= a <= |y.db.auctions| ==> Shown(z, a - 1) == Shown(y, a - 1)
    {
      if Slot(a) in y.sems {
        assert z.threads[y.sems[Slot(a)]] == y.threads[y.sems[Slot(a)]];
      }
    }
    forall i | 0 <= i < |z.db.users| ensures UserMatches(z.db.users, z.threads, abs.users, i) {
      assert UserMatches(y.db.users, y.threads, abs.users, i);
      SumOfAppend(y.threads, th, OwedBy(i + 1));
    }
    forall i | 0 <= i < |abs.auctions| ensures AuctionMatches(z, abs.auctions, i) {
      assert AuctionMatches(y, abs.auctions, i);
      assert Shown(z, (i + 1) - 1) == Shown(y, (i + 1) - 1);
    }
    forall a: nat ensures BidMatches(z, abs.bids, a) {
      assert BidMatches(y, abs.bids, a);
    }
  }

  lemma BeginKeepsInv(y: System, h: History, a: Action)
    requires Inv(y, h) && a.Begin? && Allowed(y, a)
    ensures Inv(Next(y, a), Started(h))
  {
    var z := Next(y, a);
    var h' := Started(h);
    NextKeepsExclusive(y, a);
    BeginMatches(y, z, Last(h));
    forall k | 0 <= k < |h'.items| ensures StepAt(z.threads, h', k) && OwnerAt(z.threads, h', k) {
      assert StepAt(y.threads, h, k) && OwnerAt(y.threads, h, k);
    }
    forall u | 0 <= u < |z.threads| ensures ThreadOk(z, h', u) {
      if u < |y.threads| {
        assert ThreadOk(y, h, u);
        StillStands(y.db, z.db, h, h', u, y.threads[u]);
      }
    }
  }

  // ---------- an atomic event ----------

  /** A thread before its check, whose auction is still open, might as well have peeked now. */
  predicate PeeksAgain(s: Store, th: Thread) {
    th.pc == AtCheck && OpenIn(s, th.auction)
  }

  function Repeeked(threads: seq<Thread>, marks: seq<Mark>, s: Store, now: nat): (r: seq<Mark>)
    requires |threads| == |marks|
    ensures |r| == |marks|
    ensures forall t :: 0 <= t < |marks| ==> r[t] == if PeeksAgain(s, threads[t]) then Mark(now, now) else marks[t]
  {
    seq(|marks|, t requires 0 <= t < |marks| => if PeeksAgain(s, threads[t]) then Mark(now, now) else marks[t])
  }

  function WithEvent(threads: seq<Thread>, h: History, e: Event, s: Store): History
    requires |threads| == |h.marks|
  {
    History(h.trace + [s], h.items + [OfEnv(e)], Repeeked(threads, h.marks, s, |h.items| + 1))
  }

  lemma ChronicleEvent(threads: seq<Thread>, h: History, e: Event)
    requires Chronicle(threads, h)
    ensures Chronicle(threads, WithEvent(threads, h, e, Step(Last(h), e).store))
  {
    var h' := WithEvent(threads, h, e, Step(Last(h), e).store);
    forall k | 0 <= k < |h'.items| ensures StepAt(threads, h', k) && OwnerAt(threads, h', k) {
      if k < |h.items| {
        assert StepAt(threads, h, k) && OwnerAt(threads, h, k);
        assert h'.items[k] == h.items[k];
      }
    }
  }

  /** What an event may do to the tables while bids are in flight. */
  ghost predicate Considerate(y: System, db: Store) {
    && |db.users| == |y.db.users| && |y.db.auctions| <= |db.auctions|
    && (forall i :: 0 <= i < |db.users| ==> db.users[i] == y.db.users[i] || Bucket(i + 1) !in y.locks)
    && (forall t :: 0 <= t < |y.threads| && Relies(db, y.threads[t]) && Exists(y.db.users, y.threads[t].bidder) ==>
          (y.threads[t].amount <= Avail(y.db.users, y.threads[t].bidder) ==>
             y.threads[t].amount <= Avail(db.users, y.threads[t].bidder)))
    && (forall i :: 0 <= i < |y.db.auctions| ==> db.auctions[i] == y.db.auctions[i] || !CopyOut(y, i + 1))
  }

  lemma ConsiderateHarmless(y: System, db: Store, t: nat)
    requires Exclusive(y) && Considerate(y, db) && t < |y.threads| && !PeeksAgain(db, y.threads[t])
    ensures Harmless(y.db, db, y.threads[t])
  {
    hide BidsMatch;
    var th := y.threads[t];
    if th.pc == AtRelWrite { assert HasLock(th, Bucket(th.rec.leader)); }
    if th.pc == AtHoldWrite { assert HasLock(th, Bucket(th.bidder)); }
    if HoldsCopy(th) && Exists(y.db.auctions, th.auction) {
      assert CopyOut(y, th.auction);
    }
  }

  /** A new record for an auction no thread holds a copy of. */
  lemma RelabelConsiderate(y: System, db: Store, i: nat, a: Auction)
    requires i < |y.db.auctions| && !CopyOut(y, i + 1)
    requires db.users == y.db.users && db.auctions == y.db.auctions[i := a]
    ensures Considerate(y, db)
  {
    hide CopyOut;
  }

  /** Threads and semaphores stay; the tables on both sides change alike. */
  ghost predicate Parallel(y: System, db: Store, abs: Store, abs': Store) {
    && UsersMatch(db.users, y.threads, abs'.users)
    && |db.auctions| == |abs'.auctions| && |y.db.auctions| == |abs.auctions| <= |abs'.auctions|
    && (forall i :: 0 <= i < |abs.auctions| ==>
          (db.auctions[i] == y.db.auctions[i] && abs'.auctions[i] == abs.auctions[i])
          || (db.auctions[i] == abs'.auctions[i] && Settled(y, i)))
    && (forall i :: |abs.auctions| <= i < |abs'.auctions| ==> db.auctions[i] == abs'.auctions[i] && Settled(y, i))
    && (forall a: nat :: OffersOn(db.bids, a) == OffersOn(y.db.bids, a) && OffersOn(abs'.bids, a) == OffersOn(abs.bids, a))
    && db.disputes == abs'.disputes
  }

  /** At most one auction record changes, alike on both sides, where no bid is pending; the bid lists stay. */
  lemma OneRecordParallel(y: System, db: Store, abs: Store, abs': Store, i: nat, a: Auction)
    requires i < |y.db.auctions| == |abs.auctions| && Settled(y, i)
    requires UsersMatch(db.users, y.threads, abs'.users) && db.disputes == abs'.disputes
    requires db.auctions == y.db.auctions[i := a] && abs'.auctions == abs.auctions[i := a]
    requires forall b: nat :: OffersOn(db.bids, b) == OffersOn(y.db.bids, b)
    requires forall b: nat :: OffersOn(abs'.bids, b) == OffersOn(abs.bids, b)
    ensures Parallel(y, db, abs, abs')
  {
    hide UsersMatch, OffersOn, Settled;
  }

  lemma ParallelMatches(y: System, db: Store, abs: Store, abs': Store)
    requires Matches(y, abs) && Parallel(y, db, abs, abs')
    ensures Matches(y.(db := db), abs')
  {
    var z := y.(db := db);
    forall i | 0 <= i < |abs'.auctions| ensures AuctionMatches(z, abs'.auctions, i) {
      if i < |abs.auctions| { assert AuctionMatches(y, abs.auctions, i); }
      assert Holder(z, i + 1) == Holder(y, i + 1);
    }
    forall a: nat ensures BidMatches(z, abs'.bids, a) {
      assert BidMatches(y, abs.bids, a);
      assert Unlogged(z, a) == Unlogged(y, a);
    }
  }

  /** After the event an auction is open on both sides or on neither. */
  lemma OpenAlike(y: System, h: History, db: Store, abs': Store, auction: nat)
    requires Inv(y, h) && Parallel(y, db, Last(h), abs')
    ensures OpenIn(db, auction) <==> OpenIn(abs', auction)
  {
    hide Step, BidsMatch, UsersMatch, Sound, Disputes.Reviewed;
    if Exists(Last(h).auctions, auction) {
      ShownStatus(y, h, auction - 1);
    }
  }

  /** Peeking now is as good as having peeked before. */
  lemma PeeksNow(y: System, db: Store, abs': Store, t: nat)
    requires OnePerUser(y.threads) && t < |y.threads| && PeeksAgain(abs', y.threads[t])
    requires UsersMatch(db.users, y.threads, abs'.users) && Exists(db.users, y.threads[t].bidder)
    ensures PeekStands(abs', db, y.threads[t])
  {
    NoDebt(y.threads, t);
    assert UserMatches(db.users, y.threads, abs'.users, y.threads[t].bidder - 1);
  }

  lemma EventKeepsInv(y: System, h: History, e: Event)
    requires Inv(y, h)
    requires Considerate(y, Step(y.db, e).store)
    requires Parallel(y, Step(y.db, e).store, Last(h), Step(Last(h), e).store)
    ensures Inv(y.(db := Step(y.db, e).store), WithEvent(y.threads, h, e, Step(Last(h), e).store))
  {
    hide Events.Step;
    var abs' := Step(Last(h), e).store;
    var z := y.(db := Step(y.db, e).store);
    var h' := WithEvent(y.threads, h, e, abs');
    StepKeepsSound(Last(h), e);
    ChronicleEvent(y.threads, h, e);
    ParallelMatches(y, z.db, Last(h), abs');
    forall u | 0 <= u < |z.threads| ensures ThreadOk(z, h', u) {
      EventKeepsThread(y, h, e, u);
    }
  }

  lemma EventKeepsThread(y: System, h: History, e: Event, u: nat)
    requires Inv(y, h) && u < |y.threads|
    requires Considerate(y, Step(y.db, e).store)
    requires Parallel(y, Step(y.db, e).store, Last(h), Step(Last(h), e).store)
    ensures ThreadOk(y.(db := Step(y.db, e).store), WithEvent(y.threads, h, e, Step(Last(h), e).store), u)
  {
    hide Step, Sound, Disputes.Reviewed, Matches;
    var th := y.threads[u];
    var db', abs' := Step(y.db, e).store, Step(Last(h), e).store;
    var h' := WithEvent(y.threads, h, e, abs');
    assert ThreadOk(y, h, u);
    OpenAlike(y, h, db', abs', th.auction);
    if PeeksAgain(abs', th) {
      assert h'.trace[h'.marks[u].peekAt] == abs';
      PeeksNow(y, db', abs', u);
    } else {
      ConsiderateHarmless(y, db', u);
      StillStands(y.db, db', h, h', u, th);
    }
  }

  // ---------- the wallets on both sides ----------

  lemma BothMoved(users: seq<User>, threads: seq<Thread>, abs: seq<User>, id: nat, balance: int, hold: int)
    requires UsersMatch(users, threads, abs) && Exists(users, id)
    ensures UsersMatch(Moved(users, id, balance, hold), threads, Moved(abs, id, balance, hold))
  {
    var users' := Moved(users, id, balance, hold);
    var abs' := Moved(abs, id, balance, hold);
    forall i | 0 <= i < |users'| ensures UserMatches(users', threads, abs', i) {
      assert UserMatches(users, threads, abs, i);
    }
  }

  /** Untouched tables are parallel to themselves. */
  lemma NothingHappens(y: System, abs: Store)
    requires Matches(y, abs) && forall i :: |abs.auctions| <= i < |y.db.auctions| ==> Settled(y, i)
    ensures Parallel(y, y.db, abs, abs) && Considerate(y, y.db)
  {}

  lemma NoHolderPastEnd(y: System, h: History, i: nat)
    requires Inv(y, h) && i >= |y.db.auctions|
    ensures Settled(y, i)
  {
    if Holder(y, i + 1).Some? {
      var t := Holder(y, i + 1).value;
      assert ThreadOk(y, h, t);
    }
  }

  lemma DepositStep(s: Store, e: Event)
    requires e.Deposit?
    ensures var t := Step(s, e).store;
      && t.users == (if Served(s, e) && e.amount > 0 then ApplyDelta(s.users, e.user, e.amount, 0) else s.users)
      && t.auctions == s.auctions && t.bids == s.bids && t.disputes == s.disputes
  {
    hide ApplyDelta;
  }

  /** Only wallets change, alike on both sides. */
  lemma WalletsParallel(y: System, db: Store, abs: Store, abs': Store)
    requires Matches(y, abs) && UsersMatch(db.users, y.threads, abs'.users)
    requires db.auctions == y.db.auctions && db.bids == y.db.bids && db.disputes == y.db.disputes
    requires abs'.auctions == abs.auctions && abs'.bids == abs.bids && abs'.disputes == abs.disputes
    ensures Parallel(y, db, abs, abs')
  {
    hide UsersMatch, BidsMatch;
  }

  lemma CreditConsiderate(y: System, db: Store, user: nat, amount: int)
    requires Exists(y.db.users, user) && amount >= 0 && Bucket(user) !in y.locks
    requires db.users == Moved(y.db.users, user, amount, 0) && db.auctions == y.db.auctions
    ensures Considerate(y, db)
  {}

  lemma DepositEvent(y: System, h: History, e: Event)
    requires Inv(y, h) && e.Deposit? && EnvAllowed(y, e)
    ensures Considerate(y, Step(y.db, e).store)
    ensures Parallel(y, Step(y.db, e).store, Last(h), Step(Last(h), e).store)
  {
    hide Step, Parallel, ApplyDelta, BidsMatch, AuctionsMatch;
    var abs := Last(h);
    var db', abs' := Step(y.db, e).store, Step(abs, e).store;
    DepositStep(y.db, e);
    DepositStep(abs, e);
    if Exists(y.db.users, e.user) && e.amount > 0 {
      assert Touches(y.db, e, e.user);
      StoredSolvent(y, h, e.user);
      assert GoodUser(abs, e.user - 1);
      SharesNonneg(abs, e.user);
      QuietMoves(y.db.users, e.user, e.amount, 0);
      QuietMoves(abs.users, e.user, e.amount, 0);
      BothMoved(y.db.users, y.threads, abs.users, e.user, e.amount, 0);
      CreditConsiderate(y, db', e.user, e.amount);
    }
    WalletsParallel(y, db', abs, abs');
  }

  lemma CreateEvent(y: System, h: History, e: Event)
    requires Inv(y, h) && e.CreateAuction?
    ensures Considerate(y, Step(y.db, e).store)
    ensures Parallel(y, Step(y.db, e).store, Last(h), Step(Last(h), e).store)
  {
    NoHolderPastEnd(y, h, |y.db.auctions|);
  }

  // ---------- closing an auction ----------

  lemma {:induction false} MarkKeepsOffers(bids: seq<Bid>, auction: nat, winner: nat, a: nat)
    ensures OffersOn(MarkWinning(bids, auction, winner), a) == OffersOn(bids, a)
  {
    if bids != [] {
      var n := |bids| - 1;
      MarkKeepsOffers(bids[..n], auction, winner, a);
      var marked := MarkWinning(bids, auction, winner);
      assert marked[..|marked| - 1] == MarkWinning(bids[..n], auction, winner);
    }
  }

  /** A close is due on both sides or on neither. */
  lemma ClosesAlike(y: System, h: History, e: Event)
    requires Inv(y, h) && (e.CloseAuction? || e.Expire?)
    ensures Closes(y.db, e) <==> Closes(Last(h), e)
  {
    hide Step, BidsMatch;
    if Exists(y.db.auctions, e.auction) {
      assert AuctionMatches(y, Last(h).auctions, e.auction - 1);
      ShownStatus(y, h, e.auction - 1);
      if Holder(y, e.auction).Some? {
        assert ThreadOk(y, h, Holder(y, e.auction).value);
      }
    }
  }

  /** With no copy out nobody's bid is pending, and both sides hold the same record. */
  lemma NoCopySame(y: System, h: History, auction: nat)
    requires Inv(y, h) && Exists(y.db.auctions, auction) && !CopyOut(y, auction)
    ensures Settled(y, auction - 1) && Exists(Last(h).auctions, auction)
    ensures Last(h).auctions[auction - 1] == y.db.auctions[auction - 1]
  {
    hide Step, BidsMatch, UsersMatch;
    assert AuctionMatches(y, Last(h).auctions, auction - 1);
  }

  /** Both sides settle or release alike. */
  lemma CloseUsersMatch(y: System, h: History, a: Auction)
    requires Inv(y, h) && Exists(y.db.users, a.seller) && |y.db.users| == |Last(h).users|
    requires LeaderHolds(y.db.users, a) && LeaderHolds(Last(h).users, a)
    ensures UsersMatch(CloseUsers(y.db.users, a), y.threads, CloseUsers(Last(h).users, a))
  {
    var users := y.db.users;
    var abs := Last(h).users;
    if Sells(a) {
      BothMoved(users, y.threads, abs, a.leader, -a.currentBid, -a.currentBid);
      BothMoved(Moved(users, a.leader, -a.currentBid, -a.currentBid), y.threads,
                Moved(abs, a.leader, -a.currentBid, -a.currentBid), a.seller, a.currentBid, 0);
    } else if a.leader != 0 {
      BothMoved(users, y.threads, abs, a.leader, 0, -a.currentBid);
    }
  }

  lemma BothClose(y: System, h: History, e: Event)
    requires Inv(y, h) && (e.CloseAuction? || e.Expire?) && Closes(y.db, e) && !CopyOut(y, e.auction)
    ensures var a := y.db.auctions[e.auction - 1];
      && a.id == e.auction && 0 < a.currentBid && Exists(y.db.users, a.seller)
      && LeaderHolds(y.db.users, a) && LeaderHolds(Last(h).users, a) && |y.db.users| == |Last(h).users|
      && CloseInternal(y.db, a) == CloseStore(y.db, a)
      && CloseInternal(Last(h), a) == CloseStore(Last(h), a)
  {
    NoCopySame(y, h, e.auction);
    var a := y.db.auctions[e.auction - 1];
    CloseReady(Last(h), e.auction);
    if a.leader != 0 {
      StoredCovers(y, h, e.auction - 1);
    }
    StoredSolvent(y, h, a.seller);
    CloseEffect(y.db, a);
    CloseEffect(Last(h), a);
  }

  lemma CloseConsiderate(y: System, db: Store, a: Auction)
    requires Exists(y.db.auctions, a.id) && LeaderHolds(y.db.users, a) && Exists(y.db.users, a.seller)
    requires 0 < a.currentBid && !CopyOut(y, a.id)
    requires (Sells(a) ==> Bucket(a.seller) !in y.locks) && (a.leader != 0 ==> Bucket(a.leader) !in y.locks)
    requires db.users == CloseUsers(y.db.users, a)
    requires db.auctions == y.db.auctions[a.id - 1 := a.(status := Closed)]
    ensures Considerate(y, db)
  {}

  lemma CloseParallel(y: System, a: Auction, db: Store, abs: Store, abs': Store)
    requires Exists(y.db.auctions, a.id) && Settled(y, a.id - 1) && |abs.auctions| == |y.db.auctions|
    requires UsersMatch(db.users, y.threads, abs'.users)
    requires db.auctions == y.db.auctions[a.id - 1 := a.(status := Closed)]
    requires abs'.auctions == abs.auctions[a.id - 1 := a.(status := Closed)]
    requires db.bids == (if Sells(a) then MarkWinning(y.db.bids, a.id, a.leader) else y.db.bids)
    requires abs'.bids == (if Sells(a) then MarkWinning(abs.bids, a.id, a.leader) else abs.bids)
    requires db.disputes == abs'.disputes
    ensures Parallel(y, db, abs, abs')
  {
    hide OffersOn, MarkWinning, UsersMatch, Settled;
    forall b: nat
      ensures OffersOn(db.bids, b) == OffersOn(y.db.bids, b) && OffersOn(abs'.bids, b) == OffersOn(abs.bids, b)
    {
      MarkKeepsOffers(y.db.bids, a.id, a.leader, b);
      MarkKeepsOffers(abs.bids, a.id, a.leader, b);
    }
    OneRecordParallel(y, db, abs, abs', a.id - 1, a.(status := Closed));
  }

  lemma CloseEvent(y: System, h: History, e: Event)
    requires Inv(y, h) && (e.CloseAuction? || e.Expire?) && EnvAllowed(y, e)
    ensures Considerate(y, Step(y.db, e).store)
    ensures Parallel(y, Step(y.db, e).store, Last(h), Step(Last(h), e).store)
  {
    hide Step, Parallel, Considerate, Settled, CloseInternal, BidsMatch, Sound, Disputes.Reviewed;
    var abs := Last(h);
    var db', abs' := Step(y.db, e).store, Step(abs, e).store;
    CloseOutcome(y.db, e);
    CloseOutcome(abs, e);
    ClosesAlike(y, h, e);
    if Closes(y.db, e) {
      var a := y.db.auctions[e.auction - 1];
      NoCopySame(y, h, e.auction);
      BothClose(y, h, e);
      CloseUsersMatch(y, h, a);
      assert Sells(a) ==> Touches(y.db, e, a.seller);
      assert a.leader != 0 ==> Touches(y.db, e, a.leader);
      CloseConsiderate(y, db', a);
      CloseParallel(y, a, db', abs, abs');
    } else {
      NothingHappens(y, abs);
    }
  }

  // ---------- disputes ----------

  lemma ClosedSame(y: System, h: History, i: nat)
    requires Inv(y, h) && i < |y.db.auctions| && y.db.auctions[i].status != Open
    ensures Last(h).auctions[i] == y.db.auctions[i] && Settled(y, i) && !CopyOut(y, i + 1)
  {
    ShownStatus(y, h, i);
    forall t | 0 <= t < |y.threads| && HoldsCopy(y.threads[t]) ensures y.threads[t].auction != i + 1 {
      assert ThreadOk(y, h, t);
    }
    if Holder(y, i + 1).Some? {
      assert ThreadOk(y, h, Holder(y, i + 1).value);
    }
  }

  lemma FileEvent(y: System, h: History, e: Event)
    requires Inv(y, h) && e.FileDispute?
    ensures Considerate(y, Step(y.db, e).store)
    ensures Parallel(y, Step(y.db, e).store, Last(h), Step(Last(h), e).store)
  {
    hide Parallel, Considerate, Settled, CopyOut, Sound, Disputes.Reviewed;
    if Exists(y.db.auctions, e.auction) {
      ShownStatus(y, h, e.auction - 1);
    }
    var db', abs' := Step(y.db, e).store, Step(Last(h), e).store;
    if db' == y.db {
      NothingHappens(y, Last(h));
    } else {
      ClosedSame(y, h, e.auction - 1);
      RelabelConsiderate(y, db', e.auction - 1, db'.auctions[e.auction - 1]);
      OneRecordParallel(y, db', Last(h), abs', e.auction - 1, db'.auctions[e.auction - 1]);
    }
  }

  /** What is owed for the seller is left after the debit. */
  predicate DebtLeft(y: System, a: Auction) {
    Debits(y.db, a) ==> Debt(y.threads, a.seller) <= Avail(y.db.users, a.seller) - a.currentBid
  }

  lemma NoDebtUndercut(y: System, h: History, a: Auction)
    requires Inv(y, h) && Exists(y.db.users, a.seller)
    requires forall t :: 0 <= t < |y.threads| && Relies(y.db, y.threads[t]) ==>
      !Undercuts(y.db, a, y.threads[t].bidder, y.threads[t].amount)
    ensures DebtLeft(y, a)
  {
    hide Step, Matches, Sound, Disputes.Reviewed, Exclusive;
    if t :| 0 <= t < |y.threads| && OwesFor(y.threads[t], a.seller) {
      OwnDebt(y.threads, t);
      assert ThreadOk(y, h, t);
    } else {
      assert forall t :: 0 <= t < |y.threads| ==> !OwesFor(y.threads[t], a.seller);
      SumOfZero(y.threads, OwedBy(a.seller));
    }
  }

  /** The credit of a refund, on the stored and the sequential wallets. */
  lemma CreditBoth(y: System, h: History, a: Auction)
    requires Inv(y, h) && 0 < a.currentBid && a.leader <= |y.db.users| == |Last(h).users|
    ensures var back := ApplyDelta(y.db.users, a.leader, a.currentBid, 0);
      var back' := ApplyDelta(Last(h).users, a.leader, a.currentBid, 0);
      && UsersMatch(back, y.threads, back')
      && (a.leader != 0 ==> back == Moved(y.db.users, a.leader, a.currentBid, 0)
                            && back' == Moved(Last(h).users, a.leader, a.currentBid, 0))
      && (a.leader == 0 ==> back == y.db.users && back' == Last(h).users)
  {
    hide Step, BidsMatch, AuctionsMatch;
    var users, abs := y.db.users, Last(h).users;
    if a.leader != 0 {
      StoredSolvent(y, h, a.leader);
      assert GoodUser(Last(h), a.leader - 1);
      SharesNonneg(Last(h), a.leader);
      QuietMoves(users, a.leader, a.currentBid, 0);
      QuietMoves(abs, a.leader, a.currentBid, 0);
      BothMoved(users, y.threads, abs, a.leader, a.currentBid, 0);
    }
  }

  /** A debit goes through on both sides or on neither. */
  lemma DebitBoth(threads: seq<Thread>, back: seq<User>, back': seq<User>, seller: nat, amount: int)
    requires UsersMatch(back, threads, back') && Exists(back, seller) && 0 < amount
    requires 0 <= back[seller - 1].wallet.hold && 0 <= Debt(threads, seller)
    requires amount <= Avail(back, seller) ==> Debt(threads, seller) <= Avail(back, seller) - amount
    ensures back[seller - 1].wallet.balance == back'[seller - 1].wallet.balance
    ensures UsersMatch(ApplyDelta(back, seller, -amount, 0), threads, ApplyDelta(back', seller, -amount, 0))
  {
    assert UserMatches(back, threads, back', seller - 1);
    if amount <= Avail(back, seller) {
      QuietMoves(back, seller, -amount, 0);
      QuietMoves(back', seller, -amount, 0);
      BothMoved(back, threads, back', seller, -amount, 0);
    }
  }

  /** The two halves of a refund on the stored and the sequential wallets. */
  lemma RefundBoth(y: System, h: History, a: Auction)
    requires Inv(y, h) && 0 < a.currentBid && Exists(y.db.users, a.seller)
    requires a.leader <= |y.db.users| == |Last(h).users| && DebtLeft(y, a)
    ensures var back := ApplyDelta(y.db.users, a.leader, a.currentBid, 0);
      var back' := ApplyDelta(Last(h).users, a.leader, a.currentBid, 0);
      && UsersMatch(back, y.threads, back')
      && back[a.seller - 1].wallet.balance == back'[a.seller - 1].wallet.balance
      && UsersMatch(ApplyDelta(back, a.seller, -a.currentBid, 0), y.threads, ApplyDelta(back', a.seller, -a.currentBid, 0))
  {
    hide Step, BidsMatch, AuctionsMatch, UsersMatch, Quiet;
    CreditBoth(y, h, a);
    StoredSolvent(y, h, a.seller);
    DebtNonneg(y, h, a.seller);
    DebtWithin(y, h, a.seller);
    DebitBoth(y.threads, ApplyDelta(y.db.users, a.leader, a.currentBid, 0),
              ApplyDelta(Last(h).users, a.leader, a.currentBid, 0), a.seller, a.currentBid);
  }

  /** What is owed for a user is available. */
  lemma DebtWithin(y: System, h: History, u: nat)
    requires Inv(y, h) && Exists(y.db.users, u)
    ensures Debt(y.threads, u) <= Avail(y.db.users, u)
  {
    hide Step, BidsMatch, AuctionsMatch;
    assert GoodUser(Last(h), u - 1);
    assert UserMatches(y.db.users, y.threads, Last(h).users, u - 1);
  }

  lemma RefundConsiderate(y: System, a: Auction, db: Store)
    requires 0 < a.currentBid && Exists(y.db.users, a.seller)
    requires a.leader != 0 ==> Bucket(a.leader) !in y.locks
    requires a.currentBid <= y.db.users[a.seller - 1].wallet.balance ==> Bucket(a.seller) !in y.locks
    requires forall t :: 0 <= t < |y.threads| && Relies(y.db, y.threads[t]) ==>
      !Undercuts(y.db, a, y.threads[t].bidder, y.threads[t].amount)
    requires forall u: nat :: Exists(y.db.users, u) ==> Solvent(y.db.users[u - 1].wallet)
    requires var back := ApplyDelta(y.db.users, a.leader, a.currentBid, 0);
      db.users == if back[a.seller - 1].wallet.balance >= a.currentBid then ApplyDelta(back, a.seller, -a.currentBid, 0)
                  else back
    requires db.auctions == y.db.auctions
    ensures Considerate(y, db)
  {}

  lemma RefundTables(s: Store, dispute: nat, a: Auction)
    requires Exists(s.users, a.seller)
    ensures var t := Refund(s, dispute, a);
      var back := ApplyDelta(s.users, a.leader, a.currentBid, 0);
      && t.users == (if back[a.seller - 1].wallet.balance >= a.currentBid then ApplyDelta(back, a.seller, -a.currentBid, 0)
                     else back)
      && t.auctions == s.auctions && t.bids == s.bids && t.disputes == s.disputes
  {}

  function Decided(s: Store, e: Event): Store
    requires e.ResolveDispute? && Exists(s.disputes, e.dispute)
  {
    s.(disputes := s.disputes[e.dispute - 1 :=
         s.disputes[e.dispute - 1].(status := e.verdict, resolvedBy := e.moderator)])
  }

  lemma ResolveOutcome(s: Store, e: Event)
    requires e.ResolveDispute?
    ensures !(Served(s, e) && Disputes.Decides(s, e.dispute, e.verdict)) ==> Step(s, e).store == s
    ensures Served(s, e) && Disputes.Decides(s, e.dispute, e.verdict) && Exists(s.auctions, s.disputes[e.dispute - 1].auction) ==>
      var s1 := Decided(s, e);
      var a := s.auctions[s.disputes[e.dispute - 1].auction - 1];
      var s2 := if e.verdict == DisputeResolved then Refund(s1, e.dispute, a)
                else s1.(auctions := s1.auctions[s.disputes[e.dispute - 1].auction - 1 := a.(status := Closed)]);
      Step(s, e).store == s2.(log := Step(s, e).store.log)
  {}

  lemma RefundStep(s: Store, e: Event, a: Auction)
    requires e.ResolveDispute? && Served(s, e)
    requires e.verdict == DisputeResolved && Disputes.Decides(s, e.dispute, e.verdict)
    requires Exists(s.auctions, s.disputes[e.dispute - 1].auction) && a == s.auctions[s.disputes[e.dispute - 1].auction - 1]
    requires Exists(s.users, a.seller)
    ensures var t := Step(s, e).store;
      var back := ApplyDelta(s.users, a.leader, a.currentBid, 0);
      && t.users == (if back[a.seller - 1].wallet.balance >= a.currentBid then ApplyDelta(back, a.seller, -a.currentBid, 0)
                     else back)
      && t.auctions == s.auctions && t.bids == s.bids && t.disputes == Decided(s, e).disputes
  {
    hide Step, Refund;
    ResolveOutcome(s, e);
    RefundTables(Decided(s, e), e.dispute, a);
  }

  /** The disputed auction is the same record on both sides, and not in use by any bid. */
  lemma DisputedSame(y: System, h: History, e: Event)
    requires Inv(y, h) && e.ResolveDispute? && Disputes.Decides(y.db, e.dispute, e.verdict)
    ensures var i := y.db.disputes[e.dispute - 1].auction;
      && y.db.disputes == Last(h).disputes
      && Exists(y.db.auctions, i) && |y.db.auctions| == |Last(h).auctions| && |y.db.users| == |Last(h).users|
      && Last(h).auctions[i - 1] == y.db.auctions[i - 1] && Settled(y, i - 1) && !CopyOut(y, i)
      && 0 < y.db.auctions[i - 1].currentBid
      && Exists(y.db.users, y.db.auctions[i - 1].seller) && y.db.auctions[i - 1].leader <= |y.db.users|
  {
    var i := y.db.disputes[e.dispute - 1].auction;
    Disputes.LiveMeansDisputed(Last(h), e.dispute - 1);
    ShownStatus(y, h, i - 1);
    ClosedSame(y, h, i - 1);
    assert GoodAuction(Last(h), i - 1);
  }

  lemma RefundEvent(y: System, h: History, e: Event)
    requires Inv(y, h) && e.ResolveDispute? && EnvAllowed(y, e) && Served(y.db, e)
    requires e.verdict == DisputeResolved && Disputes.Decides(y.db, e.dispute, e.verdict)
    ensures Considerate(y, Step(y.db, e).store)
    ensures Parallel(y, Step(y.db, e).store, Last(h), Step(Last(h), e).store)
  {
    hide Step, Parallel, Considerate, Settled, BidsMatch, UsersMatch, AuctionsMatch, Sound, Disputes.Reviewed, ApplyDelta;
    var abs := Last(h);
    DisputedSame(y, h, e);
    var i := y.db.disputes[e.dispute - 1].auction - 1;
    var a := y.db.auctions[i];
    assert RefundTarget(y.db, e) == Some(a);
    assert a.currentBid <= y.db.users[a.seller - 1].wallet.balance ==> Touches(y.db, e, a.seller);
    assert a.leader != 0 ==> Touches(y.db, e, a.leader);
    NoDebtUndercut(y, h, a);
    RefundBoth(y, h, a);
    RefundStep(y.db, e, a);
    RefundStep(abs, e, a);
    forall u: nat | Exists(y.db.users, u) ensures Solvent(y.db.users[u - 1].wallet) {
      StoredSolvent(y, h, u);
    }
    RefundConsiderate(y, a, Step(y.db, e).store);
    OneRecordParallel(y, Step(y.db, e).store, abs, Step(abs, e).store, i, a);
  }

  lemma RejectEvent(y: System, h: History, e: Event)
    requires Inv(y, h) && e.ResolveDispute? && Served(y.db, e)
    requires e.verdict == DisputeRejected && Disputes.Decides(y.db, e.dispute, e.verdict)
    ensures Considerate(y, Step(y.db, e).store)
    ensures Parallel(y, Step(y.db, e).store, Last(h), Step(Last(h), e).store)
  {
    hide Step, Parallel, Considerate, Settled, CopyOut, BidsMatch, Sound, Disputes.Reviewed;
    DisputedSame(y, h, e);
    ResolveOutcome(y.db, e);
    ResolveOutcome(Last(h), e);
    var i := y.db.disputes[e.dispute - 1].auction - 1;
    var closed := y.db.auctions[i].(status := Closed);
    RelabelConsiderate(y, Step(y.db, e).store, i, closed);
    OneRecordParallel(y, Step(y.db, e).store, Last(h), Step(Last(h), e).store, i, closed);
  }

  lemma ResolveEvent(y: System, h: History, e: Event)
    requires Inv(y, h) && e.ResolveDispute? && EnvAllowed(y, e)
    ensures Considerate(y, Step(y.db, e).store)
    ensures Parallel(y, Step(y.db, e).store, Last(h), Step(Last(h), e).store)
  {
    if Served(y.db, e) && Disputes.Decides(y.db, e.dispute, e.verdict) {
      if e.verdict == DisputeResolved {
        RefundEvent(y, h, e);
      } else {
        RejectEvent(y, h, e);
      }
    } else {
      ResolveOutcome(y.db, e);
      ResolveOutcome(Last(h), e);
      NothingHappens(y, Last(h));
    }
  }

  // ---------- every action ----------

  lemma NextKeepsInv(y: System, h: History, a: Action) returns (h': History)
    requires Inv(y, h) && (a.Begin? || a.Env?) && Allowed(y, a)
    ensures Inv(Next(y, a), h') && Later(y, h, Next(y, a), h')
    ensures h'.items == if a.Env? then h.items + [OfEnv(a.e)] else h.items
  {
    hide Exclusive, Sound, Disputes.Reviewed, Step;
    if a.Begin? {
      BeginKeepsInv(y, h, a);
      h' := Started(h);
    } else {
      var e := a.e;
      if e.Deposit? { DepositEvent(y, h, e); }
      else if e.CreateAuction? { CreateEvent(y, h, e); }
      else if e.CloseAuction? || e.Expire? { CloseEvent(y, h, e); }
      else if e.FileDispute? { FileEvent(y, h, e); }
      else { ResolveEvent(y, h, e); }
      EventKeepsInv(y, h, e);
      h' := WithEvent(y.threads, h, e, Step(Last(h), e).store);
    }
  }
}
