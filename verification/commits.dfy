/** The steps of a bid that write: the two wallet writes, the auction record and the bid log. */
module Commits {
  import opened Records
  import opened Sums
  import opened Wallets
  import opened Events
  import opened Escrow
  import opened Protocol
  import opened Exclusion
  import opened Refinement
  import opened Steps
  import Disputes

  // ---------- tables ----------

  /** Stored and sequential wallets move together, with the debt making up the difference. */
  lemma UsersMoved(users: seq<User>, threads: seq<Thread>, abs: seq<User>, t: nat, th: Thread,
                   id: nat, stored: int, sequential: seq<User>)
    requires UsersMatch(users, threads, abs) && t < |threads| && Exists(users, id)
    requires |sequential| == |abs|
    requires forall i :: 0 <= i < |abs| ==>
      sequential[i] == PlusHold(abs[i], (if i + 1 == id then stored else 0)
                                        + OwedBy(i + 1)(th) - OwedBy(i + 1)(threads[t]))
    ensures UsersMatch(Moved(users, id, 0, stored), threads[t := th], sequential)
  {
    var users' := Moved(users, id, 0, stored);
    var threads' := threads[t := th];
    forall i | 0 <= i < |users'| ensures UserMatches(users', threads', sequential, i) {
      assert UserMatches(users, threads, abs, i);
      SumOfUpdate(threads, t, th, OwedBy(i + 1));
    }
  }

  lemma OffersAppend(bids: seq<Bid>, b: Bid, auction: nat)
    ensures OffersOn(bids + [b], auction)
         == OffersOn(bids, auction) + if b.auction == auction then [Offer(b.bidder, b.amount)] else []
  {
    assert (bids + [b])[..|bids|] == bids;
  }

  /** Only thread `t` changed, and only records and offers of its own auction are shown differently. */
  ghost predicate OnlyOwnAuction(y: System, z: System, t: nat) {
    && t < |y.threads| == |z.threads| && z.sems == y.sems && z.threads == y.threads[t := z.threads[t]]
    && Request(z.threads[t]) == Request(y.threads[t])
    && Slot(y.threads[t].auction) in y.sems && y.sems[Slot(y.threads[t].auction)] == t
    && |z.db.auctions| == |y.db.auctions|
    && forall i :: 0 <= i < |y.db.auctions| && i + 1 != y.threads[t].auction ==> z.db.auctions[i] == y.db.auctions[i]
  }

  lemma OthersShown(y: System, z: System, t: nat, auction: nat)
    requires OnlyOwnAuction(y, z, t) && auction != y.threads[t].auction
    ensures 1 <= auction <= |y.db.auctions| ==> Shown(z, auction - 1) == Shown(y, auction - 1)
    ensures Unlogged(z, auction) == Unlogged(y, auction)
  {}

  lemma OwnShown(y: System, z: System, t: nat)
    requires OnlyOwnAuction(y, z, t)
    ensures var th := z.threads[t];
      && Unlogged(z, th.auction) == (if Committed(th) then [Offer(th.bidder, th.amount)] else [])
      && (Exists(z.db.auctions, th.auction) ==>
            Shown(z, th.auction - 1) == if Unwritten(th) then Raised(th.rec, th.bidder, th.amount)
                                        else z.db.auctions[th.auction - 1])
  {}

  // ---------- the bid takes effect ----------

  /** A thread at its first wallet write, with everything it checked still true. */
  predicate AtCommit(th: Thread) {
    th.pc == AtRelWrite || (th.pc == AtHoldWrite && th.rec.leader == 0)
  }

  /** The bid of this thread, and what the atomic handler makes of it. */
  ghost predicate Acceptable(abs: Store, db: Store, th: Thread) {
    && BidAccepted(abs, th.bidder, th.auction, th.amount)
    && Exists(db.auctions, th.auction)
    && abs.auctions[th.auction - 1] == th.rec && th.rec == db.auctions[th.auction - 1] && th.rec.status == Open
    && LeaderHolds(abs.users, th.rec)
    && Step(abs, Request(th)) == Outcome(BidStore(abs, th.bidder, th.auction, th.amount), ERR_OK)
    && Sound(BidStore(abs, th.bidder, th.auction, th.amount))
    && Disputes.Reviewed(BidStore(abs, th.bidder, th.auction, th.amount))
  }

  /** The atomic bid would be accepted in the sequential store. */
  lemma CommitReady(y: System, h: History, t: nat)
    requires Inv(y, h) && t < |y.threads| && AtCommit(y.threads[t])
    ensures Acceptable(Last(h), y.db, y.threads[t])
  {
    hide Step, Sound, Disputes.Reviewed, BidsMatch, UsersMatch, AuctionsMatch, BidStore, LeaderHolds, Exclusive;
    var th := y.threads[t];
    assert ThreadOk(y, h, t);
    OwnRecordShown(y, h, t);
    SameForBidder(y, h, t);
    BidStep(Last(h), Request(th));
  }

  /** Thread `t` commits: its auction record now shows... */
  lemma CommitShowsAuction(y: System, z: System, t: nat, abs: seq<Auction>)
    requires AuctionsMatch(y, abs) && OnlyOwnAuction(y, z, t) && z.db.auctions == y.db.auctions
    requires Unwritten(z.threads[t]) && z.threads[t].rec == y.threads[t].rec
    requires Exists(abs, y.threads[t].auction) && abs[y.threads[t].auction - 1] == y.threads[t].rec
    ensures var th := y.threads[t];
      AuctionsMatch(z, abs[th.auction - 1 := Raised(th.rec, th.bidder, th.amount)])
  {
    var th := y.threads[t];
    var next := abs[th.auction - 1 := Raised(th.rec, th.bidder, th.amount)];
    OwnShown(y, z, t);
    forall i | 0 <= i < |next| ensures AuctionMatches(z, next, i) {
      assert AuctionMatches(y, abs, i);
      if i + 1 != th.auction { OthersShown(y, z, t, i + 1); }
    }
  }

  /** ...and so does its offer. */
  lemma CommitShowsOffer(y: System, z: System, t: nat, abs: seq<Bid>, b: Bid)
    requires BidsMatch(y, abs) && OnlyOwnAuction(y, z, t) && z.db.bids == y.db.bids
    requires !Committed(y.threads[t]) && Committed(z.threads[t])
    requires b.auction == y.threads[t].auction && b.bidder == y.threads[t].bidder && b.amount == y.threads[t].amount
    ensures BidsMatch(z, abs + [b])
  {
    OwnShown(y, z, t);
    OwnShown(y, y, t);
    forall a: nat ensures BidMatches(z, abs + [b], a) {
      assert BidMatches(y, abs, a);
      OffersAppend(abs, b, a);
      if a != b.auction { OthersShown(y, z, t, a); }
    }
  }

  /** Auctions and bids after thread `t` committed are those after the atomic bid. */
  lemma CommitShows(y: System, z: System, t: nat, abs: Store)
    requires AuctionsMatch(y, abs.auctions) && BidsMatch(y, abs.bids) && OnlyOwnAuction(y, z, t)
    requires AtCommit(y.threads[t]) && Committed(z.threads[t]) && Unwritten(z.threads[t])
    requires z.db.auctions == y.db.auctions && z.db.bids == y.db.bids && z.threads[t].rec == y.threads[t].rec
    requires BidAccepted(abs, y.threads[t].bidder, y.threads[t].auction, y.threads[t].amount)
    requires LeaderHolds(abs.users, abs.auctions[y.threads[t].auction - 1])
    requires abs.auctions[y.threads[t].auction - 1] == y.threads[t].rec
    ensures var th := y.threads[t];
      var next := BidStore(abs, th.bidder, th.auction, th.amount);
      AuctionsMatch(z, next.auctions) && BidsMatch(z, next.bids)
  {
    hide AuctionsMatch, BidsMatch;
    var th := y.threads[t];
    CommitShowsAuction(y, z, t, abs.auctions);
    CommitShowsOffer(y, z, t, abs.bids, Bid(|abs.bids| + 1, th.auction, th.bidder, th.amount, true));
  }

  /** A guarded write-back of a current copy that no guard touches is a plain move. */
  lemma QuietWriteBack(users: seq<User>, id: nat, holdDelta: int)
    requires Exists(users, id) && Quiet(users[id - 1].wallet, 0, holdDelta)
    ensures WriteBack(users, id, users[id - 1], holdDelta) == Moved(users, id, 0, holdDelta)
  {}

  /** Releasing the leader's hold: the guard stays quiet and the wallet moves by exactly the bid. */
  lemma ReleaseWrites(y: System, h: History, t: nat)
    requires Inv(y, h) && t < |y.threads| && y.threads[t].pc == AtRelWrite
    ensures var th := y.threads[t];
      && Exists(y.db.users, th.rec.leader)
      && Touch(y.db, th) == y.db.(users := Moved(y.db.users, th.rec.leader, 0, -th.rec.currentBid))
      && 0 < th.rec.currentBid
  {
    hide Step, WriteBack, BidsMatch, UsersMatch, AuctionsMatch, Exclusive, Disputes.Reviewed;
    var th := y.threads[t];
    assert ThreadOk(y, h, t);
    OwnRecordShown(y, h, t);
    assert GoodAuction(Last(h), th.auction - 1);
    OwnShownSettled(y, h, t);
    StoredCovers(y, h, th.auction - 1);
    QuietWriteBack(y.db.users, th.rec.leader, -th.rec.currentBid);
  }

  lemma OwnShownSettled(y: System, h: History, t: nat)
    requires Inv(y, h) && t < |y.threads| && InCritical(y.threads[t]) && !Unwritten(y.threads[t])
    requires Exists(y.db.auctions, y.threads[t].auction)
    ensures Settled(y, y.threads[t].auction - 1)
  {}

  /** Placing the hold: the optimistic check still covers it, so the guard stays quiet. */
  lemma HoldWrites(y: System, h: History, t: nat)
    requires Inv(y, h) && t < |y.threads| && y.threads[t].pc == AtHoldWrite
    ensures var th := y.threads[t];
      && Exists(y.db.users, th.bidder)
      && Touch(y.db, th) == y.db.(users := Moved(y.db.users, th.bidder, 0, th.amount))
  {
    hide Step, WriteBack, BidsMatch, UsersMatch, AuctionsMatch, Sound, Exclusive;
    var th := y.threads[t];
    assert ThreadOk(y, h, t);
    StoredSolvent(y, h, th.bidder);
    AmountPositive(y, h, t);
    QuietWriteBack(y.db.users, th.bidder, th.amount);
  }

  lemma AmountPositive(y: System, h: History, t: nat)
    requires Inv(y, h) && t < |y.threads| && 4 <= Rank(y.threads[t].pc) <= 13
    ensures y.threads[t].amount > 0
  {
    hide Step, BidsMatch, UsersMatch, Disputes.Reviewed;
    var th := y.threads[t];
    assert ThreadOk(y, h, t);
    assert AuctionMatches(y, Last(h).auctions, th.auction - 1);
    assert GoodAuction(Last(h), th.auction - 1);
    if Unwritten(th) {
      OwnShown(y, y, t);
    }
  }

  // ---------- the other threads ----------

  lemma OthersKeepWallets(y: System, z: System, t: nat, u: nat, id: nat, delta: int)
    requires Exclusive(y) && OnePerUser(y.threads) && t < |y.threads| && u < |y.threads| && u != t
    requires Exists(y.db.users, id) && HasLock(y.threads[t], Bucket(id))
    requires InFlight(y.threads[t]) && (delta <= 0 || id == y.threads[t].bidder)
    requires z.db == y.db.(users := Moved(y.db.users, id, 0, delta))
    ensures Harmless(y.db, z.db, y.threads[u])
  {
    hide Step, Bucket;
    var other := y.threads[u];
    assert Avail(z.db.users, id) == Avail(y.db.users, id) - delta;
    if other.pc == AtRelWrite && other.rec.leader == id {
      OneHasLock(y, t, u, Bucket(id));
    }
    if other.pc == AtHoldWrite && other.bidder == id {
      OneHasLock(y, t, u, Bucket(id));
    }
    if InFlight(other) {
      assert other.bidder != y.threads[t].bidder;
    }
  }

  lemma OthersStand(y: System, h: History, z: System, h': History, t: nat)
    requires Inv(y, h) && t < |y.threads| && |z.threads| == |y.threads| == |h'.marks|
    requires z.threads == y.threads[t := z.threads[t]]
    requires forall u :: 0 <= u < |y.threads| && u != t ==> Extends(h, h', u) && Harmless(y.db, z.db, y.threads[u])
    requires ThreadOk(z, h', t)
    ensures AllOk(z, h')
  {
    hide Step;
    forall u | 0 <= u < |z.threads| ensures ThreadOk(z, h', u) {
      if u != t {
        assert ThreadOk(y, h, u);
        StillStands(y.db, z.db, h, h', u, y.threads[u]);
      }
    }
  }

  // ---------- the writing steps ----------

  /** The leader is released on both sides; the new hold is placed on one and owed on the other. */
  lemma ReleaseUsers(users: seq<User>, threads: seq<Thread>, abs: seq<User>, t: nat, th: Thread)
    requires UsersMatch(users, threads, abs) && t < |threads| && !Owing(threads[t]) && Owing(th)
    requires th.rec.leader != 0 && Exists(users, th.rec.leader) && Exists(abs, th.bidder) && LeaderHolds(abs, th.rec)
    ensures UsersMatch(Moved(users, th.rec.leader, 0, -th.rec.currentBid), threads[t := th],
                       BidUsers(abs, th.rec, th.bidder, th.amount))
  {
    UsersMoved(users, threads, abs, t, th, th.rec.leader, -th.rec.currentBid,
               BidUsers(abs, th.rec, th.bidder, th.amount));
  }

  /** The history in which the bid of thread `t` takes effect now. */
  function WithBid(y: System, h: History, t: nat): History
    requires t < |y.threads| == |h.marks| && h.trace != []
  {
    Effected(h, t, Step(Last(h), Request(y.threads[t])).store)
  }

  /** The extended history is in order, and the thread's reply is the atomic one. */
  ghost predicate TakesEffect(y: System, h: History, t: nat)
    requires t < |y.threads| == |h.marks| && h.trace != []
  {
    var h' := WithBid(y, h, t);
    var th := y.threads[t];
    && Chronicle(y.threads[t := Advance(y.db, th)], h')
    && ReplyStands(h', t, Advance(y.db, th))
    && BidAccepted(Last(h), th.bidder, th.auction, th.amount)
    && LeaderHolds(Last(h).users, Last(h).auctions[th.auction - 1])
    && Last(h') == BidStore(Last(h), th.bidder, th.auction, th.amount)
    && Sound(Last(h')) && Disputes.Reviewed(Last(h'))
    && Grows(h, h', t)
    && forall u :: 0 <= u < |y.threads| && u != t ==> Extends(h, h', u)
  }

  lemma BidTakesEffect(y: System, h: History, t: nat)
    requires Inv(y, h) && t < |y.threads| && AtCommit(y.threads[t])
    requires Committed(Advance(y.db, y.threads[t]))
    ensures |y.threads| == |h.marks| && h.trace != [] && TakesEffect(y, h, t)
  {
    hide BidStore, Matches, AllOk, Exclusive;
    var th := y.threads[t];
    CommitReady(y, h, t);
    ChronicleEffected(y.threads, h, t, Advance(y.db, th));
    var h' := WithBid(y, h, t);
    assert h'.trace[|h.trace| - 1] == Last(h);
  }

  lemma ReleaseStands(db: Store, h: History, h': History, t: nat, th: Thread)
    requires t < |h.marks| && t < |h'.marks| && th.pc == AtRelWrite && ThreadStands(db, h, t, th)
    requires 0 < th.rec.currentBid && ReplyStands(h', t, Advance(db, th))
    ensures Exists(db.users, th.rec.leader)
    ensures ThreadStands(db.(users := Moved(db.users, th.rec.leader, 0, -th.rec.currentBid)), h', t, Advance(db, th))
  {
    hide Step;
  }

  /** A wallet write leaves auctions and bids alone. */
  lemma WalletWriteIsOwn(y: System, t: nat)
    requires Exclusive(y) && t < |y.threads| && y.threads[t].pc in {AtRelWrite, AtHoldWrite}
    ensures OnlyOwnAuction(y, ThreadStep(y, t), t)
  {
    assert InCritical(y.threads[t]);
  }

  lemma ReleaseMatches(y: System, t: nat, abs: Store)
    requires Exclusive(y) && Matches(y, abs) && t < |y.threads|
    requires y.threads[t].pc == AtRelWrite && y.threads[t].rec.leader != 0
    requires BidAccepted(abs, y.threads[t].bidder, y.threads[t].auction, y.threads[t].amount)
    requires LeaderHolds(abs.users, abs.auctions[y.threads[t].auction - 1])
    requires abs.auctions[y.threads[t].auction - 1] == y.threads[t].rec
    requires Exists(y.db.users, y.threads[t].rec.leader)
    requires Touch(y.db, y.threads[t])
          == y.db.(users := Moved(y.db.users, y.threads[t].rec.leader, 0, -y.threads[t].rec.currentBid))
    ensures Matches(ThreadStep(y, t), BidStore(abs, y.threads[t].bidder, y.threads[t].auction, y.threads[t].amount))
  {
    hide UsersMatch, AuctionsMatch, BidsMatch, OnlyOwnAuction, Exclusive, Touch;
    WalletWriteIsOwn(y, t);
    ReleaseUsers(y.db.users, y.threads, abs.users, t, Advance(y.db, y.threads[t]));
    CommitShows(y, ThreadStep(y, t), t, abs);
  }

  lemma ReleaseHarmless(y: System, h: History, t: nat, u: nat)
    requires Inv(y, h) && t < |y.threads| && y.threads[t].pc == AtRelWrite
    requires u < |y.threads| && u != t
    ensures Harmless(y.db, ThreadStep(y, t).db, y.threads[u])
  {
    hide Step;
    ReleaseWrites(y, h, t);
    OthersKeepWallets(y, ThreadStep(y, t), t, u, y.threads[t].rec.leader, -y.threads[t].rec.currentBid);
  }

  /** Everything but the writing thread itself, put together. */
  lemma Assembled(y: System, h: History, z: System, h': History, t: nat)
    requires Inv(y, h) && Enabled(y, t) && z == ThreadStep(y, t)
    requires Chronicle(z.threads, h') && Sound(Last(h')) && Disputes.Reviewed(Last(h'))
    requires Matches(z, Last(h')) && ThreadOk(z, h', t)
    requires forall u :: 0 <= u < |y.threads| && u != t ==> Extends(h, h', u) && Harmless(y.db, z.db, y.threads[u])
    ensures Inv(z, h')
  {
    ThreadKeepsExclusive(y, t);
    StillOnePerUser(y.threads, t, z.threads[t]);
    OthersStand(y, h, z, h', t);
  }

  lemma ReleaseShows(y: System, h: History, t: nat)
    requires Inv(y, h) && t < |y.threads| == |h.marks| && h.trace != [] && y.threads[t].pc == AtRelWrite
    requires var th := y.threads[t];
      BidAccepted(Last(h), th.bidder, th.auction, th.amount) && LeaderHolds(Last(h).users, Last(h).auctions[th.auction - 1])
    ensures var th := y.threads[t]; Matches(ThreadStep(y, t), BidStore(Last(h), th.bidder, th.auction, th.amount))
  {
    hide Step, Disputes.Reviewed, Sound, Chronicle, Matches, BidStore, BidAccepted, LeaderHolds, Advance, Touch;
    assert ThreadOk(y, h, t);
    ReleaseWrites(y, h, t);
    InBid(Last(h), y.threads[t]);
    OwnRecordShown(y, h, t);
    ReleaseMatches(y, t, Last(h));
  }

  lemma InBid(s: Store, th: Thread)
    requires BidAccepted(s, th.bidder, th.auction, th.amount)
    ensures Exists(s.auctions, th.auction) && Exists(s.users, th.bidder)
  {}

  lemma ReleaseOwn(y: System, h: History, t: nat)
    requires Inv(y, h) && t < |y.threads| == |h.marks| && h.trace != []
    requires y.threads[t].pc == AtRelWrite && ReplyStands(WithBid(y, h, t), t, Advance(y.db, y.threads[t]))
    ensures ThreadOk(ThreadStep(y, t), WithBid(y, h, t), t)
  {
    hide Step, Disputes.Reviewed, Sound, Chronicle, Matches, ReplyStands;
    assert ThreadOk(y, h, t);
    ReleaseWrites(y, h, t);
    ReleaseStands(y.db, h, WithBid(y, h, t), t, y.threads[t]);
  }

  /** A thread that is about to release has read a record with a leader. */
  lemma ReleaseCommits(y: System, h: History, t: nat)
    requires Inv(y, h) && t < |y.threads| && y.threads[t].pc == AtRelWrite
    ensures Committed(Advance(y.db, y.threads[t]))
  {
    hide Step, Matches, Sound, Disputes.Reviewed;
    assert ThreadOk(y, h, t);
  }

  lemma ReleaseStep(y: System, h: History, t: nat) returns (h': History)
    requires Inv(y, h) && Enabled(y, t) && y.threads[t].pc == AtRelWrite
    ensures Inv(ThreadStep(y, t), h') && Grows(h, h', t)
  {
    hide Inv, Matches, Sound, Disputes.Reviewed, Chronicle, Grows, Harmless, Extends, BidStore, BidAccepted;
    ReleaseCommits(y, h, t);
    BidTakesEffect(y, h, t);
    h' := WithBid(y, h, t);
    ReleaseShows(y, h, t);
    ReleaseOwn(y, h, t);
    forall u | 0 <= u < |y.threads| && u != t ensures Harmless(y.db, ThreadStep(y, t).db, y.threads[u]) {
      ReleaseHarmless(y, h, t, u);
    }
    Assembled(y, h, ThreadStep(y, t), h', t);
  }

  // ---------- placing the hold ----------

  lemma HoldStands(db: Store, h: History, h': History, t: nat, th: Thread)
    requires t < |h.marks| && t < |h'.marks| && th.pc == AtHoldWrite && ThreadStands(db, h, t, th)
    requires ReplyStands(h', t, Advance(db, th))
    ensures Exists(db.users, th.bidder)
    ensures ThreadStands(db.(users := Moved(db.users, th.bidder, 0, th.amount)), h', t, Advance(db, th))
  {
    hide Step;
  }

  lemma HoldHarmless(y: System, h: History, t: nat, u: nat)
    requires Inv(y, h) && t < |y.threads| && y.threads[t].pc == AtHoldWrite
    requires u < |y.threads| && u != t
    ensures Harmless(y.db, ThreadStep(y, t).db, y.threads[u])
  {
    hide Step;
    HoldWrites(y, h, t);
    OthersKeepWallets(y, ThreadStep(y, t), t, u, y.threads[t].bidder, y.threads[t].amount);
  }

  lemma FirstHoldUsers(users: seq<User>, threads: seq<Thread>, abs: seq<User>, t: nat, th: Thread)
    requires UsersMatch(users, threads, abs) && t < |threads| && !Owing(threads[t]) && !Owing(th)
    requires th.rec.leader == 0 && Exists(users, th.bidder) && Exists(abs, th.bidder)
    ensures UsersMatch(Moved(users, th.bidder, 0, th.amount), threads[t := th],
                       BidUsers(abs, th.rec, th.bidder, th.amount))
  {
    UsersMoved(users, threads, abs, t, th, th.bidder, th.amount, BidUsers(abs, th.rec, th.bidder, th.amount));
  }

  lemma LaterHoldUsers(users: seq<User>, threads: seq<Thread>, abs: seq<User>, t: nat, th: Thread)
    requires UsersMatch(users, threads, abs) && t < |threads| && Owing(threads[t]) && !Owing(th)
    requires th.bidder == threads[t].bidder && th.amount == threads[t].amount && Exists(users, th.bidder)
    ensures UsersMatch(Moved(users, th.bidder, 0, th.amount), threads[t := th], abs)
  {
    UsersMoved(users, threads, abs, t, th, th.bidder, th.amount, abs);
  }

  /** With no leader to release, the hold is the first write and the bid takes effect here. */
  lemma FirstHoldMatches(y: System, t: nat, abs: Store)
    requires Exclusive(y) && Matches(y, abs) && t < |y.threads|
    requires y.threads[t].pc == AtHoldWrite && y.threads[t].rec.leader == 0
    requires BidAccepted(abs, y.threads[t].bidder, y.threads[t].auction, y.threads[t].amount)
    requires LeaderHolds(abs.users, abs.auctions[y.threads[t].auction - 1])
    requires abs.auctions[y.threads[t].auction - 1] == y.threads[t].rec
    requires Exists(y.db.users, y.threads[t].bidder)
    requires Touch(y.db, y.threads[t])
          == y.db.(users := Moved(y.db.users, y.threads[t].bidder, 0, y.threads[t].amount))
    ensures Matches(ThreadStep(y, t), BidStore(abs, y.threads[t].bidder, y.threads[t].auction, y.threads[t].amount))
  {
    hide UsersMatch, AuctionsMatch, BidsMatch, OnlyOwnAuction, Exclusive, Touch;
    WalletWriteIsOwn(y, t);
    FirstHoldUsers(y.db.users, y.threads, abs.users, t, Advance(y.db, y.threads[t]));
    CommitShows(y, ThreadStep(y, t), t, abs);
  }

  lemma FirstHoldShows(y: System, h: History, t: nat)
    requires Inv(y, h) && t < |y.threads| == |h.marks| && h.trace != []
    requires y.threads[t].pc == AtHoldWrite && y.threads[t].rec.leader == 0
    requires var th := y.threads[t];
      BidAccepted(Last(h), th.bidder, th.auction, th.amount) && LeaderHolds(Last(h).users, Last(h).auctions[th.auction - 1])
    ensures var th := y.threads[t]; Matches(ThreadStep(y, t), BidStore(Last(h), th.bidder, th.auction, th.amount))
  {
    hide Step, Disputes.Reviewed, Sound, Chronicle, Matches, BidStore, BidAccepted, LeaderHolds, Advance, Touch;
    assert ThreadOk(y, h, t);
    HoldWrites(y, h, t);
    InBid(Last(h), y.threads[t]);
    OwnRecordShown(y, h, t);
    FirstHoldMatches(y, t, Last(h));
  }

  lemma FirstHoldOwn(y: System, h: History, t: nat)
    requires Inv(y, h) && t < |y.threads| == |h.marks| && h.trace != []
    requires y.threads[t].pc == AtHoldWrite && ReplyStands(WithBid(y, h, t), t, Advance(y.db, y.threads[t]))
    ensures ThreadOk(ThreadStep(y, t), WithBid(y, h, t), t)
  {
    hide Step, Disputes.Reviewed, Sound, Chronicle, Matches, ReplyStands;
    assert ThreadOk(y, h, t);
    HoldWrites(y, h, t);
    HoldStands(y.db, h, WithBid(y, h, t), t, y.threads[t]);
  }

  lemma FirstHoldStep(y: System, h: History, t: nat) returns (h': History)
    requires Inv(y, h) && Enabled(y, t) && y.threads[t].pc == AtHoldWrite && y.threads[t].rec.leader == 0
    ensures Inv(ThreadStep(y, t), h') && Grows(h, h', t)
  {
    hide Inv, Matches, Sound, Disputes.Reviewed, Chronicle, Grows, Harmless, Extends, BidStore, BidAccepted;
    BidTakesEffect(y, h, t);
    h' := WithBid(y, h, t);
    FirstHoldShows(y, h, t);
    FirstHoldOwn(y, h, t);
    forall u | 0 <= u < |y.threads| && u != t ensures Harmless(y.db, ThreadStep(y, t).db, y.threads[u]) {
      HoldHarmless(y, h, t, u);
    }
    Assembled(y, h, ThreadStep(y, t), h', t);
  }

  /** A committed thread pays its debt: the sequential store does not change. */
  lemma LaterHoldMatches(y: System, h: History, t: nat)
    requires Inv(y, h) && t < |y.threads| && y.threads[t].pc == AtHoldWrite && y.threads[t].rec.leader != 0
    ensures Matches(ThreadStep(y, t), Last(h))
  {
    hide Step, UsersMatch, Sound;
    var th := y.threads[t];
    var z := ThreadStep(y, t);
    assert ThreadOk(y, h, t);
    HoldWrites(y, h, t);
    LaterHoldUsers(y.db.users, y.threads, Last(h).users, t, Advance(y.db, th));
    assert y.sems[Slot(th.auction)] == t by { assert InCritical(th); }
    SameShown(y, Last(h), z, t);
  }

  /** A committed thread moved on, and what it shows is what it showed. */
  lemma SameShown(y: System, abs: Store, z: System, t: nat)
    requires AuctionsMatch(y, abs.auctions) && BidsMatch(y, abs.bids) && OnlyOwnAuction(y, z, t)
    requires Unlogged(z, y.threads[t].auction) == Unlogged(y, y.threads[t].auction)
    requires z.db.bids == y.db.bids
    requires Exists(y.db.auctions, y.threads[t].auction)
    requires Shown(z, y.threads[t].auction - 1) == Shown(y, y.threads[t].auction - 1)
    ensures AuctionsMatch(z, abs.auctions) && BidsMatch(z, abs.bids)
  {
    forall i | 0 <= i < |abs.auctions| ensures AuctionMatches(z, abs.auctions, i) {
      assert AuctionMatches(y, abs.auctions, i);
      if i + 1 != y.threads[t].auction { OthersShown(y, z, t, i + 1); }
    }
    forall a: nat ensures BidMatches(z, abs.bids, a) {
      assert BidMatches(y, abs.bids, a);
      if a != y.threads[t].auction { OthersShown(y, z, t, a); }
    }
  }

  /** The sequential order is the same, and the thread has not been undone. */
  lemma SameOrder(y: System, h: History, t: nat)
    requires Inv(y, h) && t < |y.threads|
    requires MovesOn(y.threads[t], Advance(y.db, y.threads[t]))
    ensures Chronicle(y.threads[t := Advance(y.db, y.threads[t])], h)
  {
    ChronicleNoted(y.threads, h, t, Advance(y.db, y.threads[t]), h.marks[t]);
    assert Noted(h, t, h.marks[t]) == h;
  }

  lemma LaterHoldStep(y: System, h: History, t: nat)
    requires Inv(y, h) && Enabled(y, t) && y.threads[t].pc == AtHoldWrite && y.threads[t].rec.leader != 0
    ensures Inv(ThreadStep(y, t), h)
  {
    hide Step, Sound, Matches, Disputes.Reviewed, Exclusive;
    var z := ThreadStep(y, t);
    assert ThreadOk(y, h, t);
    SameOrder(y, h, t);
    LaterHoldMatches(y, h, t);
    HoldWrites(y, h, t);
    HoldStands(y.db, h, h, t, y.threads[t]);
    forall u | 0 <= u < |y.threads| && u != t ensures Harmless(y.db, z.db, y.threads[u]) {
      HoldHarmless(y, h, t, u);
    }
    Assembled(y, h, z, h, t);
  }

  // ---------- writing the auction record ----------

  lemma RecordHarmless(y: System, h: History, t: nat, u: nat)
    requires Inv(y, h) && t < |y.threads| && y.threads[t].pc == AtWrite
    requires u < |y.threads| && u != t
    ensures Harmless(y.db, ThreadStep(y, t).db, y.threads[u])
  {
    hide Step;
    var other := y.threads[u];
    if 4 <= Rank(other.pc) <= 13 && other.auction == y.threads[t].auction {
      OneInCritical(y, t, u);
    }
  }

  lemma HoldsSem(y: System, t: nat)
    requires Exclusive(y) && t < |y.threads| && InCritical(y.threads[t])
    ensures Slot(y.threads[t].auction) in y.sems && y.sems[Slot(y.threads[t].auction)] == t
  {}

  lemma RecordMatches(y: System, h: History, t: nat)
    requires Inv(y, h) && t < |y.threads| && y.threads[t].pc == AtWrite
    ensures Matches(ThreadStep(y, t), Last(h))
  {
    hide Step, Exclusive, AuctionsMatch, BidsMatch, UsersMatch, Sound, Disputes.Reviewed;
    var th := y.threads[t];
    var z := ThreadStep(y, t);
    assert ThreadOk(y, h, t);
    HoldsSem(y, t);
    OwnShown(y, z, t);
    OwnShown(y, y, t);
    SameShown(y, Last(h), z, t);
    SameUsers(y, h, z, t);
  }

  /** Neither the thread's debt nor the wallets changed. */
  lemma SameUsers(y: System, h: History, z: System, t: nat)
    requires Inv(y, h) && t < |y.threads| == |z.threads| && z.threads == y.threads[t := z.threads[t]]
    requires z.db.users == y.db.users && !Owing(y.threads[t]) && !Owing(z.threads[t])
    ensures UsersMatch(z.db.users, z.threads, Last(h).users)
  {
    hide Step;
    forall i | 0 <= i < |z.db.users| ensures UserMatches(z.db.users, z.threads, Last(h).users, i) {
      assert UserMatches(y.db.users, y.threads, Last(h).users, i);
      SumOfUpdate(y.threads, t, z.threads[t], OwedBy(i + 1));
    }
  }

  lemma LateStands(db: Store, db': Store, h: History, t: nat, th: Thread)
    requires t < |h.marks| && th.pc in {AtWrite, AtAppend} && ThreadStands(db, h, t, th)
    requires |db.users| <= |db'.users|
    ensures ThreadStands(db', h, t, Advance(db, th))
  {
    hide Step;
  }

  lemma RecordStep(y: System, h: History, t: nat)
    requires Inv(y, h) && Enabled(y, t) && y.threads[t].pc == AtWrite
    ensures Inv(ThreadStep(y, t), h)
  {
    hide Step, Sound, Matches, Disputes.Reviewed;
    var z := ThreadStep(y, t);
    assert ThreadOk(y, h, t);
    SameOrder(y, h, t);
    RecordMatches(y, h, t);
    LateStands(y.db, z.db, h, t, y.threads[t]);
    forall u | 0 <= u < |y.threads| && u != t ensures Harmless(y.db, z.db, y.threads[u]) {
      RecordHarmless(y, h, t, u);
    }
    Assembled(y, h, z, h, t);
  }

  // ---------- appending to the bid log ----------

  /** The offer moves from the thread into the log. */
  lemma AppendShows(y: System, z: System, t: nat, abs: Store, b: Bid)
    requires AuctionsMatch(y, abs.auctions) && BidsMatch(y, abs.bids) && OnlyOwnAuction(y, z, t)
    requires z.db.auctions == y.db.auctions && z.db.bids == y.db.bids + [b]
    requires Committed(y.threads[t]) && !Unwritten(y.threads[t]) && !Committed(z.threads[t])
    requires b.auction == y.threads[t].auction && b.bidder == y.threads[t].bidder && b.amount == y.threads[t].amount
    ensures AuctionsMatch(z, abs.auctions) && BidsMatch(z, abs.bids)
  {
    OwnShown(y, z, t);
    OwnShown(y, y, t);
    forall i | 0 <= i < |abs.auctions| ensures AuctionMatches(z, abs.auctions, i) {
      assert AuctionMatches(y, abs.auctions, i);
      if i + 1 != b.auction { OthersShown(y, z, t, i + 1); }
    }
    forall a: nat ensures BidMatches(z, abs.bids, a) {
      assert BidMatches(y, abs.bids, a);
      OffersAppend(y.db.bids, b, a);
      if a != b.auction { OthersShown(y, z, t, a); }
    }
  }

  lemma AppendMatches(y: System, h: History, t: nat)
    requires Inv(y, h) && t < |y.threads| && y.threads[t].pc == AtAppend
    ensures Matches(ThreadStep(y, t), Last(h))
  {
    hide Step, AuctionsMatch, BidsMatch, UsersMatch, Sound, Disputes.Reviewed, Exclusive;
    var th := y.threads[t];
    var z := ThreadStep(y, t);
    HoldsSem(y, t);
    AppendShows(y, z, t, Last(h), Bid(th.bidId, th.auction, th.bidder, th.amount, true));
    SameUsers(y, h, z, t);
  }

  lemma AppendStep(y: System, h: History, t: nat)
    requires Inv(y, h) && Enabled(y, t) && y.threads[t].pc == AtAppend
    ensures Inv(ThreadStep(y, t), h)
  {
    hide Step, Sound, Matches, Disputes.Reviewed, Exclusive;
    var z := ThreadStep(y, t);
    assert ThreadOk(y, h, t);
    SameOrder(y, h, t);
    AppendMatches(y, h, t);
    LateStands(y.db, z.db, h, t, y.threads[t]);
    Assembled(y, h, z, h, t);
  }

  // ---------- every step of a thread ----------

  lemma ThreadStepKeepsInv(y: System, h: History, t: nat) returns (h': History)
    requires Inv(y, h) && Enabled(y, t)
    ensures Inv(ThreadStep(y, t), h') && Grows(h, h', t)
  {
    var th := y.threads[t];
    if th.pc == AtPeek { h' := PeekStep(y, h, t); }
    else if th.pc == AtCheck { h' := CheckStep(y, h, t); }
    else if th.pc == AtReread { h' := RereadStep(y, h, t); }
    else if th.pc in {AtWait, AtNextId, AtPost} { h' := SemStep(y, h, t); }
    else if th.pc == AtRelWrite { h' := ReleaseStep(y, h, t); }
    else if th.pc == AtHoldWrite && th.rec.leader == 0 { h' := FirstHoldStep(y, h, t); }
    else if th.pc == AtHoldWrite { LaterHoldStep(y, h, t); h' := h; }
    else if th.pc == AtWrite { RecordStep(y, h, t); h' := h; }
    else if th.pc == AtAppend { AppendStep(y, h, t); h' := h; }
    else { h' := WalletStep(y, h, t); }
  }
}
