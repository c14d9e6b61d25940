/** Every step of a bid thread keeps the relation between the running system and the sequential order. */
module Steps {
  import opened Records
  import opened Sums
  import opened Events
  import opened Escrow
  import opened Protocol
  import opened Exclusion
  import opened Refinement

  // ---------- what the other threads may rely on is left alone ----------

  /** The history only grew, and the mark of thread `t` is as it was. */
  predicate Extends(h: History, h': History, t: nat) {
    && t < |h.marks| <= |h'.marks| && h'.marks[t] == h.marks[t]
    && h.trace <= h'.trace && h.items <= h'.items
  }

  /** A change of the tables that this thread cannot notice: what it could afford it still can. */
  predicate Harmless(db: Store, db': Store, th: Thread) {
    && |db.users| <= |db'.users|
    && (1 <= Rank(th.pc) <= 11 && Exists(db.users, th.bidder) && th.amount <= Avail(db.users, th.bidder) ==>
          th.amount <= Avail(db'.users, th.bidder))
    && (4 <= Rank(th.pc) <= 13 && Exists(db.auctions, th.auction) ==>
          Exists(db'.auctions, th.auction) && db'.auctions[th.auction - 1] == db.auctions[th.auction - 1])
    && (th.pc == AtRelWrite && Exists(db.users, th.rec.leader) ==>
          db'.users[th.rec.leader - 1] == db.users[th.rec.leader - 1])
    && (th.pc == AtHoldWrite && Exists(db.users, th.bidder) ==>
          db'.users[th.bidder - 1] == db.users[th.bidder - 1])
  }

  lemma StillStands(db: Store, db': Store, h: History, h': History, t: nat, th: Thread)
    requires Extends(h, h', t) && ThreadStands(db, h, t, th) && Harmless(db, db', th)
    ensures ThreadStands(db', h', t, th)
  {
    hide Step;
  }

  // ---------- the chronicle ----------

  /** A thread that moved on without changing its request or undoing its placement. */
  predicate MovesOn(th: Thread, th': Thread) {
    && Request(th') == Request(th)
    && (Placed(th) ==> Placed(th'))
  }

  function Noted(h: History, t: nat, mark: Mark): History
    requires t < |h.marks|
  {
    h.(marks := h.marks[t := mark])
  }

  lemma ChronicleNoted(threads: seq<Thread>, h: History, t: nat, th: Thread, mark: Mark)
    requires Chronicle(threads, h) && t < |threads| && MovesOn(threads[t], th)
    requires Placed(threads[t]) ==> mark.linAt == h.marks[t].linAt
    ensures Chronicle(threads[t := th], Noted(h, t, mark))
  {
    var h' := Noted(h, t, mark);
    var threads' := threads[t := th];
    forall k | 0 <= k < |h.items| ensures StepAt(threads', h', k) && OwnerAt(threads', h', k) {
      assert StepAt(threads, h, k) && OwnerAt(threads, h, k);
    }
  }

  /** The bid of thread `t` takes effect now. */
  function Effected(h: History, t: nat, s: Store): History
    requires t < |h.marks|
  {
    History(h.trace + [s], h.items + [OfThread(t)], h.marks[t := h.marks[t].(linAt := |h.items|)])
  }

  lemma ChronicleEffected(threads: seq<Thread>, h: History, t: nat, th: Thread)
    requires Chronicle(threads, h) && t < |threads| && MovesOn(threads[t], th)
    requires !Placed(threads[t]) && Placed(th)
    ensures Chronicle(threads[t := th], Effected(h, t, Step(Last(h), Request(threads[t])).store))
  {
    var h' := Effected(h, t, Step(Last(h), Request(threads[t])).store);
    var threads' := threads[t := th];
    forall k | 0 <= k < |h'.items| ensures StepAt(threads', h', k) && OwnerAt(threads', h', k) {
      if k < |h.items| {
        assert StepAt(threads, h, k) && OwnerAt(threads, h, k);
        assert h'.items[k] == h.items[k];
      }
    }
  }

  // ---------- the shown records ----------

  /** Thread `t` moved without writing; its semaphore changed hands only while nothing was committed. */
  ghost predicate Unseen(y: System, z: System, t: nat) {
    && t < |y.threads| && z.db == y.db
    && |z.threads| == |y.threads| && z.threads == y.threads[t := z.threads[t]]
    && var th := y.threads[t];
    && var th' := z.threads[t];
    && Request(th') == Request(th)
    && Committed(th') == Committed(th) && Unwritten(th') == Unwritten(th) && Owing(th') == Owing(th)
    && (Committed(th) ==> th'.rec == th.rec && z.sems == y.sems)
    && (forall s: nat :: s != Slot(th.auction) ==> (s in z.sems <==> s in y.sems) && (s in y.sems ==> z.sems[s] == y.sems[s]))
    && (Slot(th.auction) in y.sems && y.sems != z.sems ==> y.sems[Slot(th.auction)] == t)
    && (Slot(th.auction) in z.sems && y.sems != z.sems ==> z.sems[Slot(th.auction)] == t)
  }

  lemma UnseenShows(y: System, z: System, t: nat, auction: nat)
    requires Unseen(y, z, t)
    ensures auction >= 1 && auction <= |y.db.auctions| ==> Shown(z, auction - 1) == Shown(y, auction - 1)
    ensures Unlogged(z, auction) == Unlogged(y, auction)
  {}

  lemma UnseenMatches(y: System, z: System, t: nat, abs: Store)
    requires Unseen(y, z, t) && Matches(y, abs)
    ensures Matches(z, abs)
  {
    forall i | 0 <= i < |z.db.users| ensures UserMatches(z.db.users, z.threads, abs.users, i) {
      assert UserMatches(y.db.users, y.threads, abs.users, i);
      SumOfUpdate(y.threads, t, z.threads[t], OwedBy(i + 1));
    }
    forall i | 0 <= i < |abs.auctions| ensures AuctionMatches(z, abs.auctions, i) {
      assert AuctionMatches(y, abs.auctions, i);
      UnseenShows(y, z, t, i + 1);
    }
    forall a: nat ensures BidMatches(z, abs.bids, a) {
      assert BidMatches(y, abs.bids, a);
      UnseenShows(y, z, t, a);
    }
  }

  lemma StillOnePerUser(threads: seq<Thread>, t: nat, th: Thread)
    requires OnePerUser(threads) && t < |threads| && InFlight(threads[t]) && Request(th) == Request(threads[t])
    ensures OnePerUser(threads[t := th])
  {}

  // ---------- steps that write nothing ----------

  lemma SilentKeepsInv(y: System, h: History, t: nat, mark: Mark)
    requires Inv(y, h) && Enabled(y, t)
    requires Unseen(y, ThreadStep(y, t), t) && MovesOn(y.threads[t], Advance(y.db, y.threads[t]))
    requires Placed(y.threads[t]) ==> mark.linAt == h.marks[t].linAt
    requires ThreadStands(y.db, Noted(h, t, mark), t, Advance(y.db, y.threads[t]))
    ensures Inv(ThreadStep(y, t), Noted(h, t, mark))
  {
    hide Step;
    var z := ThreadStep(y, t);
    var h' := Noted(h, t, mark);
    ThreadKeepsExclusive(y, t);
    ChronicleNoted(y.threads, h, t, z.threads[t], mark);
    UnseenMatches(y, z, t, Last(h));
    StillOnePerUser(y.threads, t, z.threads[t]);
    forall u | 0 <= u < |z.threads| ensures ThreadOk(z, h', u) {
      if u != t {
        assert ThreadOk(y, h, u);
        StillStands(y.db, z.db, h, h', u, y.threads[u]);
      }
    }
  }

  predicate WalletPc(pc: Pc) {
    pc in {AtRelLock, AtRelRead, AtRelUnlock, AtHoldLock, AtHoldCheck, AtHoldRead, AtHoldUnlock}
  }

  lemma WalletUnseen(y: System, t: nat)
    requires t < |y.threads| && WalletPc(y.threads[t].pc)
    requires CopiesStand(y.db, y.threads[t]) && CheckStands(y.db, y.threads[t])
    requires y.threads[t].pc == AtRelRead ==> Exists(y.db.users, y.threads[t].rec.leader)
    ensures Unseen(y, ThreadStep(y, t), t) && MovesOn(y.threads[t], Advance(y.db, y.threads[t]))
  {}

  lemma WalletStands(db: Store, h: History, t: nat, th: Thread)
    requires t < |h.marks| && ThreadStands(db, h, t, th) && WalletPc(th.pc)
    requires th.pc == AtRelRead ==> Exists(db.users, th.rec.leader)
    ensures ThreadStands(db, h, t, Advance(db, th))
  {
    hide Step;
  }

  lemma LeaderExists(y: System, h: History, t: nat)
    requires Inv(y, h) && t < |y.threads| && 4 <= Rank(y.threads[t].pc) <= 6
    ensures Exists(y.db.users, y.threads[t].rec.leader)
  {
    hide Step, Exclusive;
    assert ThreadOk(y, h, t);
    OwnRecordShown(y, h, t);
    assert GoodAuction(Last(h), y.threads[t].auction - 1);
  }

  lemma WalletStep(y: System, h: History, t: nat) returns (h': History)
    requires Inv(y, h) && Enabled(y, t) && WalletPc(y.threads[t].pc)
    ensures Inv(ThreadStep(y, t), h') && Grows(h, h', t)
  {
    hide Step;
    assert ThreadOk(y, h, t);
    if y.threads[t].pc == AtRelRead {
      LeaderExists(y, h, t);
    }
    WalletUnseen(y, t);
    WalletStands(y.db, h, t, y.threads[t]);
    h' := Noted(h, t, h.marks[t]);
    assert h' == h;
    SilentKeepsInv(y, h, t, h.marks[t]);
  }

  /** What the sequential store says about a thread that has committed nothing yet. */
  lemma SameForBidder(y: System, h: History, t: nat)
    requires Inv(y, h) && t < |y.threads| && InFlight(y.threads[t]) && !Owing(y.threads[t])
    ensures var th := y.threads[t];
      && Exists(y.db.users, th.bidder) && Exists(Last(h).users, th.bidder)
      && Last(h).users[th.bidder - 1] == y.db.users[th.bidder - 1]
  {
    hide Step;
    var th := y.threads[t];
    assert ThreadOk(y, h, t);
    NoDebt(y.threads, t);
    assert UserMatches(y.db.users, y.threads, Last(h).users, th.bidder - 1);
  }

  /** Steps that only read: the peek, the check and the re-read. */
  lemma LookUnseen(y: System, t: nat)
    requires Exclusive(y) && Enabled(y, t) && y.threads[t].pc in {AtPeek, AtCheck, AtReread}
    ensures Unseen(y, ThreadStep(y, t), t) && MovesOn(y.threads[t], Advance(y.db, y.threads[t]))
  {
    hide Exclusive;
  }

  /** The sequential store shows the thread's bidder and auction as the tables do. */
  predicate SameView(db: Store, abs: Store, th: Thread) {
    && Exists(db.users, th.bidder) && Exists(abs.users, th.bidder)
    && abs.users[th.bidder - 1] == db.users[th.bidder - 1]
    && |abs.auctions| == |db.auctions|
  }

  lemma PeekHolds(db: Store, abs: Store, h: History, t: nat, th: Thread)
    requires t < |h.marks| && h.marks[t].linAt == h.marks[t].peekAt < |h.trace| && h.trace[h.marks[t].linAt] == abs
    requires th.pc == AtPeek && SameView(db, abs, th)
    requires Exists(db.auctions, th.auction) ==>
      abs.auctions[th.auction - 1].status == db.auctions[th.auction - 1].status
    ensures ThreadStands(db, h, t, Advance(db, th))
  {}

  lemma PeekStep(y: System, h: History, t: nat) returns (h': History)
    requires Inv(y, h) && Enabled(y, t) && y.threads[t].pc == AtPeek
    ensures Inv(ThreadStep(y, t), h') && Grows(h, h', t)
  {
    hide Step, ThreadStands;
    var th := y.threads[t];
    var mark := Mark(|h.trace| - 1, |h.trace| - 1);
    h' := Noted(h, t, mark);
    SameForBidder(y, h, t);
    if Exists(y.db.auctions, th.auction) {
      ShownStatus(y, h, th.auction - 1);
    }
    PeekHolds(y.db, Last(h), h', t, th);
    LookUnseen(y, t);
    SilentKeepsInv(y, h, t, mark);
  }

  lemma CheckHolds(db: Store, h: History, t: nat, th: Thread)
    requires t < |h.marks| && th.pc == AtCheck && ThreadStands(db, h, t, th)
    ensures var h' := Noted(h, t, h.marks[t].(linAt := h.marks[t].peekAt));
      ThreadStands(db, h', t, Advance(db, th))
  {}

  lemma CheckStep(y: System, h: History, t: nat) returns (h': History)
    requires Inv(y, h) && Enabled(y, t) && y.threads[t].pc == AtCheck
    ensures Inv(ThreadStep(y, t), h') && Grows(h, h', t)
  {
    hide Step, ThreadStands;
    var mark := h.marks[t].(linAt := h.marks[t].peekAt);
    h' := Noted(h, t, mark);
    assert ThreadOk(y, h, t);
    CheckHolds(y.db, h, t, y.threads[t]);
    LookUnseen(y, t);
    SilentKeepsInv(y, h, t, mark);
  }

  lemma SemUnseen(y: System, t: nat)
    requires Exclusive(y) && Enabled(y, t) && y.threads[t].pc in {AtWait, AtNextId, AtPost}
    ensures Unseen(y, ThreadStep(y, t), t) && MovesOn(y.threads[t], Advance(y.db, y.threads[t]))
  {
  }

  lemma SemStands(db: Store, h: History, t: nat, th: Thread)
    requires t < |h.marks| && ThreadStands(db, h, t, th) && th.pc in {AtWait, AtNextId, AtPost}
    ensures ThreadStands(db, h, t, Advance(db, th))
  {
    hide Step;
  }

  lemma SemStep(y: System, h: History, t: nat) returns (h': History)
    requires Inv(y, h) && Enabled(y, t) && y.threads[t].pc in {AtWait, AtNextId, AtPost}
    ensures Inv(ThreadStep(y, t), h') && Grows(h, h', t)
  {
    hide Step;
    assert ThreadOk(y, h, t);
    SemUnseen(y, t);
    SemStands(y.db, h, t, y.threads[t]);
    h' := Noted(h, t, h.marks[t]);
    assert h' == h;
    SilentKeepsInv(y, h, t, h.marks[t]);
  }

  /** Inside the semaphore nobody else's bid is pending on this auction. */
  lemma OwnRecordShown(y: System, h: History, t: nat)
    requires Inv(y, h) && t < |y.threads| && InCritical(y.threads[t]) && !Unwritten(y.threads[t])
    requires Exists(y.db.auctions, y.threads[t].auction)
    ensures Exists(Last(h).auctions, y.threads[t].auction)
    ensures Last(h).auctions[y.threads[t].auction - 1] == y.db.auctions[y.threads[t].auction - 1]
  {
    hide Step;
    assert AuctionMatches(y, Last(h).auctions, y.threads[t].auction - 1);
  }

  lemma RereadHolds(db: Store, abs: Store, h: History, t: nat, th: Thread)
    requires t < |h.marks| && h.marks[t].linAt < |h.trace| && h.trace[h.marks[t].linAt] == abs
    requires th.pc == AtReread && SameView(db, abs, th) && th.amount <= Avail(db.users, th.bidder)
    requires Exists(db.auctions, th.auction) ==> abs.auctions[th.auction - 1] == db.auctions[th.auction - 1]
    ensures ThreadStands(db, h, t, Advance(db, th))
  {}

  lemma StillAffords(y: System, h: History, t: nat)
    requires Inv(y, h) && t < |y.threads| && 2 <= Rank(y.threads[t].pc) <= 11
    ensures Exists(y.db.users, y.threads[t].bidder)
    ensures y.threads[t].amount <= Avail(y.db.users, y.threads[t].bidder)
  {
    hide Step;
    assert ThreadOk(y, h, t);
  }

  lemma RereadStep(y: System, h: History, t: nat) returns (h': History)
    requires Inv(y, h) && Enabled(y, t) && y.threads[t].pc == AtReread
    ensures Inv(ThreadStep(y, t), h') && Grows(h, h', t)
  {
    hide Step, ThreadStands, Holder;
    var th := y.threads[t];
    var mark := h.marks[t].(linAt := |h.trace| - 1);
    h' := Noted(h, t, mark);
    StillAffords(y, h, t);
    SameForBidder(y, h, t);
    if Exists(y.db.auctions, th.auction) {
      OwnRecordShown(y, h, t);
    }
    RereadHolds(y.db, Last(h), h', t, th);
    LookUnseen(y, t);
    SilentKeepsInv(y, h, t, mark);
  }
}
