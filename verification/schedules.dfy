/** Building executions: putting two together, cutting one short, and letting one bid run while the
    others stand still. */
module Schedules {
  import opened Records
  import opened Events
  import opened Escrow
  import opened Protocol
  import opened Exclusion
  import opened Refinement
  import opened Commits
  import opened Environment
  import opened Linearization
  import Disputes

  lemma {:induction false} Chain(y: System, acts: seq<Action>, m: System, more: seq<Action>, z: System)
    requires Execution(y, acts, m) && Execution(m, more, z)
    ensures Execution(y, acts + more, z)
    decreases |acts|
  {
    hide Allowed, Next;
    if acts == [] {
      assert acts + more == more;
    } else {
      Chain(Next(y, acts[0]), acts[1..], m, more, z);
      assert (acts + more)[1..] == acts[1..] + more;
    }
  }

  lemma OneMore(y: System, acts: seq<Action>, m: System, a: Action)
    requires Execution(y, acts, m) && Allowed(m, a)
    ensures Execution(y, acts + [a], Next(m, a))
  {
    hide Allowed, Next;
    assert [a][1..] == [];
    assert Execution(m, [a], Next(m, a));
    Chain(y, acts, m, [a], Next(m, a));
  }

  lemma {:induction false} CutShort(y: System, acts: seq<Action>, z: System, k: nat)
    requires Execution(y, acts, z) && k <= |acts|
    ensures Execution(y, acts[..k], After(y, acts, k))
    decreases k
  {
    hide Allowed, Next;
    if k > 0 {
      CutShort(Next(y, acts[0]), acts[1..], z, k - 1);
      assert acts[..k][1..] == acts[1..][..k - 1];
    }
  }

  // ---------- one bid runs, the others stand still ----------

  /** Every other thread stands outside its wallet sections, and not in a critical section with this
      thread's semaphore. */
  ghost predicate ClearFor(y: System, t: nat) {
    t < |y.threads| && forall u :: 0 <= u < |y.threads| && u != t ==> OutOfTheWay(y.threads[u], y.threads[t].auction)
  }

  predicate OutOfTheWay(th: Thread, auction: nat) {
    && !(5 <= Rank(th.pc) <= 7 || 9 <= Rank(th.pc) <= 12)
    && (InCritical(th) ==> Slot(th.auction) != Slot(auction))
  }

  lemma ClearCanMove(y: System, t: nat)
    requires Exclusive(y) && ClearFor(y, t) && InFlight(y.threads[t])
    ensures Enabled(y, t)
  {
    var th := y.threads[t];
    SemaphoreFree(y, t);
    LockFree(y, t, Bucket(th.rec.leader));
    LockFree(y, t, Bucket(th.bidder));
  }

  lemma SemaphoreFree(y: System, t: nat)
    requires Exclusive(y) && ClearFor(y, t)
    ensures InCritical(y.threads[t]) || Slot(y.threads[t].auction) !in y.sems
  {
    hide Slot;
    var s := Slot(y.threads[t].auction);
    forall u | 0 <= u < |y.threads| && u != t ensures !(InCritical(y.threads[u]) && Slot(y.threads[u].auction) == s) {
      assert OutOfTheWay(y.threads[u], y.threads[t].auction);
    }
  }

  lemma LockFree(y: System, t: nat, b: nat)
    requires Exclusive(y) && ClearFor(y, t)
    ensures HasLock(y.threads[t], b) || b !in y.locks
  {
    forall u | 0 <= u < |y.threads| && u != t ensures !HasLock(y.threads[u], b) {
      assert OutOfTheWay(y.threads[u], y.threads[t].auction);
    }
  }

  /** Acceptable while it has not looked inside the semaphore. */
  predicate OnItsWay(db: Store, th: Thread) {
    Rank(th.pc) <= 3 ==> BidAccepted(db, th.bidder, th.auction, th.amount)
  }

  /** What a thread with valid copies and a valid check does next. */
  lemma GoesOn(db: Store, th: Thread)
    requires CopiesStand(db, th) && CheckStands(db, th) && Rank(th.pc) < 14 && OnItsWay(db, th)
    ensures Rank(th.pc) < Rank(Advance(db, th).pc) && Request(Advance(db, th)) == Request(th)
    ensures Rank(th.pc) <= 2 ==> Rank(Advance(db, th).pc) == Rank(th.pc) + 1
    ensures th.pc == AtReread ==> Advance(db, th).pc in {AtRelLock, AtHoldLock}
    ensures Rank(th.pc) < 13 ==> Rank(Advance(db, th).pc) <= 13
    ensures th.pc == AtWrite ==> Advance(db, th).pc == AtNextId
    ensures Rank(th.pc) <= 3 ==> Touch(db, th) == db
  {}

  /** Only thread `t` moved, and it still has the same request. */
  predicate OnlyMoved(y: System, z: System, t: nat) {
    && t < |y.threads| == |z.threads| && z.threads == y.threads[t := z.threads[t]]
    && Request(z.threads[t]) == Request(y.threads[t])
  }

  lemma StillClear(y: System, z: System, t: nat)
    requires ClearFor(y, t) && OnlyMoved(y, z, t)
    ensures ClearFor(z, t)
  {
    forall u | 0 <= u < |z.threads| && u != t ensures OutOfTheWay(z.threads[u], z.threads[t].auction) {
      assert OutOfTheWay(y.threads[u], y.threads[t].auction);
    }
  }

  /** One step of a thread that has a clear way. */
  lemma StepsOn(y: System, h: History, t: nat) returns (h': History)
    requires Inv(y, h) && t < |y.threads| && ClearFor(y, t) && Rank(y.threads[t].pc) < 14 && OnItsWay(y.db, y.threads[t])
    ensures Enabled(y, t) && Inv(ThreadStep(y, t), h')
    ensures OnlyMoved(y, ThreadStep(y, t), t) && ClearFor(ThreadStep(y, t), t)
    ensures Rank(y.threads[t].pc) <= 3 ==> ThreadStep(y, t).db == y.db
    ensures ThreadStep(y, t).threads[t] == Advance(y.db, y.threads[t])
    ensures CopiesStand(y.db, y.threads[t]) && CheckStands(y.db, y.threads[t])
  {
    hide Step, Advance, Touch, Matches, Sound, Disputes.Reviewed, Enabled, ClearFor;
    assert ThreadOk(y, h, t);
    GoesOn(y.db, y.threads[t]);
    ClearCanMove(y, t);
    h' := ThreadStepKeepsInv(y, h, t);
    StillClear(y, ThreadStep(y, t), t);
  }

  /** An acceptable bid gets to its semaphore (goal 2) or through its re-read (goal 4), writing nothing. */
  lemma {:induction false} Looks(y: System, h: History, t: nat, goal: nat)
    returns (acts: seq<Action>, z: System, h': History)
    requires Inv(y, h) && t < |y.threads| && ClearFor(y, t) && OnItsWay(y.db, y.threads[t]) && goal in {2, 4}
    requires Rank(y.threads[t].pc) <= 3 || y.threads[t].pc in {AtRelLock, AtHoldLock}
    ensures Execution(y, acts, z) && Inv(z, h') && OnlyMoved(y, z, t) && ClearFor(z, t)
    ensures z.db == y.db
    ensures goal <= Rank(z.threads[t].pc)
    ensures Rank(z.threads[t].pc) <= 3 || z.threads[t].pc in {AtRelLock, AtHoldLock}
    ensures Rank(y.threads[t].pc) <= 2 == goal ==> z.threads[t].pc == AtWait
    ensures OnItsWay(z.db, z.threads[t])
    decreases 13 - Rank(y.threads[t].pc)
  {
    hide Inv, Advance, Touch, ThreadStep, Enabled, ClearFor, CopiesStand, CheckStands;
    if Rank(y.threads[t].pc) >= goal {
      acts, z, h' := [], y, h;
    } else {
      var h1 := StepsOn(y, h, t);
      GoesOn(y.db, y.threads[t]);
      var rest;
      rest, z, h' := Looks(ThreadStep(y, t), h1, t, goal);
      acts := [Run(t)] + rest;
      assert acts[1..] == rest;
    }
  }

  /** From its copy a bid gets to writing the record (goal 13) or to its id (goal 14). */
  lemma {:induction false} Writes(y: System, h: History, t: nat, goal: nat)
    returns (acts: seq<Action>, z: System, h': History)
    requires Inv(y, h) && t < |y.threads| && ClearFor(y, t) && goal in {13, 14} && 4 <= Rank(y.threads[t].pc) <= goal
    ensures Execution(y, acts, z) && Inv(z, h') && OnlyMoved(y, z, t) && ClearFor(z, t)
    ensures Rank(z.threads[t].pc) == goal
    decreases 14 - Rank(y.threads[t].pc)
  {
    hide Inv, Advance, Touch, ThreadStep, Enabled, ClearFor, CopiesStand, CheckStands;
    if Rank(y.threads[t].pc) == goal {
      acts, z, h' := [], y, h;
    } else {
      var h1 := StepsOn(y, h, t);
      GoesOn(y.db, y.threads[t]);
      var rest;
      rest, z, h' := Writes(ThreadStep(y, t), h1, t, goal);
      acts := [Run(t)] + rest;
      assert acts[1..] == rest;
    }
  }


  /** The only bid so far has begun. */
  lemma Begun(db: Store, bidder: nat, auction: nat, amount: int) returns (y: System, h: History)
    requires Sound(db) && Disputes.Reviewed(db) && BidAccepted(db, bidder, auction, amount)
    ensures Execution(Start(db), [Begin(bidder, auction, amount)], y) && Inv(y, h) && y.db == db
    ensures |y.threads| == 1 && y.threads[0].pc == AtPeek
    ensures Request(y.threads[0]) == PlaceBid(bidder, auction, amount)
    ensures ClearFor(y, 0) && OnItsWay(db, y.threads[0])
  {
    hide Inv, Sound, Disputes.Reviewed;
    var begin := Begin(bidder, auction, amount);
    StartInv(db);
    BeginKeepsInv(Start(db), Fresh(db), begin);
    y, h := Next(Start(db), begin), Started(Fresh(db));
    assert [begin][1..] == [];
    assert Execution(y, [], y);
  }
}
