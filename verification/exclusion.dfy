/** Semaphores and wallet locks: who holds what, freedom from deadlock, and progress. */
module Exclusion {
  import opened Records
  import opened Events
  import opened Sums
  import opened Protocol

  /** The thread is between taking a wallet bucket and giving it back. */
  predicate HasLock(th: Thread, b: nat) {
    || (5 <= Rank(th.pc) <= 7 && b == Bucket(th.rec.leader))
    || (9 <= Rank(th.pc) <= 12 && b == Bucket(th.bidder))
  }

  /** A bucket is taken exactly by the thread that has it. */
  ghost predicate LocksMatch(threads: seq<Thread>, locks: map<nat, nat>) {
    && (forall t, b :: 0 <= t < |threads| && HasLock(threads[t], b) ==> b in locks && locks[b] == t)
    && (forall b :: b in locks ==> locks[b] < |threads| && HasLock(threads[locks[b]], b))
  }

  /** A semaphore is taken exactly by the thread in its critical section. */
  ghost predicate SemsMatch(threads: seq<Thread>, sems: map<nat, nat>) {
    && (forall t :: 0 <= t < |threads| && InCritical(threads[t]) ==>
          Slot(threads[t].auction) in sems && sems[Slot(threads[t].auction)] == t)
    && (forall s :: s in sems ==>
          sems[s] < |threads| && InCritical(threads[sems[s]]) && Slot(threads[sems[s]].auction) == s)
  }

  /** Every critical section owns its semaphore, every wallet section its bucket, and nothing else is taken. */
  ghost predicate Exclusive(y: System) {
    SemsMatch(y.threads, y.sems) && LocksMatch(y.threads, y.locks)
  }

  /** Auctions share a semaphore exactly when their ids differ by a multiple of 1024, and users a wallet lock when
      theirs differ by a multiple of 64. */
  lemma SharedLocks(a: nat, b: nat)
    ensures Slot(a) == Slot(b) <==> (a - b) % 1024 == 0
    ensures Bucket(a) == Bucket(b) <==> (a - b) % 64 == 0
  {
    SameRest1024(a + 1023, b + 1023);
    SameRest64(a, b);
  }

  lemma SameRest1024(a: nat, b: nat)
    ensures a % 1024 == b % 1024 <==> (a - b) % 1024 == 0
  {
    var d, q := (a - b) / 1024, a / 1024 - b / 1024;
    assert a == 1024 * (a / 1024) + a % 1024 && b == 1024 * (b / 1024) + b % 1024;
    assert a - b == 1024 * d + (a - b) % 1024;
    assert a % 1024 - b % 1024 == 1024 * (d - q) + (a - b) % 1024;
  }

  lemma SameRest64(a: nat, b: nat)
    ensures a % 64 == b % 64 <==> (a - b) % 64 == 0
  {
    var d, q := (a - b) / 64, a / 64 - b / 64;
    assert a == 64 * (a / 64) + a % 64 && b == 64 * (b / 64) + b % 64;
    assert a - b == 64 * d + (a - b) % 64;
    assert a % 64 - b % 64 == 64 * (d - q) + (a - b) % 64;
  }

  /** Two threads are never both in the critical section of auctions that share a semaphore. */
  lemma OneInCritical(y: System, t: nat, u: nat)
    requires Exclusive(y) && t < |y.threads| && u < |y.threads|
    requires InCritical(y.threads[t]) && InCritical(y.threads[u])
    requires Slot(y.threads[t].auction) == Slot(y.threads[u].auction)
    ensures t == u
  {}

  lemma OneHasLock(y: System, t: nat, u: nat, b: nat)
    requires Exclusive(y) && t < |y.threads| && u < |y.threads|
    requires HasLock(y.threads[t], b) && HasLock(y.threads[u], b)
    ensures t == u
  {
    assert b in y.locks && y.locks[b] == t;
  }

  lemma ThreadKeepsExclusive(y: System, t: nat)
    requires Exclusive(y) && Enabled(y, t)
    ensures Exclusive(ThreadStep(y, t))
  {
    SemsFollow(y, t);
    LocksFollow(y, t);
  }

  lemma SemTaken(threads: seq<Thread>, sems: map<nat, nat>, t: nat, th: Thread)
    requires SemsMatch(threads, sems) && t < |threads| && Slot(th.auction) !in sems
    requires !InCritical(threads[t]) && InCritical(th)
    ensures SemsMatch(threads[t := th], sems[Slot(th.auction) := t])
  {}

  lemma SemPosted(threads: seq<Thread>, sems: map<nat, nat>, t: nat, th: Thread)
    requires SemsMatch(threads, sems) && t < |threads| && th.auction == threads[t].auction
    requires InCritical(threads[t]) && !InCritical(th)
    ensures SemsMatch(threads[t := th], sems - {Slot(th.auction)})
  {}

  lemma SemKept(threads: seq<Thread>, sems: map<nat, nat>, t: nat, th: Thread)
    requires SemsMatch(threads, sems) && t < |threads| && th.auction == threads[t].auction
    requires InCritical(th) <==> InCritical(threads[t])
    ensures SemsMatch(threads[t := th], sems)
  {}

  lemma SemsFollow(y: System, t: nat)
    requires SemsMatch(y.threads, y.sems) && Enabled(y, t)
    ensures SemsMatch(ThreadStep(y, t).threads, ThreadStep(y, t).sems)
  {
    hide SemsMatch, Slot, Advance, InCritical, Touch, Locks;
    var th := y.threads[t];
    var th' := Advance(y.db, th);
    CriticalFollows(y.db, th);
    if th.pc == AtWait {
      SemTaken(y.threads, y.sems, t, th');
    } else if th.pc == AtPost {
      SemPosted(y.threads, y.sems, t, th');
    } else {
      SemKept(y.threads, y.sems, t, th');
    }
  }

  /** A thread enters its critical section at sem_wait and leaves it at sem_post, on every path. */
  lemma CriticalFollows(db: Store, th: Thread)
    ensures Advance(db, th).auction == th.auction
    ensures InCritical(Advance(db, th)) <==> th.pc == AtWait || (InCritical(th) && th.pc != AtPost)
    ensures th.pc == AtWait ==> !InCritical(th)
    ensures th.pc == AtPost ==> InCritical(th)
  {}

  lemma LockTaken(threads: seq<Thread>, locks: map<nat, nat>, t: nat, th: Thread, b: nat)
    requires LocksMatch(threads, locks) && t < |threads| && b !in locks
    requires forall x :: !HasLock(threads[t], x)
    requires forall x :: HasLock(th, x) <==> x == b
    ensures LocksMatch(threads[t := th], locks[b := t])
  {}

  lemma LockReturned(threads: seq<Thread>, locks: map<nat, nat>, t: nat, th: Thread, b: nat)
    requires LocksMatch(threads, locks) && t < |threads|
    requires forall x :: HasLock(threads[t], x) <==> x == b
    requires forall x :: !HasLock(th, x)
    ensures LocksMatch(threads[t := th], locks - {b})
  {
    assert HasLock(threads[t], b);
    var after := threads[t := th];
    var free := locks - {b};
    forall u, x | 0 <= u < |after| && HasLock(after[u], x) ensures x in free && free[x] == u {
      assert u != t;
      assert HasLock(threads[u], x);
      assert x in locks && locks[x] == u;
      assert x != b;
    }
    forall x | x in free ensures free[x] < |after| && HasLock(after[free[x]], x) {
      assert locks[x] != t;
    }
  }

  lemma LockKept(threads: seq<Thread>, locks: map<nat, nat>, t: nat, th: Thread)
    requires LocksMatch(threads, locks) && t < |threads|
    requires forall x :: HasLock(threads[t], x) <==> HasLock(th, x)
    ensures LocksMatch(threads[t := th], locks)
  {}

  lemma LocksFollow(y: System, t: nat)
    requires LocksMatch(y.threads, y.locks) && Enabled(y, t)
    ensures LocksMatch(ThreadStep(y, t).threads, ThreadStep(y, t).locks)
  {
    hide LocksMatch, Bucket, Touch, Sems;
    var th := y.threads[t];
    var th' := Advance(y.db, th);
    match th.pc
    case AtRelLock => LockTaken(y.threads, y.locks, t, th', Bucket(th.rec.leader));
    case AtHoldLock => LockTaken(y.threads, y.locks, t, th', Bucket(th.bidder));
    case AtRelUnlock => LockReturned(y.threads, y.locks, t, th', Bucket(th.rec.leader));
    case AtHoldUnlock => LockReturned(y.threads, y.locks, t, th', Bucket(th.bidder));
    case _ => LockKept(y.threads, y.locks, t, th');
  }

  lemma NextKeepsExclusive(y: System, a: Action)
    requires Exclusive(y) && Allowed(y, a)
    ensures Exclusive(Next(y, a))
  {
    hide Step, ThreadStep;
    match a
    case Run(t) => ThreadKeepsExclusive(y, t);
    case Env(_) =>
    case Begin(_, _, _) =>
      var z := Next(y, a);
      forall t | 0 <= t < |z.threads| && InCritical(z.threads[t]) ensures t < |y.threads| {}
  }

  lemma {:induction false} ExecutionKeepsExclusive(y: System, acts: seq<Action>, z: System)
    requires Exclusive(y) && Execution(y, acts, z)
    ensures Exclusive(z)
    decreases |acts|
  {
    if acts != [] {
      NextKeepsExclusive(y, acts[0]);
      ExecutionKeepsExclusive(Next(y, acts[0]), acts[1..], z);
    }
  }

  // ---------- deadlock freedom ----------

  /** Locks are taken in one order: semaphore, then wallet bucket. So a bucket holder can always move;
      failing that, anyone in a critical section; failing that, anyone at all. */
  lemma SomeoneCanMove(y: System, t: nat) returns (u: nat)
    requires Exclusive(y) && t < |y.threads| && InFlight(y.threads[t])
    ensures Enabled(y, u)
  {
    if b :| b in y.locks {
      u := y.locks[b];
      assert HasLock(y.threads[u], b);
    } else if s :| s in y.sems {
      u := y.sems[s];
      assert InCritical(y.threads[u]);
    } else {
      u := t;
    }
  }

  /** No execution of the server reaches a deadlock. */
  lemma NeverDeadlocked(db: Store, acts: seq<Action>, z: System, t: nat)
    requires Execution(System(db, [], map[], map[]), acts, z) && t < |z.threads| && InFlight(z.threads[t])
    ensures exists u :: Enabled(z, u)
  {
    ExecutionKeepsExclusive(System(db, [], map[], map[]), acts, z);
    var u := SomeoneCanMove(z, t);
  }

  // ---------- progress ----------

  function StepsLeft(): Thread -> int {
    (th: Thread) => 17 - Rank(th.pc)
  }

  function Work(y: System): int {
    SumOf(y.threads, StepsLeft())
  }

  lemma WorkNonneg(y: System)
    ensures Work(y) >= 0
  {
    SumOfNonneg(y.threads, StepsLeft());
  }

  /** Every step of a thread uses up some of the work left. */
  lemma StepWorks(y: System, t: nat)
    requires Enabled(y, t)
    ensures Work(ThreadStep(y, t)) < Work(y)
  {
    SumOfUpdate(y.threads, t, Advance(y.db, y.threads[t]), StepsLeft());
  }

  predicate Quiescent(y: System) {
    forall t :: 0 <= t < |y.threads| ==> y.threads[t].pc == AtDone
  }

  /** An execution in which only bid threads move. */
  ghost predicate BidsOnly(acts: seq<Action>) {
    forall k :: 0 <= k < |acts| ==> acts[k].Run?
  }

  /** How often bid threads move, and how many bids begin. */
  function Moves(acts: seq<Action>): nat {
    if acts == [] then 0 else Moves(acts[1..]) + if acts[0].Run? then 1 else 0
  }

  function Begins(acts: seq<Action>): nat {
    if acts == [] then 0 else Begins(acts[1..]) + if acts[0].Begin? then 1 else 0
  }

  /** No scheduler can keep the bids busy: whatever else runs in between, they move at most as often as there
      is work left, plus seventeen times for each new bid... */
  lemma {:induction false} BidsTerminate(y: System, acts: seq<Action>, z: System)
    requires Execution(y, acts, z)
    ensures Moves(acts) + Work(z) <= Work(y) + 17 * Begins(acts)
    ensures Moves(acts) <= Work(y) + 17 * Begins(acts)
    decreases |acts|
  {
    hide Step, ThreadStep, EnvAllowed;
    WorkNonneg(z);
    if acts != [] {
      var a := acts[0];
      match a {
        case Run(t) => StepWorks(y, t);
        case Begin(_, _, _) => BeginWorks(y, a);
        case Env(_) =>
      }
      BidsTerminate(Next(y, a), acts[1..], z);
    }
  }

  lemma BeginWorks(y: System, a: Action)
    requires a.Begin?
    ensures Work(Next(y, a)) == Work(y) + 17
  {
    SumOfAppend(y.threads, Next(y, a).threads[|y.threads|], StepsLeft());
  }

  /** ...and from every state they can all be finished, with every semaphore posted and every lock free. */
  lemma {:induction false} BidsFinish(y: System) returns (acts: seq<Action>, z: System)
    requires Exclusive(y)
    ensures Execution(y, acts, z) && BidsOnly(acts) && Quiescent(z)
    ensures z.sems == map[] && z.locks == map[]
    decreases Work(y)
  {
    if t :| 0 <= t < |y.threads| && InFlight(y.threads[t]) {
      var u := SomeoneCanMove(y, t);
      StepWorks(y, u);
      WorkNonneg(ThreadStep(y, u));
      ThreadKeepsExclusive(y, u);
      var rest;
      rest, z := BidsFinish(ThreadStep(y, u));
      acts := [Run(u)] + rest;
      assert acts[1..] == rest;
    } else {
      acts, z := [], y;
      QuiescentIsFree(y);
    }
  }

  lemma QuiescentIsFree(y: System)
    requires Exclusive(y) && Quiescent(y)
    ensures y.sems == map[] && y.locks == map[]
  {
    assert y.sems.Keys == {};
    assert y.locks.Keys == {};
  }
}
