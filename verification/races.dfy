/** Exactly when a close is undone by a bid in its critical section. */
module Races {
  import opened Records
  import opened Events
  import opened Escrow
  import opened Protocol
  import opened Exclusion
  import opened Refinement
  import opened Environment
  import opened Linearization
  import opened Schedules
  import BidLog
  import Disputes

  // ---------- a close stays ----------

  lemma StoredId(y: System, h: History, i: nat)
    requires Inv(y, h) && i < |y.db.auctions|
    ensures y.db.auctions[i].id == i + 1
  {
    hide Step;
    assert AuctionMatches(y, Last(h).auctions, i);
    assert GoodAuction(Last(h), i);
    if Holder(y, i + 1).Some? {
      assert ThreadOk(y, h, Holder(y, i + 1).value);
    }
  }

  predicate ClosedIn(s: Store, auction: nat) {
    Exists(s.auctions, auction) && s.auctions[auction - 1].status != Open
  }

  lemma EventKeepsClosed(s: Store, e: Event, auction: nat)
    requires forall i :: 0 <= i < |s.auctions| ==> s.auctions[i].id == i + 1
    requires ClosedIn(s, auction) && !e.PlaceBid?
    ensures ClosedIn(Step(s, e).store, auction)
  {
    if Served(s, e) && !e.CreateAuction? {
      BidLog.StatusNeverReopens(s, e, auction);
    }
  }

  /** A thread writes a record only where its copy says it is open. */
  lemma WriteKeepsClosed(db: Store, th: Thread, auction: nat)
    requires CopiesStand(db, th) && ClosedIn(db, auction)
    ensures ClosedIn(Touch(db, th), auction)
  {
    hide WriteBack;
  }

  lemma RunKeepsClosed(y: System, h: History, t: nat, auction: nat)
    requires Inv(y, h) && t < |y.threads| && ClosedIn(y.db, auction)
    ensures ClosedIn(ThreadStep(y, t).db, auction)
  {
    hide Step, Sound, Disputes.Reviewed, Matches, Touch, Advance, Locks, Sems;
    assert ThreadOk(y, h, t);
    WriteKeepsClosed(y.db, y.threads[t], auction);
  }

  /** While closes wait for copies, nothing opens an auction again. */
  lemma {:induction false} ClosedStays(y: System, h: History, acts: seq<Action>, z: System, auction: nat)
    requires Inv(y, h) && Execution(y, acts, z) && ClosedIn(y.db, auction)
    ensures ClosedIn(z.db, auction)
    decreases |acts|
  {
    hide Step, Inv, ThreadStep, ClosedIn;
    if acts != [] {
      var a := acts[0];
      var h1 := ActionKeepsInv(y, h, a, Next(y, a));
      match a {
        case Run(t) => RunKeepsClosed(y, h, t, auction);
        case Env(e) =>
          forall i | 0 <= i < |y.db.auctions| ensures y.db.auctions[i].id == i + 1 { StoredId(y, h, i); }
          EventKeepsClosed(y.db, e, auction);
        case Begin(_, _, _) =>
      }
      ClosedStays(Next(y, a), h1, acts[1..], z, auction);
    }
  }

  // ---------- a close is undone ----------

  /** The thread is going to write its copy, which says OPEN. */
  predicate Poised(y: System, t: nat, auction: nat) {
    && t < |y.threads| && HoldsCopy(y.threads[t]) && y.threads[t].auction == auction
    && y.threads[t].rec.status == Open && Exists(y.db.auctions, auction)
  }

  lemma AuctionsStay(s: Store, e: Event)
    ensures |s.auctions| <= |Step(s, e).store.auctions|
  {}

  lemma RunPoised(y: System, u: nat, t: nat, auction: nat)
    requires Poised(y, t, auction) && Enabled(y, u)
    ensures Poised(ThreadStep(y, u), t, auction) || (u == t && OpenIn(ThreadStep(y, u).db, auction))
  {}

  /** Whatever else happens, the thread keeps its copy until it writes it, and then the auction is open. */
  lemma NextPoised(y: System, a: Action, t: nat, auction: nat)
    requires Poised(y, t, auction) && Allowed(y, a)
    ensures Poised(Next(y, a), t, auction) || (a == Run(t) && OpenIn(Next(y, a).db, auction))
  {
    hide Step, ThreadStep, EnvAllowed;
    match a {
      case Run(u) => RunPoised(y, u, t, auction);
      case Env(e) => AuctionsStay(y.db, e);
      case Begin(_, _, _) =>
    }
  }

  /** Action `k` of the execution is a step of thread `t` after which the auction is open. */
  ghost predicate OpensAt(y: System, acts: seq<Action>, k: nat, t: nat, auction: nat) {
    k < |acts| && acts[k] == Run(t) && OpenIn(After(y, acts, k + 1).db, auction)
  }

  lemma {:induction false} PoisedWrites(y: System, acts: seq<Action>, z: System, t: nat, auction: nat)
    requires Poised(y, t, auction) && Execution(y, acts, z)
    ensures Poised(z, t, auction) || exists k: nat :: OpensAt(y, acts, k, t, auction)
    decreases |acts|
  {
    hide Allowed, Next, Poised;
    if acts != [] {
      var y1 := Next(y, acts[0]);
      NextPoised(y, acts[0], t, auction);
      if Poised(y1, t, auction) {
        PoisedWrites(y1, acts[1..], z, t, auction);
        if !Poised(z, t, auction) {
          var k: nat :| OpensAt(y1, acts[1..], k, t, auction);
          assert After(y, acts, k + 2) == After(y1, acts[1..], k + 1);
          assert OpensAt(y, acts, k + 1, t, auction);
        }
      } else {
        assert After(y, acts, 1) == After(y1, acts[1..], 0) == y1;
        assert OpensAt(y, acts, 0, t, auction);
      }
    }
  }

  /** Some execution from here opens the auction again. */
  ghost predicate MayOpen(y: System, auction: nat) {
    exists acts, z :: Execution(y, acts, z) && OpenIn(z.db, auction)
  }

  lemma OpensSome(y: System, acts: seq<Action>, z: System, k: nat, t: nat, auction: nat)
    requires Execution(y, acts, z) && OpensAt(y, acts, k, t, auction)
    ensures MayOpen(y, auction)
  {
    hide Execution, After;
    CutShort(y, acts, z, k + 1);
  }

  /** The system right after an event, whether or not the model lets it run here. */
  function Happens(y: System, e: Event): System {
    y.(db := Step(y.db, e).store)
  }

  predicate CloseDue(y: System, e: Event) {
    (e.CloseAuction? || e.Expire?) && Closes(y.db, e)
  }

  lemma CloseShuts(y: System, h: History, e: Event)
    requires Inv(y, h) && CloseDue(y, e)
    ensures ClosedIn(Happens(y, e).db, e.auction)
    ensures |Happens(y, e).db.auctions| == |y.db.auctions|
  {
    hide Step;
    StoredId(y, h, e.auction - 1);
    CloseOutcome(y.db, e);
    Disputes.CloseTables(y.db, y.db.auctions[e.auction - 1]);
  }

  lemma CopyPoised(y: System, h: History, e: Event, t: nat)
    requires Inv(y, h) && CloseDue(y, e)
    requires t < |y.threads| && HoldsCopy(y.threads[t]) && y.threads[t].auction == e.auction
    ensures Exclusive(Happens(y, e)) && Poised(Happens(y, e), t, e.auction)
  {
    hide Step, Matches, Sound, Disputes.Reviewed;
    assert ThreadOk(y, h, t);
    CloseShuts(y, h, e);
  }

  /** In every reachable state, a close that respects the wallet locks can be undone exactly when some bid
      holds a copy of the auction's record: no other moment inside or outside the critical section matters. */
  lemma CloseUndoneIff(db: Store, acts: seq<Action>, y: System, e: Event)
    requires Sound(db) && Disputes.Reviewed(db) && Execution(Start(db), acts, y)
    requires CloseDue(y, e) && LocksRespected(y, e)
    ensures MayOpen(Happens(y, e), e.auction) <==> CopyOut(y, e.auction)
  {
    hide Step, Inv, Execution, LocksRespected, Closes, Sound, Disputes.Reviewed, MayOpen;
    var h := ReachableInv(db, acts, y);
    if CopyOut(y, e.auction) {
      var t :| 0 <= t < |y.threads| && HoldsCopy(y.threads[t]) && y.threads[t].auction == e.auction;
      CopyPoised(y, h, e, t);
      CopyWins(Happens(y, e), t, e.auction);
    } else {
      CloseShuts(y, h, e);
      var h1 := NextKeepsInv(y, h, Env(e));
      NothingOpens(Happens(y, e), h1, e.auction);
    }
  }

  /** All bids can finish, so the one that holds the copy can write it. */
  lemma CopyWins(y: System, t: nat, auction: nat)
    requires Exclusive(y) && Poised(y, t, auction)
    ensures MayOpen(y, auction)
  {
    hide Execution;
    var more, z := BidsFinish(y);
    PoisedWrites(y, more, z, t, auction);
    assert !Poised(z, t, auction);
    var k: nat :| OpensAt(y, more, k, t, auction);
    OpensSome(y, more, z, k, t, auction);
  }

  lemma NothingOpens(y: System, h: History, auction: nat)
    requires Inv(y, h) && ClosedIn(y.db, auction)
    ensures !MayOpen(y, auction)
  {
    hide Inv, Execution;
    if MayOpen(y, auction) {
      var acts, z :| Execution(y, acts, z) && OpenIn(z.db, auction);
      ClosedStays(y, h, acts, z, auction);
    }
  }

  /** And then it is undone in every continuation in which that bid gets to write: as long as it has not,
      it still holds its copy. */
  lemma CloseWithCopyOutIsUndone(db: Store, acts: seq<Action>, y: System, e: Event, t: nat,
                                 more: seq<Action>, z: System)
    requires Sound(db) && Disputes.Reviewed(db) && Execution(Start(db), acts, y)
    requires CloseDue(y, e) && t < |y.threads| && HoldsCopy(y.threads[t]) && y.threads[t].auction == e.auction
    requires Execution(Happens(y, e), more, z)
    ensures (t < |z.threads| && HoldsCopy(z.threads[t])) || exists k: nat :: OpensAt(Happens(y, e), more, k, t, e.auction)
  {
    hide Step, Inv, Execution, Sound, Disputes.Reviewed, Closes;
    var h := ReachableInv(db, acts, y);
    CopyPoised(y, h, e, t);
    PoisedWrites(Happens(y, e), more, z, t, e.auction);
  }

  /** Every acceptable bid has an execution in which it holds its copy and is about to write it, and there
      a close is undone by its very next step. */
  lemma CloseInCriticalSectionReopens(db: Store, bidder: nat, auction: nat, amount: int)
    returns (acts: seq<Action>, z: System)
    requires Sound(db) && Disputes.Reviewed(db) && BidAccepted(db, bidder, auction, amount)
    ensures Execution(Start(db), acts, z) && |z.threads| == 1
    ensures HoldsCopy(z.threads[0]) && z.threads[0].auction == auction && Exists(z.db.auctions, auction)
    ensures ClosedIn(Happens(z, Expire(auction)).db, auction) && Enabled(Happens(z, Expire(auction)), 0)
    ensures OpenIn(ThreadStep(Happens(z, Expire(auction)), 0).db, auction)
  {
    hide Step, Inv, Execution, ClearFor, OnItsWay, Sound, Disputes.Reviewed, Advance, Touch;
    var y, h := Begun(db, bidder, auction, amount);
    var looks, m, hm := Looks(y, h, 0, 4);
    var writes, hz;
    writes, z, hz := Writes(m, hm, 0, 13);
    Chain(Start(db), [Begin(bidder, auction, amount)], y, looks, m);
    acts := [Begin(bidder, auction, amount)] + looks + writes;
    Chain(Start(db), [Begin(bidder, auction, amount)] + looks, m, writes, z);
    assert z.threads[0].pc == AtWrite;
    WriteReopens(z, hz, 0);
  }

  lemma WritesOpen(db: Store, th: Thread)
    requires th.pc == AtWrite && Exists(db.auctions, th.auction) && th.rec.status == Open
    ensures OpenIn(Touch(db, th), th.auction)
  {}

  lemma WriteReopens(y: System, h: History, t: nat)
    requires Inv(y, h) && t < |y.threads| && y.threads[t].pc == AtWrite
    ensures var i := y.threads[t].auction;
      var closed := Happens(y, Expire(i));
      && Exists(y.db.auctions, i) && ClosedIn(closed.db, i) && Enabled(closed, t)
      && OpenIn(ThreadStep(closed, t).db, i)
  {
    hide Step, Touch, Advance, Matches, Sound, Disputes.Reviewed, Exclusive;
    assert ThreadOk(y, h, t);
    CloseShuts(y, h, Expire(y.threads[t].auction));
    WritesOpen(Happens(y, Expire(y.threads[t].auction)).db, y.threads[t]);
  }
}
