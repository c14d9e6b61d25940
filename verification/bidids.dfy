/** Exactly when a bid's id is its position in the log. */
module BidIds {
  import opened Records
  import opened Events
  import opened Escrow
  import opened Protocol
  import opened Refinement
  import opened Environment
  import opened Linearization
  import opened Schedules
  import BidLog
  import Crash
  import Disputes

  /** This action appends to the bid log. */
  predicate Appends(y: System, a: Action) {
    a.Run? && a.t < |y.threads| && y.threads[a.t].pc == AtAppend
  }

  lemma EventKeepsCount(s: Store, e: Event)
    requires !e.PlaceBid?
    ensures |Step(s, e).store.bids| == |s.bids|
  {
    if (e.CloseAuction? || e.Expire?) && Exists(s.auctions, e.auction) {
      var a := s.auctions[e.auction - 1];
      Disputes.CloseTables(s, a);
      Crash.MarkLength(s.bids, a.id, a.leader);
    }
  }

  lemma NextCounts(y: System, a: Action)
    requires Allowed(y, a)
    ensures |Next(y, a).db.bids| == |y.db.bids| + if Appends(y, a) then 1 else 0
  {
    hide Step;
    if a.Env? { EventKeepsCount(y.db, a.e); }
  }

  ghost predicate NothingAppended(y: System, acts: seq<Action>) {
    forall k :: 0 <= k < |acts| ==> !Appends(After(y, acts, k), acts[k])
  }

  lemma {:induction false} CountsAppends(y: System, acts: seq<Action>, z: System)
    requires Execution(y, acts, z)
    ensures |y.db.bids| <= |z.db.bids|
    ensures |z.db.bids| == |y.db.bids| <==> NothingAppended(y, acts)
    decreases |acts|
  {
    hide Allowed, Next, Appends;
    if acts != [] {
      var y1 := Next(y, acts[0]);
      NextCounts(y, acts[0]);
      CountsAppends(y1, acts[1..], z);
      NothingAppendedTail(y, acts);
    }
  }

  lemma NothingAppendedTail(y: System, acts: seq<Action>)
    requires acts != []
    ensures NothingAppended(y, acts) <==> !Appends(y, acts[0]) && NothingAppended(Next(y, acts[0]), acts[1..])
  {
    hide Appends, Next;
    var y1 := Next(y, acts[0]);
    assert After(y, acts, 0) == y;
    forall k | 0 <= k < |acts| - 1 ensures After(y, acts, k + 1) == After(y1, acts[1..], k) && acts[k + 1] == acts[1..][k] {}
    if NothingAppended(y, acts) {
      forall k | 0 <= k < |acts[1..]| ensures !Appends(After(y1, acts[1..], k), acts[1..][k]) {
        assert !Appends(After(y, acts, k + 1), acts[k + 1]);
      }
    } else {
      var k :| 0 <= k < |acts| && Appends(After(y, acts, k), acts[k]);
      if k > 0 { assert Appends(After(y1, acts[1..], k - 1), acts[1..][k - 1]); }
    }
  }

  lemma {:induction false} StandsStill(y: System, acts: seq<Action>, z: System, t: nat)
    requires Execution(y, acts, z) && t < |y.threads| && forall k :: 0 <= k < |acts| ==> acts[k] != Run(t)
    ensures t < |z.threads| && z.threads[t] == y.threads[t]
    decreases |acts|
  {
    hide Step, Advance, Touch;
    if acts != [] {
      assert acts[0] != Run(t);
      StandsStill(Next(y, acts[0]), acts[1..], z, t);
    }
  }

  /** A thread takes its id, any execution without a step of its own follows, and it appends: the id is the
      bid's position in the log exactly when nothing was appended in between. */
  lemma BidIdIsPositionIff(y: System, t: nat, more: seq<Action>, z: System)
    requires t < |y.threads| && y.threads[t].pc == AtNextId
    requires Execution(ThreadStep(y, t), more, z) && forall k :: 0 <= k < |more| ==> more[k] != Run(t)
    ensures t < |z.threads| && Appends(z, Run(t))
    ensures var bids := ThreadStep(z, t).db.bids;
      && |bids| == |z.db.bids| + 1
      && (bids[|bids| - 1].id == |bids| <==> NothingAppended(ThreadStep(y, t), more))
  {
    hide Execution, NothingAppended;
    StandsStill(ThreadStep(y, t), more, z, t);
    CountsAppends(ThreadStep(y, t), more, z);
  }

  /** Any two acceptable bids of different users on auctions with different semaphores have an execution in
      which they get the same id. */
  lemma BidIdsMayRepeat(db: Store, one: Event, two: Event) returns (acts: seq<Action>, z: System)
    requires Sound(db) && Disputes.Reviewed(db) && one.PlaceBid? && two.PlaceBid?
    requires BidAccepted(db, one.bidder, one.auction, one.amount)
    requires BidAccepted(db, two.bidder, two.auction, two.amount)
    requires one.bidder != two.bidder && Slot(one.auction) != Slot(two.auction)
    ensures Execution(Start(db), acts, z) && |z.threads| == 2
    ensures Request(z.threads[0]) == one && Request(z.threads[1]) == two
    ensures var n := |z.db.bids| - 2;
      && n >= 0 && z.db.bids[n].id == z.db.bids[n + 1].id
      && z.db.bids[n].bidder == one.bidder && z.db.bids[n + 1].bidder == two.bidder
  {
    hide Step, Inv, Execution, ClearFor, OnItsWay, Sound, Disputes.Reviewed, Advance, Touch;
    var y, h := BothBegun(db, one, two);
    var begins := [Begin(one.bidder, one.auction, one.amount), Begin(two.bidder, two.auction, two.amount)];
    var l0, y1, h1 := Looks(y, h, 0, 4);
    OtherClear(y1, 0);
    Chain(Start(db), begins, y, l0, y1);
    var l1, y2, h2 := Looks(y1, h1, 1, 4);
    OtherClear(y2, 1);
    Chain(Start(db), begins + l0, y1, l1, y2);
    var w0, y3, h3 := Writes(y2, h2, 0, 14);
    OtherClear(y3, 0);
    Chain(Start(db), begins + l0 + l1, y2, w0, y3);
    var w1, y4, h4 := Writes(y3, h3, 1, 14);
    Chain(Start(db), begins + l0 + l1 + w0, y3, w1, y4);
    var last;
    last, z := SameIds(y4);
    acts := begins + l0 + l1 + w0 + w1 + last;
    Chain(Start(db), begins + l0 + l1 + w0 + w1, y4, last, z);
  }

  /** Two bids side by side, each out of the other's way. */
  lemma BothBegun(db: Store, one: Event, two: Event) returns (y: System, h: History)
    requires Sound(db) && Disputes.Reviewed(db) && one.PlaceBid? && two.PlaceBid?
    requires BidAccepted(db, one.bidder, one.auction, one.amount)
    requires BidAccepted(db, two.bidder, two.auction, two.amount)
    requires one.bidder != two.bidder && Slot(one.auction) != Slot(two.auction)
    ensures Execution(Start(db), [Begin(one.bidder, one.auction, one.amount),
                                  Begin(two.bidder, two.auction, two.amount)], y)
    ensures Inv(y, h) && y.db == db && |y.threads| == 2
    ensures y.threads[0].pc == AtPeek && y.threads[1].pc == AtPeek
    ensures Request(y.threads[0]) == one && Request(y.threads[1]) == two
    ensures ClearFor(y, 0) && OnItsWay(db, y.threads[0]) && OnItsWay(db, y.threads[1])
  {
    hide Inv, Sound, Disputes.Reviewed, Execution;
    var begin := Begin(two.bidder, two.auction, two.amount);
    var y1, h1 := Begun(db, one.bidder, one.auction, one.amount);
    BeginKeepsInv(y1, h1, begin);
    OneMore(Start(db), [Begin(one.bidder, one.auction, one.amount)], y1, begin);
    assert [Begin(one.bidder, one.auction, one.amount)] + [begin]
        == [Begin(one.bidder, one.auction, one.amount), begin];
    y, h := Next(y1, begin), Started(h1);
  }

  /** A thread before a wallet section or past its write is out of the other's way. */
  lemma OtherClear(y: System, t: nat)
    requires |y.threads| == 2 && t < 2 && Slot(y.threads[0].auction) != Slot(y.threads[1].auction)
    requires y.threads[t].pc in {AtRelLock, AtHoldLock, AtNextId}
    ensures ClearFor(y, 1 - t)
  {}

  lemma SameIds(y: System) returns (acts: seq<Action>, z: System)
    requires |y.threads| == 2 && y.threads[0].pc == AtNextId && y.threads[1].pc == AtNextId
    ensures Execution(y, acts, z) && |z.threads| == 2
    ensures Request(z.threads[0]) == Request(y.threads[0]) && Request(z.threads[1]) == Request(y.threads[1])
    ensures var n := |y.db.bids|;
      && |z.db.bids| == n + 2 && z.db.bids[n].id == n + 1 == z.db.bids[n + 1].id
      && z.db.bids[n].bidder == y.threads[0].bidder && z.db.bids[n + 1].bidder == y.threads[1].bidder
  {
    hide Execution;
    var y1 := ThreadStep(y, 0);
    var y2 := ThreadStep(y1, 1);
    var y3 := ThreadStep(y2, 0);
    assert y1.threads[0].pc == AtAppend && y2.threads[1].pc == AtAppend && y3.threads[1].pc == AtAppend;
    Nowhere(y);
    OneMore(y, [], y, Run(0));
    OneMore(y, [] + [Run(0)], y1, Run(1));
    OneMore(y, [] + [Run(0)] + [Run(1)], y2, Run(0));
    OneMore(y, [] + [Run(0)] + [Run(1)] + [Run(0)], y3, Run(1));
    acts, z := [] + [Run(0)] + [Run(1)] + [Run(0)] + [Run(1)], ThreadStep(y3, 1);
  }

  lemma Nowhere(y: System)
    ensures Execution(y, [], y)
  {}
}
