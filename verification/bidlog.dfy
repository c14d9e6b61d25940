/** The auction record is a summary of the bid log, and is frozen once the auction leaves OPEN. */
module BidLog {
  import opened Records
  import opened Wallets
  import opened Events
  import opened Escrow
  import Disputes

  /** The logged bids on one auction, oldest first. */
  function BidsOn(bids: seq<Bid>, auction: nat): seq<Bid> {
    if bids == [] then []
    else
      var earlier := BidsOn(bids[..|bids| - 1], auction);
      if bids[|bids| - 1].auction == auction then earlier + [bids[|bids| - 1]] else earlier
  }

  /** What bid number `k` had to beat. */
  function ToBeat(bids: seq<Bid>, startPrice: int, k: nat): int
    requires k <= |bids|
  {
    if k == 0 then startPrice else bids[k - 1].amount
  }

  /** Amounts strictly increase from above the start price. */
  predicate Climbs(bids: seq<Bid>, startPrice: int) {
    forall k :: 0 <= k < |bids| ==> bids[k].amount > ToBeat(bids, startPrice, k)
  }

  predicate Summarizes(a: Auction, bids: seq<Bid>) {
    && a.bidCount == |bids|
    && Climbs(bids, a.startPrice)
    && (if bids == [] then a.currentBid == a.startPrice && a.leader == 0
        else a.currentBid == bids[|bids| - 1].amount && a.leader == bids[|bids| - 1].bidder != 0)
  }

  predicate Recorded(s: Store, i: nat)
    requires i < |s.auctions|
  {
    s.auctions[i].id == i + 1 && Summarizes(s.auctions[i], BidsOn(s.bids, i + 1))
  }

  /** `is_winning` is set on every bid when it is placed. */
  ghost predicate Logged(s: Store) {
    && (forall i :: 0 <= i < |s.auctions| ==> Recorded(s, i))
    && (forall k :: 0 <= k < |s.bids| ==>
          s.bids[k].id == k + 1 && s.bids[k].isWinning && Exists(s.auctions, s.bids[k].auction))
  }

  lemma BidsOnAppend(bids: seq<Bid>, b: Bid, auction: nat)
    ensures BidsOn(bids + [b], auction) == BidsOn(bids, auction) + if b.auction == auction then [b] else []
  {
    assert (bids + [b])[..|bids|] == bids;
  }

  lemma {:induction false} NoBidsOn(bids: seq<Bid>, auction: nat)
    requires forall k :: 0 <= k < |bids| ==> bids[k].auction != auction
    ensures BidsOn(bids, auction) == []
  {
    if bids != [] {
      NoBidsOn(bids[..|bids| - 1], auction);
    }
  }

  /** As every bid is already marked, the rewrite at settlement changes nothing: the flag does not
      single out the winner. */
  lemma {:induction false} MarkingIsIdle(bids: seq<Bid>, auction: nat, winner: nat)
    requires forall k :: 0 <= k < |bids| ==> bids[k].isWinning
    ensures MarkWinning(bids, auction, winner) == bids
  {
    if bids != [] {
      MarkingIsIdle(bids[..|bids| - 1], auction, winner);
    }
  }

  lemma LoggedFrame(s: Store, t: Store)
    requires Logged(s) && t.bids == s.bids && |t.auctions| == |s.auctions|
    requires forall i :: 0 <= i < |s.auctions| ==>
      t.auctions[i].(status := s.auctions[i].status) == s.auctions[i]
    ensures Logged(t)
  {
    forall i | 0 <= i < |t.auctions| ensures Recorded(t, i) {
      assert Recorded(s, i);
    }
  }

  lemma HigherBidSummarized(a: Auction, bids: seq<Bid>, b: Bid)
    requires Summarizes(a, bids) && b.amount > a.currentBid && b.bidder != 0
    ensures Summarizes(Raised(a, b.bidder, b.amount), bids + [b])
  {
    var more := bids + [b];
    forall k | 0 <= k < |more| ensures more[k].amount > ToBeat(more, a.startPrice, k) {
      assert ToBeat(more, a.startPrice, k) == ToBeat(bids, a.startPrice, k);
      if k < |bids| {
        assert more[k] == bids[k];
      } else {
        assert ToBeat(bids, a.startPrice, k) == a.currentBid;
      }
    }
  }

  lemma BidKeepsLogged(s: Store, bidder: nat, auction: nat, amount: int)
    requires Logged(s) && BidAccepted(s, bidder, auction, amount)
    ensures Logged(DoBid(s, bidder, auction, amount).store)
  {
    var t := DoBid(s, bidder, auction, amount).store;
    var a := s.auctions[auction - 1];
    var b := Bid(|s.bids| + 1, auction, bidder, amount, true);
    assert t.bids == s.bids + [b];
    assert t.auctions == s.auctions[auction - 1 := Raised(a, bidder, amount)];
    forall i | 0 <= i < |t.auctions| ensures Recorded(t, i) {
      assert Recorded(s, i);
      BidsOnAppend(s.bids, b, i + 1);
      if i + 1 == auction {
        HigherBidSummarized(a, BidsOn(s.bids, auction), b);
      }
    }
  }

  lemma CreateKeepsLogged(s: Store, a: Auction)
    requires Logged(s) && a.id == |s.auctions| + 1
    requires a.bidCount == 0 && a.leader == 0 && a.currentBid == a.startPrice
    ensures Logged(s.(auctions := s.auctions + [a]))
  {
    var t := s.(auctions := s.auctions + [a]);
    forall i | 0 <= i < |t.auctions| ensures Recorded(t, i) {
      if i < |s.auctions| {
        assert Recorded(s, i);
      } else {
        NoBidsOn(s.bids, i + 1);
      }
    }
  }

  /** The bids are as they were, and every auction record too, up to its status. */
  predicate SameUpToStatus(s: Store, t: Store) {
    && t.bids == s.bids && |t.auctions| == |s.auctions|
    && forall i :: 0 <= i < |s.auctions| ==> t.auctions[i].(status := s.auctions[i].status) == s.auctions[i]
  }

  lemma CloseShape(s: Store, auction: nat)
    requires Logged(s) && Exists(s.auctions, auction)
    ensures SameUpToStatus(s, CloseInternal(s, s.auctions[auction - 1]))
  {
    var a := s.auctions[auction - 1];
    Disputes.CloseTables(s, a);
    assert a.id == auction by {
      assert Recorded(s, auction - 1);
    }
    MarkingIsIdle(s.bids, a.id, a.leader);
  }

  lemma ResolveKeepsRecords(s: Store, e: Event)
    requires e.ResolveDispute?
    ensures SameUpToStatus(s, Handle(s, e).store)
  {
    if Disputes.Decides(s, e.dispute, e.verdict) {
      var d := s.disputes[e.dispute - 1];
      var s1 := s.(disputes := s.disputes[e.dispute - 1 := d.(status := e.verdict, resolvedBy := e.moderator)]);
      if Exists(s.auctions, d.auction) {
      }
    }
  }

  lemma CloseKeepsRecords(s: Store, e: Event)
    requires Logged(s) && (e.CloseAuction? || e.Expire?)
    ensures SameUpToStatus(s, Handle(s, e).store)
  {
    hide Logged, CloseInternal;
    if Exists(s.auctions, e.auction) {
      CloseShape(s, e.auction);
    }
  }

  lemma RecordEventsKeep(s: Store, e: Event)
    requires e.AddUser? || e.ChangeRole? || e.ToggleAccount? || e.DeleteUser? || e.Deposit? || e.FileDispute?
    ensures SameUpToStatus(s, Handle(s, e).store)
  {
    hide ApplyDelta, AdminCount, Taken;
  }

  lemma RelabelShape(s: Store, e: Event)
    requires Logged(s) && !e.PlaceBid? && !e.CreateAuction?
    ensures SameUpToStatus(s, Handle(s, e).store)
  {
    hide Logged, Handle, SameUpToStatus;
    if e.CloseAuction? || e.Expire? {
      CloseKeepsRecords(s, e);
    } else if e.ResolveDispute? {
      ResolveKeepsRecords(s, e);
    } else {
      RecordEventsKeep(s, e);
    }
  }

  lemma StepKeepsLogged(s: Store, e: Event)
    requires Logged(s)
    ensures Logged(Step(s, e).store)
  {
    if Served(s, e) {
      var t := Handle(s, e).store;
      if e.PlaceBid? {
        if BidAccepted(s, e.bidder, e.auction, e.amount) {
          BidKeepsLogged(s, e.bidder, e.auction, e.amount);
        }
      } else if e.CreateAuction? {
        if t != s {
          CreateKeepsLogged(s, t.auctions[|s.auctions|]);
          LoggedFrame(s.(auctions := t.auctions), t);
        }
      } else {
        RelabelShape(s, e);
        LoggedFrame(s, t);
      }
    }
  }

  lemma {:induction false} RunKeepsLogged(s: Store, es: seq<Event>)
    requires Logged(s)
    ensures Logged(Exec(s, es))
  {
    if es != [] {
      RunKeepsLogged(s, es[..|es| - 1]);
      StepKeepsLogged(Exec(s, es[..|es| - 1]), es[|es| - 1]);
    }
  }

  /** In every reachable store each auction record is the fold of its logged bids. */
  lemma RecordFoldsLog(es: seq<Event>, auction: nat)
    requires Exists(Exec(SEED, es).auctions, auction)
    ensures var t := Exec(SEED, es); Summarizes(t.auctions[auction - 1], BidsOn(t.bids, auction))
  {
    RunKeepsLogged(SEED, es);
    assert Recorded(Exec(SEED, es), auction - 1);
  }

  // ---------- the record freezes when the auction leaves OPEN ----------

  /** Same record up to the status, which is not OPEN, and the same logged bids. */
  ghost predicate Frozen(s: Store, t: Store, auction: nat) {
    && Exists(s.auctions, auction) && Exists(t.auctions, auction)
    && t.auctions[auction - 1].status != Open
    && t.auctions[auction - 1].(status := s.auctions[auction - 1].status) == s.auctions[auction - 1]
    && BidsOn(t.bids, auction) == BidsOn(s.bids, auction)
  }

  lemma StepFrozen(s: Store, e: Event, auction: nat)
    requires Logged(s) && Disputes.Reviewed(s)
    requires Exists(s.auctions, auction) && s.auctions[auction - 1].status != Open
    ensures Frozen(s, Step(s, e).store, auction)
  {
    if Served(s, e) {
      if e.PlaceBid? {
        if BidAccepted(s, e.bidder, e.auction, e.amount) {
          var b := Bid(|s.bids| + 1, e.auction, e.bidder, e.amount, true);
          assert Handle(s, e).store.bids == s.bids + [b];
          BidsOnAppend(s.bids, b, auction);
        }
      } else if !e.CreateAuction? {
        RelabelShape(s, e);
        forall i | 0 <= i < |s.auctions| ensures s.auctions[i].id == i + 1 { assert Recorded(s, i); }
        StatusNeverReopens(s, e, auction);
      }
    }
  }

  lemma StatusNeverReopens(s: Store, e: Event, auction: nat)
    requires forall i :: 0 <= i < |s.auctions| ==> s.auctions[i].id == i + 1
    requires Exists(s.auctions, auction) && s.auctions[auction - 1].status != Open
    requires !e.PlaceBid? && !e.CreateAuction?
    ensures Exists(Handle(s, e).store.auctions, auction)
    ensures Handle(s, e).store.auctions[auction - 1].status != Open
  {
    if (e.CloseAuction? || e.Expire?) && Exists(s.auctions, e.auction) {
      assert s.auctions[e.auction - 1].id == e.auction;
    }
  }

  lemma {:induction false} RunFrozen(s: Store, es: seq<Event>, auction: nat)
    requires Logged(s) && Disputes.Reviewed(s)
    requires Exists(s.auctions, auction) && s.auctions[auction - 1].status != Open
    ensures Frozen(s, Exec(s, es), auction)
  {
    if es != [] {
      var init := es[..|es| - 1];
      RunFrozen(s, init, auction);
      RunKeepsLogged(s, init);
      Disputes.RunKeepsReviewed(s, init);
      StepFrozen(Exec(s, init), es[|es| - 1], auction);
    }
  }
}
