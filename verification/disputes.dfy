/** The dispute state machine: an auction is DISPUTED exactly while one dispute about it is
    open or resolved, and no auction is ever refunded twice. */
module Disputes {
  import opened Records
  import opened Sums
  import opened Wallets
  import opened Events

  function Live(d: Dispute, auction: nat): int {
    if d.auction == auction && d.status != DisputeRejected then 1 else 0
  }

  function LiveOf(auction: nat): Dispute -> int {
    (d: Dispute) => Live(d, auction)
  }

  function ResolvedOf(auction: nat): Dispute -> int {
    (d: Dispute) => if d.auction == auction && d.status == DisputeResolved then 1 else 0
  }

  function RefundOf(auction: nat): Entry -> int {
    (e: Entry) => if e.WalRefund? && e.auction == auction then 1 else 0
  }

  /** How many write-ahead refund entries name this auction. */
  function Refunds(s: Store, auction: nat): int {
    SumOf(s.log, RefundOf(auction))
  }

  predicate GoodDispute(s: Store, i: nat)
    requires i < |s.disputes|
  {
    s.disputes[i].id == i + 1 && Exists(s.auctions, s.disputes[i].auction)
  }

  predicate Balanced(s: Store, i: nat)
    requires i < |s.auctions|
  {
    && s.auctions[i].id == i + 1
    && SumOf(s.disputes, LiveOf(i + 1)) == (if s.auctions[i].status == Disputed then 1 else 0)
    && Refunds(s, i + 1) == SumOf(s.disputes, ResolvedOf(i + 1))
  }

  ghost predicate Reviewed(s: Store) {
    && (forall i :: 0 <= i < |s.disputes| ==> GoodDispute(s, i))
    && (forall i :: 0 <= i < |s.auctions| ==> Balanced(s, i))
    && (forall k :: 0 <= k < |s.log| && s.log[k].WalRefund? ==> Exists(s.auctions, s.log[k].auction))
  }

  // ---------- consequences of the invariant ----------

  /** At most one dispute about an auction is open or resolved. */
  lemma OneLiveDispute(s: Store, i: nat, j: nat)
    requires Reviewed(s) && i < j < |s.disputes|
    requires s.disputes[i].auction == s.disputes[j].auction
    ensures s.disputes[i].status == DisputeRejected || s.disputes[j].status == DisputeRejected
  {
    var a := s.disputes[i].auction;
    assert GoodDispute(s, i);
    assert Balanced(s, a - 1);
    SumOfCoversTwo(s.disputes, i, j, LiveOf(a));
  }

  /** A dispute that was not rejected keeps its auction DISPUTED. */
  lemma LiveMeansDisputed(s: Store, i: nat)
    requires Reviewed(s) && i < |s.disputes| && s.disputes[i].status != DisputeRejected
    ensures Exists(s.auctions, s.disputes[i].auction)
    ensures s.auctions[s.disputes[i].auction - 1].status == Disputed
  {
    var a := s.disputes[i].auction;
    assert GoodDispute(s, i);
    assert Balanced(s, a - 1);
    SumOfCovers(s.disputes, i, LiveOf(a));
  }

  /** Every term of one sum is below the matching term of the other. */
  lemma {:induction false} SumOfBelow(xs: seq<Dispute>, f: Dispute -> int, g: Dispute -> int)
    requires forall i :: 0 <= i < |xs| ==> f(xs[i]) <= g(xs[i])
    ensures SumOf(xs, f) <= SumOf(xs, g)
  {
    if xs != [] {
      SumOfBelow(xs[..|xs| - 1], f, g);
    }
  }

  lemma AtMostOneRefund(s: Store, auction: nat)
    requires Reviewed(s)
    ensures 0 <= Refunds(s, auction) <= 1
    ensures Refunds(s, auction) == 1 ==>
      Exists(s.auctions, auction) && s.auctions[auction - 1].status == Disputed
  {
    SumOfNonneg(s.log, RefundOf(auction));
    if Exists(s.auctions, auction) {
      assert Balanced(s, auction - 1);
      SumOfBelow(s.disputes, ResolvedOf(auction), LiveOf(auction));
    } else {
      forall k | 0 <= k < |s.log| ensures RefundOf(auction)(s.log[k]) == 0 {
        if s.log[k].WalRefund? { assert Exists(s.auctions, s.log[k].auction); }
      }
      SumOfZero(s.log, RefundOf(auction));
    }
  }

  // ---------- preservation ----------

  /** Log entries that are not refunds do not change the refund counts. */
  ghost predicate ExtendsLog(s: Store, t: Store) {
    && s.log <= t.log
    && forall k :: |s.log| <= k < |t.log| ==> !t.log[k].WalRefund?
  }

  lemma {:induction false} RefundsUnchanged(log: seq<Entry>, more: seq<Entry>, auction: nat)
    requires forall k :: 0 <= k < |more| ==> !more[k].WalRefund?
    ensures SumOf(log + more, RefundOf(auction)) == SumOf(log, RefundOf(auction))
  {
    if more == [] {
      assert log + more == log;
    } else {
      var n := |more| - 1;
      assert log + more == log + more[..n] + [more[n]];
      SumOfAppend(log + more[..n], more[n], RefundOf(auction));
      RefundsUnchanged(log, more[..n], auction);
    }
  }

  lemma RefundsFrame(s: Store, t: Store, auction: nat)
    requires ExtendsLog(s, t)
    ensures Refunds(t, auction) == Refunds(s, auction)
  {
    assert t.log == s.log + t.log[|s.log|..];
    RefundsUnchanged(s.log, t.log[|s.log|..], auction);
  }

  /** No refund logged and the disputes untouched: only DISPUTED marks matter. */
  lemma ReviewedFrame(s: Store, t: Store)
    requires Reviewed(s) && t.disputes == s.disputes && ExtendsLog(s, t)
    requires |s.auctions| <= |t.auctions|
    requires forall i :: 0 <= i < |t.auctions| ==> t.auctions[i].id == i + 1
    requires forall i :: 0 <= i < |s.auctions| ==>
      (t.auctions[i].status == Disputed <==> s.auctions[i].status == Disputed)
    requires forall i :: |s.auctions| <= i < |t.auctions| ==> t.auctions[i].status != Disputed
    ensures Reviewed(t)
  {
    forall i | 0 <= i < |t.disputes| ensures GoodDispute(t, i) {
      assert GoodDispute(s, i);
    }
    forall i | 0 <= i < |t.auctions| ensures Balanced(t, i) {
      RefundsFrame(s, t, i + 1);
      if i < |s.auctions| {
        assert Balanced(s, i);
      } else {
        NewAuctionUndisputed(s, i + 1);
      }
    }
    forall k | 0 <= k < |t.log| && t.log[k].WalRefund? ensures Exists(t.auctions, t.log[k].auction) {
      if k < |s.log| { assert t.log[k] == s.log[k]; }
    }
  }

  lemma NewAuctionUndisputed(s: Store, auction: nat)
    requires Reviewed(s) && auction > |s.auctions|
    ensures SumOf(s.disputes, LiveOf(auction)) == 0
    ensures SumOf(s.disputes, ResolvedOf(auction)) == 0
    ensures Refunds(s, auction) == 0
  {
    forall i | 0 <= i < |s.disputes|
      ensures LiveOf(auction)(s.disputes[i]) == 0 && ResolvedOf(auction)(s.disputes[i]) == 0
    {
      assert GoodDispute(s, i);
    }
    SumOfZero(s.disputes, LiveOf(auction));
    SumOfZero(s.disputes, ResolvedOf(auction));
    AtMostOneRefund(s, auction);
  }

  lemma FileKeepsReviewed(s: Store, user: nat, auction: nat)
    requires Reviewed(s)
    ensures Reviewed(DoFile(s, user, auction).store)
  {
    var t := DoFile(s, user, auction).store;
    if t != s {
      var d := t.disputes[|s.disputes|];
      forall i | 0 <= i < |t.disputes| ensures GoodDispute(t, i) {
        if i < |s.disputes| { assert GoodDispute(s, i); }
      }
      forall i | 0 <= i < |t.auctions| ensures Balanced(t, i) {
        assert Balanced(s, i);
        RefundsFrame(s, t, i + 1);
        SumOfAppend(s.disputes, d, LiveOf(i + 1));
        SumOfAppend(s.disputes, d, ResolvedOf(i + 1));
      }
    }
  }

  predicate Decides(s: Store, dispute: nat, verdict: DisputeStatus) {
    && verdict != DisputeOpen
    && Exists(s.disputes, dispute)
    && s.disputes[dispute - 1].status == DisputeOpen
  }

  lemma RejectShape(s: Store, moderator: nat, dispute: nat)
    requires Reviewed(s) && Decides(s, dispute, DisputeRejected)
    ensures var t := DoResolve(s, moderator, dispute, DisputeRejected).store;
      var d := s.disputes[dispute - 1];
      && Exists(s.auctions, d.auction) && s.auctions[d.auction - 1].status == Disputed
      && t.auctions == s.auctions[d.auction - 1 := s.auctions[d.auction - 1].(status := Closed)]
      && t.disputes == s.disputes[dispute - 1 := d.(status := DisputeRejected, resolvedBy := moderator)]
      && ExtendsLog(s, t)
  {
    LiveMeansDisputed(s, dispute - 1);
    hide Reviewed;
  }

  /** One open dispute becomes rejected and its auction CLOSED. */
  lemma RejectedKeepsReviewed(s: Store, t: Store, dispute: nat, d: Dispute)
    requires Reviewed(s) && Decides(s, dispute, DisputeRejected)
    requires d.status == DisputeRejected && d.id == dispute && d.auction == s.disputes[dispute - 1].auction
    requires Exists(s.auctions, d.auction) && s.auctions[d.auction - 1].status == Disputed
    requires t.auctions == s.auctions[d.auction - 1 := s.auctions[d.auction - 1].(status := Closed)]
    requires t.disputes == s.disputes[dispute - 1 := d] && ExtendsLog(s, t)
    ensures Reviewed(t)
  {
    hide ExtendsLog;
    forall i | 0 <= i < |t.disputes| ensures GoodDispute(t, i) {
      assert GoodDispute(s, i);
    }
    forall i | 0 <= i < |t.auctions| ensures Balanced(t, i) {
      assert Balanced(s, i);
      RefundsFrame(s, t, i + 1);
      SumOfUpdate(s.disputes, dispute - 1, d, LiveOf(i + 1));
      SumOfUpdate(s.disputes, dispute - 1, d, ResolvedOf(i + 1));
    }
    RefundsNamed(s, t);
  }

  lemma RefundsNamed(s: Store, t: Store)
    requires forall k :: 0 <= k < |s.log| && s.log[k].WalRefund? ==> Exists(s.auctions, s.log[k].auction)
    requires ExtendsLog(s, t) && |s.auctions| <= |t.auctions|
    ensures forall k :: 0 <= k < |t.log| && t.log[k].WalRefund? ==> Exists(t.auctions, t.log[k].auction)
  {
    forall k | 0 <= k < |t.log| && t.log[k].WalRefund? ensures Exists(t.auctions, t.log[k].auction) {
      if k < |s.log| { assert t.log[k] == s.log[k]; }
    }
  }

  lemma RejectKeepsReviewed(s: Store, moderator: nat, dispute: nat)
    requires Reviewed(s) && Decides(s, dispute, DisputeRejected)
    ensures Reviewed(DoResolve(s, moderator, dispute, DisputeRejected).store)
  {
    assert GoodDispute(s, dispute - 1);
    RejectShape(s, moderator, dispute);
    hide Reviewed, ExtendsLog, DoResolve;
    var t := DoResolve(s, moderator, dispute, DisputeRejected).store;
    RejectedKeepsReviewed(s, t, dispute, t.disputes[dispute - 1]);
  }

  /** A refund writes its write-ahead entry first, no other refund entry, and no auction or dispute. */
  lemma RefundShape(s: Store, dispute: nat, a: Auction)
    ensures var t := Refund(s, dispute, a);
      var wal := s.log + [WalRefund(dispute, a.id, a.leader, a.seller, a.currentBid)];
      t.auctions == s.auctions && t.disputes == s.disputes && ExtendsLog(s.(log := wal), t)
  {}

  lemma ResolveShape(s: Store, moderator: nat, dispute: nat)
    requires Reviewed(s) && Decides(s, dispute, DisputeResolved)
    ensures var t := DoResolve(s, moderator, dispute, DisputeResolved).store;
      var d := s.disputes[dispute - 1];
      && Exists(s.auctions, d.auction)
      && var a := s.auctions[d.auction - 1];
      && t.auctions == s.auctions
      && t.disputes == s.disputes[dispute - 1 := d.(status := DisputeResolved, resolvedBy := moderator)]
      && ExtendsLog(s.(log := s.log + [WalRefund(dispute, d.auction, a.leader, a.seller, a.currentBid)]), t)
  {
    var d := s.disputes[dispute - 1];
    LiveMeansDisputed(s, dispute - 1);
    assert Balanced(s, d.auction - 1);
    RefundShape(s.(disputes := s.disputes[dispute - 1 := d.(status := DisputeResolved, resolvedBy := moderator)]),
                dispute, s.auctions[d.auction - 1]);
  }

  /** One open dispute becomes resolved and one refund entry for its auction is logged. */
  lemma ResolvedKeepsReviewed(s: Store, t: Store, dispute: nat, wal: Entry)
    requires Reviewed(s) && Decides(s, dispute, DisputeResolved)
    requires t.auctions == s.auctions && |t.disputes| == |s.disputes|
    requires t.disputes == s.disputes[dispute - 1 := t.disputes[dispute - 1]]
    requires t.disputes[dispute - 1] == s.disputes[dispute - 1].(
        status := DisputeResolved, resolvedBy := t.disputes[dispute - 1].resolvedBy)
    requires wal.WalRefund? && wal.auction == s.disputes[dispute - 1].auction
    requires ExtendsLog(s.(log := s.log + [wal]), t)
    ensures Reviewed(t)
  {
    hide ExtendsLog;
    var s2 := s.(log := s.log + [wal]);
    assert GoodDispute(s, dispute - 1);
    forall i | 0 <= i < |t.disputes| ensures GoodDispute(t, i) {
      assert GoodDispute(s, i);
    }
    forall i | 0 <= i < |t.auctions| ensures Balanced(t, i) {
      assert Balanced(s, i);
      RefundsFrame(s2, t, i + 1);
      SumOfAppend(s.log, wal, RefundOf(i + 1));
      SumOfUpdate(s.disputes, dispute - 1, t.disputes[dispute - 1], LiveOf(i + 1));
      SumOfUpdate(s.disputes, dispute - 1, t.disputes[dispute - 1], ResolvedOf(i + 1));
    }
    RefundsNamed(s2, t);
  }

  lemma ResolveKeepsReviewed(s: Store, moderator: nat, dispute: nat)
    requires Reviewed(s) && Decides(s, dispute, DisputeResolved)
    ensures Reviewed(DoResolve(s, moderator, dispute, DisputeResolved).store)
  {
    var d := s.disputes[dispute - 1];
    ResolveShape(s, moderator, dispute);
    var a := s.auctions[d.auction - 1];
    ResolvedKeepsReviewed(s, DoResolve(s, moderator, dispute, DisputeResolved).store, dispute,
                          WalRefund(dispute, d.auction, a.leader, a.seller, a.currentBid));
  }

  /** What a close leaves in the tables beside the wallets. */
  lemma CloseTables(s: Store, a: Auction)
    ensures var t := CloseInternal(s, a);
      && t.auctions == Put(s.auctions, a.id, a.(status := Closed))
      && t.bids == (if Sells(a) then MarkWinning(s.bids, a.id, a.leader) else s.bids)
      && t.disputes == s.disputes
  {
    hide ApplyDelta, MarkWinning;
  }

  predicate Numbered(auctions: seq<Auction>) {
    forall i :: 0 <= i < |auctions| ==> auctions[i].id == i + 1
  }

  /** DISPUTED marks neither come nor go, and new auctions carry none. */
  predicate SameMarks(before: seq<Auction>, after: seq<Auction>) {
    && |before| <= |after| && Numbered(after)
    && (forall i :: 0 <= i < |before| ==> (after[i].status == Disputed <==> before[i].status == Disputed))
    && (forall i :: |before| <= i < |after| ==> after[i].status != Disputed)
  }

  lemma CloseMarks(s: Store, e: Event)
    requires Numbered(s.auctions) && (e.CloseAuction? || e.Expire?)
    ensures var t := Handle(s, e).store; t.disputes == s.disputes && SameMarks(s.auctions, t.auctions)
  {
    hide CloseInternal;
    if Exists(s.auctions, e.auction) {
      CloseTables(s, s.auctions[e.auction - 1]);
    }
  }

  lemma BidMarks(s: Store, e: Event)
    requires Numbered(s.auctions) && e.PlaceBid?
    ensures var t := Handle(s, e).store; t.disputes == s.disputes && SameMarks(s.auctions, t.auctions)
  {
    hide ApplyDelta;
  }

  lemma CreateMarks(s: Store, e: Event)
    requires Numbered(s.auctions) && e.CreateAuction?
    ensures var t := Handle(s, e).store; t.disputes == s.disputes && SameMarks(s.auctions, t.auctions)
  {}

  lemma AccountMarks(s: Store, e: Event)
    requires Numbered(s.auctions)
    requires e.AddUser? || e.ChangeRole? || e.ToggleAccount? || e.DeleteUser? || e.Deposit?
    ensures var t := Handle(s, e).store; t.disputes == s.disputes && SameMarks(s.auctions, t.auctions)
  {
    hide ApplyDelta, AdminCount, Taken, Put;
  }

  /** Bids, closes and new auctions neither raise nor decide a dispute. */
  lemma MarketShape(s: Store, e: Event)
    requires Numbered(s.auctions)
    requires !e.FileDispute? && !e.ResolveDispute?
    ensures var t := Handle(s, e).store; t.disputes == s.disputes && SameMarks(s.auctions, t.auctions)
  {
    hide Handle, SameMarks, Numbered;
    match e
    case CloseAuction(_, _, _) => CloseMarks(s, e);
    case Expire(_) => CloseMarks(s, e);
    case PlaceBid(_, _, _) => BidMarks(s, e);
    case CreateAuction(_, _, _, _, _) => CreateMarks(s, e);
    case _ => AccountMarks(s, e);
  }

  lemma MarketLog(s: Store, e: Event)
    requires !e.FileDispute? && !e.ResolveDispute?
    ensures ExtendsLog(s, Handle(s, e).store)
  {
    hide ApplyDelta, MarkWinning, AdminCount, Taken;
  }

  lemma MarketKeepsReviewed(s: Store, e: Event)
    requires Reviewed(s) && !e.FileDispute? && !e.ResolveDispute?
    ensures Reviewed(Handle(s, e).store)
  {
    forall i | 0 <= i < |s.auctions| ensures s.auctions[i].id == i + 1 {
      assert Balanced(s, i);
    }
    MarketShape(s, e);
    MarketLog(s, e);
    ReviewedFrame(s, Handle(s, e).store);
  }

  lemma StepKeepsReviewed(s: Store, e: Event)
    requires Reviewed(s)
    ensures Reviewed(Step(s, e).store)
  {
    if Served(s, e) {
      match e
      case FileDispute(user, auction) => FileKeepsReviewed(s, user, auction);
      case ResolveDispute(moderator, dispute, verdict) =>
        if Decides(s, dispute, verdict) {
          if verdict == DisputeResolved {
            ResolveKeepsReviewed(s, moderator, dispute);
          } else {
            RejectKeepsReviewed(s, moderator, dispute);
          }
        }
      case _ => MarketKeepsReviewed(s, e);
    }
  }

  lemma {:induction false} RunKeepsReviewed(s: Store, es: seq<Event>)
    requires Reviewed(s)
    ensures Reviewed(Exec(s, es))
  {
    if es != [] {
      RunKeepsReviewed(s, es[..|es| - 1]);
      StepKeepsReviewed(Exec(s, es[..|es| - 1]), es[|es| - 1]);
    }
  }

  predicate About(s: Store, i: nat, auction: nat, status: DisputeStatus) {
    i < |s.disputes| && s.disputes[i].auction == auction && s.disputes[i].status == status
  }

  predicate MarkedDisputed(s: Store, auction: nat) {
    Exists(s.auctions, auction) && s.auctions[auction - 1].status == Disputed
  }

  /** Over every run from the seed: at most one refund per auction and at most one open dispute; an open
      dispute marks its auction DISPUTED, and a resolved one leaves it so with nothing open about it. */
  lemma DisputeSafety(es: seq<Event>, auction: nat)
    ensures var t := Exec(SEED, es);
      && Refunds(t, auction) <= 1
      && (forall i: nat :: About(t, i, auction, DisputeOpen) ==> MarkedDisputed(t, auction))
      && (forall i: nat :: About(t, i, auction, DisputeResolved) ==> MarkedDisputed(t, auction))
      && (forall i: nat, j: nat :: About(t, i, auction, DisputeOpen) && About(t, j, auction, DisputeOpen) ==> i == j)
      && (forall i: nat, j: nat :: About(t, i, auction, DisputeResolved) ==> !About(t, j, auction, DisputeOpen))
  {
    var t := Exec(SEED, es);
    RunKeepsReviewed(SEED, es);
    AtMostOneRefund(t, auction);
    forall i: nat | i < |t.disputes| && t.disputes[i].auction == auction && t.disputes[i].status != DisputeRejected
      ensures MarkedDisputed(t, auction)
    {
      LiveMeansDisputed(t, i);
    }
    forall i: nat, j: nat | i < j < |t.disputes| && t.disputes[i].auction == t.disputes[j].auction
      ensures t.disputes[i].status == DisputeRejected || t.disputes[j].status == DisputeRejected
    {
      OneLiveDispute(t, i, j);
    }
  }

  /** A decided dispute record is never written again. */
  lemma {:induction false} DecisionIsFinal(s: Store, es: seq<Event>, i: nat)
    requires i < |s.disputes| && s.disputes[i].status != DisputeOpen
    ensures i < |Exec(s, es).disputes| && Exec(s, es).disputes[i] == s.disputes[i]
  {
    if es != [] {
      DecisionIsFinal(s, es[..|es| - 1], i);
      DecisionSurvives(Exec(s, es[..|es| - 1]), es[|es| - 1], i);
    }
  }

  lemma DecisionSurvives(s: Store, e: Event, i: nat)
    requires i < |s.disputes| && s.disputes[i].status != DisputeOpen
    ensures var t := Step(s, e).store; i < |t.disputes| && t.disputes[i] == s.disputes[i]
  {
    if e.ResolveDispute? && Decides(s, e.dispute, e.verdict) {
      var s1 := s.(disputes := s.disputes[e.dispute - 1 :=
                  s.disputes[e.dispute - 1].(status := e.verdict, resolvedBy := e.moderator)]);
      var d := s.disputes[e.dispute - 1];
      if Exists(s.auctions, d.auction) {
        RefundShape(s1, e.dispute, s.auctions[d.auction - 1]);
      }
    }
  }

  /** Filing and rejecting leaves the auctions as they were, so the cycle can repeat forever. */
  lemma RejectedMayBeRefiled(s: Store, user: nat, moderator: nat, auction: nat)
    requires Reviewed(s) && Exists(s.users, user) && Exists(s.users, moderator)
    requires Exists(s.auctions, auction) && s.auctions[auction - 1].status == Closed
    ensures var filed := Step(s, FileDispute(user, auction));
      var rejected := Step(filed.store, ResolveDispute(moderator, |s.disputes| + 1, DisputeRejected));
      && filed.status == ERR_OK && rejected.status == ERR_OK
      && rejected.store.auctions == s.auctions && rejected.store.users == s.users
      && Refunds(rejected.store, auction) == Refunds(s, auction)
  {
    var filed := Step(s, FileDispute(user, auction)).store;
    var rejected := Step(filed, ResolveDispute(moderator, |s.disputes| + 1, DisputeRejected)).store;
    assert rejected.auctions == s.auctions;
    RefundsFrame(s, rejected, auction);
  }
}
