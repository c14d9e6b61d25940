/** A resolved dispute against the sale it disputes. */
module Refunds {
  import opened Records
  import opened Events
  import opened Escrow
  import opened Ledger
  import Disputes
  import BidLog

  /** A close, by hand or by the timer, that goes through. */
  predicate Close(s: Store, e: Event) {
    (e.CloseAuction? || e.Expire?) && Closes(s, e)
  }

  /** It settles a sale. */
  predicate Sale(s: Store, e: Event) {
    Close(s, e) && Sells(s.auctions[e.auction - 1])
  }

  /** From s3 to s4 every balance moves back by what it moved from s1 to s2, and no hold moves. */
  ghost predicate Undoes(s1: Store, s2: Store, s3: Store, s4: Store) {
    && |s1.users| == |s2.users| <= |s3.users| == |s4.users|
    && forall i :: 0 <= i < |s3.users| ==>
      && s4.users[i].wallet.hold == s3.users[i].wallet.hold
      && s4.users[i].wallet.balance - s3.users[i].wallet.balance
         == if i < |s1.users| then s1.users[i].wallet.balance - s2.users[i].wallet.balance else 0
  }

  /** What the close did to one balance: nothing, unless it sold. */
  function CloseDelta(a: Auction, user: nat): int {
    if Sells(a) then (if user == a.seller then a.currentBid else 0) - (if user == a.leader then a.currentBid else 0)
    else 0
  }

  /** What a refund does to one balance: the leader is always credited, the seller debited when covered. */
  function RefundDelta(a: Auction, covers: bool, user: nat): int {
    (if user == a.leader then a.currentBid else 0) - (if user == a.seller && covers then a.currentBid else 0)
  }

  /** The refund is right: of a sale, when the seller can give the money back; of an auction with bids that
      sold nothing, only when leader and seller are the same; and of one without bids, when the seller
      cannot even pay the start price. */
  predicate Rightful(a: Auction, covers: bool) {
    if Sells(a) then covers
    else if a.leader != 0 then a.leader == a.seller
    else !covers
  }

  lemma CloseMoves(s: Store, e: Event, i: nat)
    requires Sound(s) && Close(s, e) && i < |s.users|
    ensures var a := s.auctions[e.auction - 1];
      var t := Step(s, e).store;
      && |t.users| == |s.users|
      && t.users[i].wallet.balance == s.users[i].wallet.balance + CloseDelta(a, i + 1)
  {
    hide Step, CloseInternal;
    CloseReady(s, e.auction);
    CloseEffect(s, s.auctions[e.auction - 1]);
    CloseOutcome(s, e);
  }

  /** A refund on balances alone. */
  lemma RefundMoves(s: Store, dispute: nat, a: Auction, i: nat)
    requires Sound(s) && 0 < a.currentBid && Exists(s.users, a.seller) && a.leader <= |s.users|
    requires i < |s.users|
    ensures var t := Refund(s, dispute, a);
      && |t.users| == |s.users|
      && t.users[i].wallet.hold == s.users[i].wallet.hold
      && t.users[i].wallet.balance == s.users[i].wallet.balance + RefundDelta(a, SellerCovers(s, a), i + 1)
  {
    assert GoodUser(s, a.seller - 1);
    SharesNonneg(s, a.seller);
    if a.leader != 0 {
      assert GoodUser(s, a.leader - 1);
      SharesNonneg(s, a.leader);
    }
  }

  lemma {:induction false} UsersStay(s: Store, es: seq<Event>)
    ensures |s.users| <= |Exec(s, es).users|
  {
    if es != [] {
      UsersStay(s, es[..|es| - 1]);
      UsersStayOnce(Exec(s, es[..|es| - 1]), es[|es| - 1]);
    }
  }

  lemma UsersStayOnce(s: Store, e: Event)
    ensures |s.users| <= |Step(s, e).store.users|
  {}

  lemma ResolveUsers(s: Store, moderator: nat, dispute: nat, a: Auction)
    requires Exists(s.users, moderator) && Disputes.Decides(s, dispute, DisputeResolved)
    requires Exists(s.auctions, s.disputes[dispute - 1].auction) && a == s.auctions[s.disputes[dispute - 1].auction - 1]
    ensures Step(s, ResolveDispute(moderator, dispute, DisputeResolved)).store.users == Refund(s, dispute, a).users
  {}

  /** The two sets of moves cancel out exactly when the refund is right. */
  lemma DeltasCancelIff(a: Auction, covers: bool, n: nat)
    requires 0 < a.currentBid && 1 <= a.seller <= n && a.leader <= n
    requires a.seller == a.leader ==> covers
    ensures (forall u :: 1 <= u <= n ==> RefundDelta(a, covers, u) == -CloseDelta(a, u)) <==> Rightful(a, covers)
  {
    if forall u :: 1 <= u <= n ==> RefundDelta(a, covers, u) == -CloseDelta(a, u) {
      assert RefundDelta(a, covers, a.seller) == -CloseDelta(a, a.seller);
      if a.leader != 0 {
        assert RefundDelta(a, covers, a.leader) == -CloseDelta(a, a.leader);
      }
    }
  }

  lemma MovesUndo(s1: Store, s2: Store, s3: Store, s4: Store, a: Auction, covers: bool)
    requires |s1.users| == |s2.users| <= |s3.users| == |s4.users|
    requires 0 < a.currentBid && Exists(s1.users, a.seller) && a.leader <= |s1.users|
    requires a.seller == a.leader ==> covers
    requires forall i :: 0 <= i < |s1.users| ==>
      s2.users[i].wallet.balance == s1.users[i].wallet.balance + CloseDelta(a, i + 1)
    requires forall i :: 0 <= i < |s3.users| ==>
      && s4.users[i].wallet.hold == s3.users[i].wallet.hold
      && s4.users[i].wallet.balance == s3.users[i].wallet.balance + RefundDelta(a, covers, i + 1)
    ensures Undoes(s1, s2, s3, s4) <==> Rightful(a, covers)
  {
    hide Rightful, CloseDelta, RefundDelta;
    DeltasCancelIff(a, covers, |s1.users|);
    forall u: nat | u > |s1.users| ensures RefundDelta(a, covers, u) == 0 { OutsidersUntouched(a, covers, u); }
    if Undoes(s1, s2, s3, s4) {
      forall u | 1 <= u <= |s1.users| ensures RefundDelta(a, covers, u) == -CloseDelta(a, u) {
        assert s2.users[u - 1].wallet.balance == s1.users[u - 1].wallet.balance + CloseDelta(a, u);
        assert s4.users[u - 1].wallet.balance == s3.users[u - 1].wallet.balance + RefundDelta(a, covers, u);
      }
    }
  }

  lemma OutsidersUntouched(a: Auction, covers: bool, u: nat)
    requires u != a.seller && u != a.leader
    ensures RefundDelta(a, covers, u) == 0
  {}

  lemma CloseShuts(s: Store, e: Event)
    requires Sound(s) && Close(s, e)
    ensures var t := Step(s, e).store;
      && |t.auctions| == |s.auctions|
      && t.auctions[e.auction - 1] == s.auctions[e.auction - 1].(status := Closed)
  {
    CloseReady(s, e.auction);
    CloseOutcome(s, e);
  }

  /** The invariants after a close and any further events, and the auction record they leave. */
  lemma AfterClose(s: Store, e: Event, es: seq<Event>)
    requires Sound(s) && Disputes.Reviewed(s) && BidLog.Logged(s) && Close(s, e)
    ensures var t := Exec(Step(s, e).store, es);
      && Sound(t) && Exists(t.auctions, e.auction) && |Step(s, e).store.users| <= |t.users|
      && t.auctions[e.auction - 1].(status := Open) == s.auctions[e.auction - 1]
  {
    hide Step, Exec, Sound, Disputes.Reviewed, BidLog.Logged;
    var s2 := Step(s, e).store;
    StepKeepsSound(s, e);
    BidLog.StepKeepsLogged(s, e);
    RunKeepsSound(s2, es);
    CloseShuts(s, e);
    BidLog.RunFrozen(s2, es, e.auction);
    UsersStay(s2, es);
  }

  /** After any close and any events that follow, a RESOLVED dispute takes back exactly what the close did
      to every balance, and touches no hold, if and only if the refund is right. */
  lemma RefundUndoesCloseIff(s: Store, e: Event, es: seq<Event>, moderator: nat, dispute: nat)
    requires Sound(s) && Disputes.Reviewed(s) && BidLog.Logged(s) && Close(s, e)
    requires var s3 := Exec(Step(s, e).store, es);
      && Exists(s3.users, moderator) && Disputes.Decides(s3, dispute, DisputeResolved)
      && s3.disputes[dispute - 1].auction == e.auction
    ensures var s2 := Step(s, e).store;
      var s3 := Exec(s2, es);
      var s4 := Step(s3, ResolveDispute(moderator, dispute, DisputeResolved)).store;
      && Exists(s3.auctions, e.auction) && Exists(s3.users, s3.auctions[e.auction - 1].seller)
      && (Undoes(s, s2, s3, s4)
          <==> Rightful(s.auctions[e.auction - 1], SellerCovers(s3, s3.auctions[e.auction - 1])))
  {
    hide Step, Exec, Sound, Disputes.Reviewed, BidLog.Logged, Undoes;
    var a := s.auctions[e.auction - 1];
    LotReady(s, e.auction);
    AfterClose(s, e, es);
    var s2 := Step(s, e).store;
    CloseMoves(s, e, a.seller - 1);
    forall i | 0 <= i < |s.users|
      ensures |s2.users| == |s.users| && s2.users[i].wallet.balance == s.users[i].wallet.balance + CloseDelta(a, i + 1)
    {
      CloseMoves(s, e, i);
    }
    RefundUndoes(s, s2, Exec(s2, es), e.auction, moderator, dispute);
  }

  lemma LotReady(s: Store, auction: nat)
    requires Sound(s) && Exists(s.auctions, auction)
    ensures var a := s.auctions[auction - 1];
      0 < a.currentBid && Exists(s.users, a.seller) && a.leader <= |s.users|
  {
    assert GoodAuction(s, auction - 1);
  }

  lemma RefundUndoes(s1: Store, s2: Store, s3: Store, auction: nat, moderator: nat, dispute: nat)
    requires Sound(s3) && |s1.users| == |s2.users| <= |s3.users|
    requires Exists(s1.auctions, auction) && Exists(s3.auctions, auction)
    requires s3.auctions[auction - 1].(status := s1.auctions[auction - 1].status) == s1.auctions[auction - 1]
    requires var a := s1.auctions[auction - 1];
      && Exists(s1.users, a.seller) && a.leader <= |s1.users| && 0 < a.currentBid
      && forall i :: 0 <= i < |s1.users| ==>
          s2.users[i].wallet.balance == s1.users[i].wallet.balance + CloseDelta(a, i + 1)
    requires Exists(s3.users, moderator) && Disputes.Decides(s3, dispute, DisputeResolved)
    requires s3.disputes[dispute - 1].auction == auction
    ensures var s4 := Step(s3, ResolveDispute(moderator, dispute, DisputeResolved)).store;
      Undoes(s1, s2, s3, s4) <==> Rightful(s1.auctions[auction - 1], SellerCovers(s3, s3.auctions[auction - 1]))
  {
    hide Step, Sound, Refund, Undoes, CloseDelta, RefundDelta, Rightful;
    var a := s1.auctions[auction - 1];
    var b := s3.auctions[auction - 1];
    var s4 := Step(s3, ResolveDispute(moderator, dispute, DisputeResolved)).store;
    ResolveUsers(s3, moderator, dispute, b);
    var covers := SellerCovers(s3, b);
    forall i | 0 <= i < |s3.users|
      ensures |s4.users| == |s3.users| && s4.users[i].wallet.hold == s3.users[i].wallet.hold
      ensures s4.users[i].wallet.balance == s3.users[i].wallet.balance + RefundDelta(a, covers, i + 1)
    {
      RefundMoves(s3, dispute, b, i);
      SameDelta(a, b, covers, i + 1);
    }
    RefundMoves(s3, dispute, b, a.seller - 1);
    MovesUndo(s1, s2, s3, s4, a, covers);
  }

  lemma SameDelta(a: Auction, b: Auction, covers: bool, u: nat)
    requires b.(status := a.status) == a
    ensures RefundDelta(a, covers, u) == RefundDelta(b, covers, u)
  {}

  /** Of a sale in particular: a RESOLVED dispute undoes it exactly when the seller can cover it. */
  lemma RefundInvertsSale(s: Store, e: Event, es: seq<Event>, moderator: nat, dispute: nat)
    requires Sound(s) && Disputes.Reviewed(s) && BidLog.Logged(s) && Sale(s, e)
    requires var s3 := Exec(Step(s, e).store, es);
      && Exists(s3.users, moderator) && Disputes.Decides(s3, dispute, DisputeResolved)
      && s3.disputes[dispute - 1].auction == e.auction
    ensures var s2 := Step(s, e).store;
      var s3 := Exec(s2, es);
      var s4 := Step(s3, ResolveDispute(moderator, dispute, DisputeResolved)).store;
      && Exists(s3.auctions, e.auction) && Exists(s3.users, s3.auctions[e.auction - 1].seller)
      && (Undoes(s, s2, s3, s4) <==> SellerCovers(s3, s3.auctions[e.auction - 1]))
  {
    hide Step, Exec, Sound, Disputes.Reviewed, BidLog.Logged, Undoes, SellerCovers;
    RefundUndoesCloseIff(s, e, es, moderator, dispute);
  }

  /** Of an auction that sold nothing: a RESOLVED dispute leaves every wallet alone exactly when leader and
      seller are the same, or there is no leader and the seller cannot cover the start price. */
  lemma UnsoldRefundIdleIff(s: Store, e: Event, es: seq<Event>, moderator: nat, dispute: nat)
    requires Sound(s) && Disputes.Reviewed(s) && BidLog.Logged(s) && Close(s, e) && !Sells(s.auctions[e.auction - 1])
    requires var s3 := Exec(Step(s, e).store, es);
      && Exists(s3.users, moderator) && Disputes.Decides(s3, dispute, DisputeResolved)
      && s3.disputes[dispute - 1].auction == e.auction
    ensures var s3 := Exec(Step(s, e).store, es);
      var s4 := Step(s3, ResolveDispute(moderator, dispute, DisputeResolved)).store;
      && Exists(s3.auctions, e.auction)
      && var b := s3.auctions[e.auction - 1];
      && Exists(s3.users, b.seller)
      && (SameWallets(s3, s4) <==> if b.leader != 0 then b.leader == b.seller else !SellerCovers(s3, b))
  {
    hide Step, Exec, Sound, Disputes.Reviewed, BidLog.Logged, SellerCovers;
    RefundUndoesCloseIff(s, e, es, moderator, dispute);
    AfterClose(s, e, es);
    var s2 := Step(s, e).store;
    LotReady(s, e.auction);
    CloseMoves(s, e, s.auctions[e.auction - 1].seller - 1);
    forall i | 0 <= i < |s.users| ensures s2.users[i].wallet.balance == s.users[i].wallet.balance {
      CloseMoves(s, e, i);
    }
    UnsoldUsers(Exec(s2, es), moderator, dispute);
  }

  /** No wallet differs. */
  predicate SameWallets(s: Store, t: Store) {
    |s.users| == |t.users| && forall i :: 0 <= i < |s.users| ==> t.users[i].wallet == s.users[i].wallet
  }

  lemma UnsoldUsers(s: Store, moderator: nat, dispute: nat)
    requires Sound(s) && Exists(s.users, moderator) && Disputes.Decides(s, dispute, DisputeResolved)
    requires Exists(s.auctions, s.disputes[dispute - 1].auction)
    ensures |Step(s, ResolveDispute(moderator, dispute, DisputeResolved)).store.users| == |s.users|
  {
    hide Step, Refund, Sound;
    var a := s.auctions[s.disputes[dispute - 1].auction - 1];
    LotReady(s, s.disputes[dispute - 1].auction);
    ResolveUsers(s, moderator, dispute, a);
    RefundMoves(s, dispute, a, a.seller - 1);
  }

  /** A dispute about an auction nobody bid on takes the start price from a seller who has it, and gives it
      to nobody. */
  lemma NoBidRefundBurnsMoney(s: Store, moderator: nat, dispute: nat)
    requires Sound(s) && BidLog.Logged(s)
    requires Exists(s.users, moderator) && Disputes.Decides(s, dispute, DisputeResolved)
    requires Exists(s.auctions, s.disputes[dispute - 1].auction)
    requires var a := s.auctions[s.disputes[dispute - 1].auction - 1];
      a.leader == 0 && Exists(s.users, a.seller) && SellerCovers(s, a)
    ensures var a := s.auctions[s.disputes[dispute - 1].auction - 1];
      TotalBalance(Step(s, ResolveDispute(moderator, dispute, DisputeResolved)).store) == TotalBalance(s) - a.startPrice
  {
    hide Step, Refund, Sound;
    var auction := s.disputes[dispute - 1].auction;
    var a := s.auctions[auction - 1];
    LotReady(s, auction);
    NoBidsYet(s, auction);
    ResolveUsers(s, moderator, dispute, a);
    RefundTotal(s, dispute, a);
  }

  lemma NoBidsYet(s: Store, auction: nat)
    requires Sound(s) && BidLog.Logged(s) && Exists(s.auctions, auction) && s.auctions[auction - 1].leader == 0
    ensures s.auctions[auction - 1].currentBid == s.auctions[auction - 1].startPrice
  {
    assert BidLog.Recorded(s, auction - 1);
  }

  // ---------- a refund of a sale that never happened ----------

  const UNSOLD: seq<Event> := [
    AddUser("bidder", ROLE_BIDDER), Deposit(2, 100), CreateAuction(1, 10, 1000, 60, 0),
    PlaceBid(2, 1, 50), Expire(1), FileDispute(2, 1), ResolveDispute(1, 1, DisputeResolved)]

  const FOUNDER := User(1, "admin", ROLE_ADMIN, ACCOUNT_ACTIVE, Wallet(0, 0), false)
  const LOT := Auction(1, 1, 10, 1000, 50, 2, Open, 60, 1)

  function Bidder(balance: int, hold: int): User {
    User(2, "bidder", ROLE_BIDDER, ACCOUNT_ACTIVE, Wallet(balance, hold), false)
  }

  lemma {:induction false} ExecOne(s: Store, es: seq<Event>, n: nat)
    requires n < |es|
    ensures Exec(s, es[..n + 1]) == Step(Exec(s, es[..n]), es[n]).store
  {
    assert es[..n + 1][..n] == es[..n];
  }

  lemma UnsoldUser()
    ensures var t := Exec(SEED, UNSOLD[..2]);
      && t.users == [FOUNDER, Bidder(100, 0)] && t.auctions == [] && t.disputes == [] && t.bids == []
  {
    ExecOne(SEED, UNSOLD, 0);
    var s1 := Exec(SEED, UNSOLD[..1]);
    assert UNSOLD[..0] == [];
    assert s1 == DoAddUser(SEED, "bidder", ROLE_BIDDER).store;
    assert s1.users == [FOUNDER, Bidder(0, 0)];
    ExecOne(SEED, UNSOLD, 1);
    assert Exec(SEED, UNSOLD[..2]) == DoDeposit(s1, 2, 100).store;
  }

  lemma UnsoldLot()
    ensures var t := Exec(SEED, UNSOLD[..3]);
      && t.users == [FOUNDER, Bidder(100, 0)] && t.disputes == []
      && t.auctions == [LOT.(currentBid := 10, leader := 0, bidCount := 0)]
  {
    hide Exec;
    UnsoldUser();
    ExecOne(SEED, UNSOLD, 2);
    assert Exec(SEED, UNSOLD[..3]) == DoCreate(Exec(SEED, UNSOLD[..2]), 1, 10, 1000, 60, 0).store;
  }

  lemma UnsoldBid()
    ensures var t := Exec(SEED, UNSOLD[..4]);
      && t.users == [FOUNDER, Bidder(100, 50)] && t.auctions == [LOT] && t.disputes == []
  {
    hide Exec, Step, Sound, Disputes.Reviewed;
    UnsoldLot();
    ExecOne(SEED, UNSOLD, 3);
    ReachableSound(Exec(SEED, UNSOLD[..3]));
    BidStep(Exec(SEED, UNSOLD[..3]), PlaceBid(2, 1, 50));
  }

  lemma UnsoldClosed()
    ensures var t := Exec(SEED, UNSOLD[..5]);
      && t.users == [FOUNDER, Bidder(100, 0)] && t.auctions == [LOT.(status := Closed)] && t.disputes == []
  {
    hide Exec, Step, CloseInternal;
    UnsoldBid();
    var s4 := Exec(SEED, UNSOLD[..4]);
    ExecOne(SEED, UNSOLD, 4);
    CloseOutcome(s4, Expire(1));
    CloseEffect(s4, LOT);
  }

  lemma FileStep(s: Store, user: nat, auction: nat)
    requires Exists(s.users, user) && Exists(s.auctions, auction) && s.auctions[auction - 1].status == Closed
    ensures var t := Step(s, FileDispute(user, auction)).store;
      && t.users == s.users
      && t.auctions == s.auctions[auction - 1 := s.auctions[auction - 1].(status := Disputed)]
      && t.disputes == Put(s.disputes, |s.disputes| + 1, Dispute(|s.disputes| + 1, auction, user, 0, DisputeOpen))
  {}

  lemma UnsoldDispute()
    ensures var t := Exec(SEED, UNSOLD[..6]);
      && t.users == [FOUNDER, Bidder(100, 0)] && t.auctions == [LOT.(status := Disputed)]
      && t.disputes == [Dispute(1, 1, 2, 0, DisputeOpen)]
  {
    hide Step, Exec;
    UnsoldClosed();
    ExecOne(SEED, UNSOLD, 5);
    FileStep(Exec(SEED, UNSOLD[..5]), 2, 1);
  }

  /** The reserve was not met, so nothing was paid; the refund still credits the leader, and the
      seller has nothing to give. */
  lemma UnsoldRefundMintsMoney()
    ensures Exec(SEED, UNSOLD[..6]).users == [FOUNDER, Bidder(100, 0)]
    ensures Exec(SEED, UNSOLD).users == [FOUNDER, Bidder(150, 0)]
  {
    hide Exec, Step;
    UnsoldDispute();
    ExecOne(SEED, UNSOLD, 6);
    assert UNSOLD[..7] == UNSOLD;
    ResolveUsers(Exec(SEED, UNSOLD[..6]), 1, 1, LOT.(status := Disputed));
  }
}
