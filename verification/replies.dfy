/** What every request is answered and what it leaves in the tables, written out on the tables themselves, with the
    numbers that go over the wire. */
module Replies {
  import opened Records
  import opened Wallets
  import opened Events
  import opened Escrow
  import opened Ledger
  import Disputes
  import Guards
  import Refunds

  // ---------- accounts ----------

  /** The first `n` characters. */
  function First(name: string, n: nat): string {
    seq(if |name| < n then |name| else n, i requires 0 <= i < |name| => name[i])
  }

  lemma ClippedIsFirst(name: string, n: nat)
    ensures Clipped(name, n) == First(name, n)
  {}

  /** A new user is refused exactly when an account in use has the first 32 characters as its name, and otherwise
      gets the next id, the requested role, the first 31 characters and an empty wallet. */
  lemma AddUserReply(s: Store, e: Event)
    requires e.AddUser?
    ensures var r := Step(s, e);
      && r.status in {0, 99}
      && (r.status == 99
          <==> exists i :: 0 <= i < |s.users| && !s.users[i].deleted && s.users[i].username == First(e.username, 32))
      && (r.status == 99 ==> r.store == s)
      && (r.status == 0 ==>
            r.store == s.(users := s.users + [User(|s.users| + 1, First(e.username, 31), e.role, 0, Wallet(0, 0), false)],
                          log := s.log + [UserAdded(|s.users| + 1, e.role)]))
  {
    ClippedIsFirst(e.username, 32);
    ClippedIsFirst(e.username, 31);
  }

  /** An account that counts for the last-admin guard. */
  predicate InOffice(u: User) {
    u.role == 3 && u.status == 0 && !u.deleted
  }

  lemma {:induction false} TwoCounted(users: seq<User>)
    ensures AdminCount(users) >= 2 <==> exists i, j :: 0 <= i < j < |users| && InOffice(users[i]) && InOffice(users[j])
    ensures AdminCount(users) >= 1 <==> exists i :: 0 <= i < |users| && InOffice(users[i])
  {
    if users != [] {
      var n := |users| - 1;
      var front := users[..n];
      TwoCounted(front);
      if AdminCount(front) >= 1 {
        var i :| 0 <= i < n && InOffice(front[i]);
        assert InOffice(users[i]);
      }
      if AdminCount(front) >= 2 {
        var i, j :| 0 <= i < j < n && InOffice(front[i]) && InOffice(front[j]);
        assert InOffice(users[i]) && InOffice(users[j]);
      }
      if i, j :| 0 <= i < j < |users| && InOffice(users[i]) && InOffice(users[j]) {
        assert InOffice(front[i]);
        if j < n { assert InOffice(front[j]); }
      }
      if i :| 0 <= i < |users| && InOffice(users[i]) {
        if i < n { assert InOffice(front[i]); }
      }
    }
  }

  /** A role change is refused for an unknown account, and for the demotion of an admin while no two admins are in
      office; otherwise the role, and nothing else, is as requested. */
  lemma ChangeRoleReply(s: Store, e: Event)
    requires e.ChangeRole?
    ensures var r := Step(s, e);
      var known := 1 <= e.target <= |s.users|;
      && r.status in {0, 3, 4}
      && (r.status == 4 <==> !known)
      && (r.status == 3
          <==> known && s.users[e.target - 1].role == 3 && e.newRole != 3
               && !exists i, j :: 0 <= i < j < |s.users| && InOffice(s.users[i]) && InOffice(s.users[j]))
      && (r.status != 0 ==> r.store == s)
      && (r.status == 0 ==>
            var u := s.users[e.target - 1];
            r.store == s.(users := s.users[e.target - 1 := u.(role := e.newRole)],
                          log := s.log + [RoleChanged(e.target, u.role, e.newRole)]))
  {
    TwoCounted(s.users);
  }

  /** A toggle is refused for an unknown account and for one whose role is not below the actor's; otherwise the
      status, and nothing else, is as requested. */
  lemma ToggleReply(s: Store, e: Event)
    requires e.ToggleAccount?
    ensures var r := Step(s, e);
      var known := 1 <= e.target <= |s.users|;
      && r.status in {0, 3, 4}
      && (r.status == 4 <==> !known)
      && (r.status == 0 <==> known && s.users[e.target - 1].role < e.actorRole)
      && (r.status != 0 ==> r.store == s)
      && (r.status == 0 ==>
            r.store == s.(users := s.users[e.target - 1 := s.users[e.target - 1].(status := e.newStatus)],
                          log := s.log + [AccountToggled(e.target, e.newStatus)]))
  {}

  /** A soft delete is refused for an unknown account and for an admin; otherwise the record stays, marked deleted
      and inactive. */
  lemma DeleteReply(s: Store, e: Event)
    requires e.DeleteUser?
    ensures var r := Step(s, e);
      var known := 1 <= e.target <= |s.users|;
      && r.status in {0, 3, 4}
      && (r.status == 4 <==> !known)
      && (r.status == 0 <==> known && s.users[e.target - 1].role != 3)
      && (r.status != 0 ==> r.store == s)
      && (r.status == 0 ==>
            r.store == s.(users := s.users[e.target - 1 := s.users[e.target - 1].(deleted := true, status := 1)],
                          log := s.log + [UserDeleted(e.target)]))
  {}

  /** What an account of each role may ask for: 0 bids and disputes, 1 sells, 2 and above moderates, 3 sells and
      administers too, and everybody deposits. */
  lemma RoleGates(role: int, e: Event)
    ensures e.PlaceBid? || e.FileDispute? ==> (Permits(role, e) <==> role == 0)
    ensures e.CreateAuction? ==> (Permits(role, e) <==> role == 1 || role == 3)
    ensures e.CloseAuction? && e.requesterRole == role ==> (Permits(role, e) <==> role == 1 || role == 3)
    ensures e.ResolveDispute? ==> (Permits(role, e) <==> role >= 2)
    ensures e.ToggleAccount? && e.actorRole == role ==> (Permits(role, e) <==> role >= 2)
    ensures e.AddUser? || e.ChangeRole? ==> (Permits(role, e) <==> role == 3)
    ensures e.Deposit? ==> Permits(role, e)
    ensures e.DeleteUser? || e.Expire? ==> !Permits(role, e)
  {}

  // ---------- wallets ----------

  function AtLeastZero(n: int): nat {
    if n < 0 then 0 else n
  }

  /** The guarded update of one wallet: refused for an unknown user, a negative balance, and a hold above the
      balance; a negative hold becomes zero. */
  lemma DeltaOutcome(users: seq<User>, id: nat, balanceDelta: int, holdDelta: int)
    ensures ApplyDelta(users, id, balanceDelta, holdDelta)
         == if 1 <= id <= |users|
               && 0 <= users[id - 1].wallet.balance + balanceDelta
               && users[id - 1].wallet.hold + holdDelta <= users[id - 1].wallet.balance + balanceDelta then
              users[id - 1 := users[id - 1].(wallet := Wallet(users[id - 1].wallet.balance + balanceDelta,
                                                              AtLeastZero(users[id - 1].wallet.hold + holdDelta)))]
            else users
  {}

  /** A hold is logged exactly when the user has the amount free, and is then placed. */
  lemma PlaceHoldOutcome(s: Store, id: nat, amount: int)
    ensures var t := PlaceHold(s, id, amount);
      var free := 1 <= id <= |s.users| && amount <= s.users[id - 1].wallet.balance - s.users[id - 1].wallet.hold;
      && t.log == (if free then s.log + [Hold(id, amount)] else s.log)
      && (!free ==> t == s)
      && (free && 0 <= s.users[id - 1].wallet.balance ==>
            var w := s.users[id - 1].wallet;
            t.users == s.users[id - 1 := s.users[id - 1].(wallet := Wallet(w.balance, AtLeastZero(w.hold + amount)))])
  {}

  /** A deposit is refused exactly when it is not positive; any other raises one balance by the amount. */
  lemma DepositReply(s: Store, e: Event)
    requires Sound(s) && e.Deposit?
    ensures var r := Step(s, e);
      var known := 1 <= e.user <= |s.users|;
      && r.status in {0, 1, 99}
      && (r.status == 1 <==> !known)
      && (r.status == 99 <==> known && e.amount <= 0)
      && (r.status != 0 ==> r.store == s)
      && (r.status == 0 ==>
            var u := s.users[e.user - 1];
            r.store == s.(users := s.users[e.user - 1 := u.(wallet := Wallet(u.wallet.balance + e.amount, u.wallet.hold))],
                          log := s.log + [Credit(e.user, e.amount)]))
  {
    Guards.AllSolvent(s, e.user);
  }

  // ---------- auctions ----------

  /** A new auction is refused exactly when its start price is not positive or it runs for less than ten seconds.
      Any other is open, as requested, without bids, and runs out exactly when its whole duration has passed. */
  lemma CreateReply(s: Store, e: Event)
    requires e.CreateAuction?
    ensures var r := Step(s, e);
      var known := 1 <= e.seller <= |s.users|;
      && r.status in {0, 1, 99}
      && (r.status == 1 <==> !known)
      && (r.status == 0 <==> known && e.startPrice > 0 && e.duration >= 10)
      && (r.status != 0 ==> r.store == s)
      && (r.status == 0 ==>
            var id := |s.auctions| + 1;
            r.store == s.(auctions := s.auctions + [Auction(id, e.seller, e.startPrice, e.reservePrice, e.startPrice, 0,
                                                            Open, e.now + e.duration, 0)],
                          log := s.log + [AuctionCreated(id, e.seller)]))
  {}

  /** A bid is refused, in this order, for an unknown auction, one that is not open, too little money that is not
      on hold, and an amount that does not beat the current bid. */
  lemma BidReplies(s: Store, e: Event)
    requires e.PlaceBid?
    ensures var r := Step(s, e);
      var known := 1 <= e.bidder <= |s.users|;
      var found := 1 <= e.auction <= |s.auctions|;
      var open := found && s.auctions[e.auction - 1].status == Open;
      var affords := known && e.amount <= s.users[e.bidder - 1].wallet.balance - s.users[e.bidder - 1].wallet.hold;
      && r.status in {0, 1, 4, 5, 6, 7}
      && (r.status == 1 <==> !known)
      && (r.status == 4 <==> known && !found)
      && (r.status == 7 <==> known && found && !open)
      && (r.status == 6 <==> known && open && !affords)
      && (r.status == 5 <==> open && affords && e.amount <= s.auctions[e.auction - 1].currentBid)
      && (r.status != 0 ==> r.store == s)
  {}

  /** An accepted bid: the old leader's hold is freed, the bidder's grows by the amount, the record shows the new
      leader, and one bid is appended. */
  lemma BidEffects(s: Store, e: Event, i: nat)
    requires Sound(s) && Disputes.Reviewed(s) && e.PlaceBid? && Step(s, e).status == 0 && i < |s.users|
    ensures 1 <= e.auction <= |s.auctions|
    ensures var t := Step(s, e).store;
      var a := s.auctions[e.auction - 1];
      var w := s.users[i].wallet;
      && |t.users| == |s.users|
      && t.users[i] == s.users[i].(wallet := Wallet(w.balance,
                          w.hold - (if a.leader == i + 1 then a.currentBid else 0) + (if e.bidder == i + 1 then e.amount else 0)))
      && t.auctions == s.auctions[e.auction - 1 := Auction(a.id, a.seller, a.startPrice, a.reservePrice, e.amount, e.bidder,
                                                           Open, a.endTime, a.bidCount + 1)]
      && t.bids == s.bids + [Bid(|s.bids| + 1, e.auction, e.bidder, e.amount, true)]
      && t.disputes == s.disputes
      && t.log == s.log + (if a.leader != 0 then [Release(a.leader, a.currentBid)] else [])
                  + [Hold(e.bidder, e.amount), BidPlaced(e.auction, e.bidder, e.amount)]
  {
    hide Step, Sound, Disputes.Reviewed;
    BidReply(s, e);
    BidStep(s, e);
  }

  /** A manual close is refused, in this order, for an unknown auction, a requester who is neither its seller nor an
      admin, and an auction that is not open. */
  lemma CloseReply(s: Store, e: Event)
    requires e.CloseAuction?
    ensures var r := Step(s, e);
      var known := 1 <= e.requester <= |s.users|;
      var found := 1 <= e.auction <= |s.auctions|;
      var entitled := found && (s.auctions[e.auction - 1].seller == e.requester || e.requesterRole == 3);
      && r.status in {0, 1, 3, 4, 7}
      && (r.status == 1 <==> !known)
      && (r.status == 4 <==> known && !found)
      && (r.status == 3 <==> known && found && !entitled)
      && (r.status == 7 <==> known && entitled && s.auctions[e.auction - 1].status != Open)
      && (r.status != 0 ==> r.store == s)
  {}

  /** The close goes through. */
  predicate Shuts(s: Store, e: Event)
    requires e.CloseAuction? || e.Expire?
  {
    && 1 <= e.auction <= |s.auctions|
    && s.auctions[e.auction - 1].status == Open
    && (e.CloseAuction? ==> Step(s, e).status == 0)
  }

  lemma ShutsIsCloses(s: Store, e: Event)
    requires e.CloseAuction? || e.Expire?
    ensures Shuts(s, e) <==> Closes(s, e)
  {}

  /** Any other leaves everything as it was. */
  lemma NotShut(s: Store, e: Event)
    requires (e.CloseAuction? || e.Expire?) && !Shuts(s, e)
    ensures Step(s, e).store == s
  {
    ShutsIsCloses(s, e);
    CloseOutcome(s, e);
  }

  /** A close that goes through shuts the auction and frees the leader's hold. It pays the seller what the leader
      pays, and logs a settlement, if and only if somebody bid and the reserve, if any, is at most the bid;
      otherwise no balance moves. */
  lemma SaleIff(s: Store, e: Event, i: nat)
    requires Sound(s) && (e.CloseAuction? || e.Expire?) && Shuts(s, e) && i < |s.users|
    ensures var a := s.auctions[e.auction - 1];
      var t := Step(s, e).store;
      var sold := a.leader != 0 && (a.reservePrice == 0 || a.reservePrice <= a.currentBid);
      var note := if e.Expire? then TimerClosed(e.auction) else AuctionClosed(e.auction, e.requester);
      var w := s.users[i].wallet;
      && t.auctions == s.auctions[e.auction - 1 := a.(status := Closed)]
      && |t.users| == |s.users|
      && t.users[i].(wallet := w) == s.users[i]
      && t.users[i].wallet.hold == w.hold - (if i + 1 == a.leader then a.currentBid else 0)
      && t.users[i].wallet.balance
         == w.balance + (if sold && i + 1 == a.seller then a.currentBid else 0)
                      - (if sold && i + 1 == a.leader then a.currentBid else 0)
      && t.disputes == s.disputes
      && t.log == s.log + (if sold then [WalSettle(e.auction, a.leader, a.seller, a.currentBid),
                                         Settle(a.leader, a.currentBid), Credit(a.seller, a.currentBid)]
                           else if a.leader != 0 then [Release(a.leader, a.currentBid)]
                           else [])
                  + [note]
  {
    hide Step, CloseInternal, Sound;
    ShutsIsCloses(s, e);
    CloseReady(s, e.auction);
    CloseOutcome(s, e);
    var a := s.auctions[e.auction - 1];
    CloseEffect(s, a);
    CloseNoted(s, e);
  }

  /** The closing line comes last. */
  lemma CloseNoted(s: Store, e: Event)
    requires (e.CloseAuction? || e.Expire?) && Closes(s, e)
    ensures Step(s, e).store.log == CloseInternal(s, s.auctions[e.auction - 1]).log
                                    + [if e.Expire? then TimerClosed(e.auction) else AuctionClosed(e.auction, e.requester)]
  {
    hide CloseInternal;
  }

  /** Of a sale, the bids of the winner on this auction are marked, and no other. */
  lemma {:induction false} MarkedAt(bids: seq<Bid>, auction: nat, winner: nat, k: nat)
    requires k < |bids|
    ensures |MarkWinning(bids, auction, winner)| == |bids|
    ensures MarkWinning(bids, auction, winner)[k]
         == if bids[k].auction == auction && bids[k].bidder == winner then bids[k].(isWinning := true) else bids[k]
  {
    var n := |bids| - 1;
    if k < n {
      MarkedAt(bids[..n], auction, winner, k);
    } else if n > 0 {
      MarkedAt(bids[..n], auction, winner, 0);
    }
  }

  lemma SaleMarks(s: Store, e: Event, k: nat)
    requires Sound(s) && (e.CloseAuction? || e.Expire?) && Shuts(s, e) && k < |s.bids|
    ensures var a := s.auctions[e.auction - 1];
      var t := Step(s, e).store;
      && |t.bids| == |s.bids|
      && t.bids[k] == if a.leader != 0 && (a.reservePrice == 0 || a.reservePrice <= a.currentBid)
                         && s.bids[k].auction == e.auction && s.bids[k].bidder == a.leader then
                        s.bids[k].(isWinning := true)
                      else s.bids[k]
  {
    hide Step, CloseInternal, Sound;
    ShutsIsCloses(s, e);
    CloseReady(s, e.auction);
    CloseOutcome(s, e);
    var a := s.auctions[e.auction - 1];
    Disputes.CloseTables(s, a);
    MarkedAt(s.bids, a.id, a.leader, k);
  }

  // ---------- disputes ----------

  /** A dispute is refused for an unknown auction and for one that is not closed; any other is filed, open and
      undecided, and marks its auction. */
  lemma FileReply(s: Store, e: Event)
    requires e.FileDispute?
    ensures var r := Step(s, e);
      var known := 1 <= e.user <= |s.users|;
      var found := 1 <= e.auction <= |s.auctions|;
      var id := |s.disputes| + 1;
      && r.status in {0, 1, 4, 7}
      && (r.status == 1 <==> !known)
      && (r.status == 4 <==> known && !found)
      && (r.status == 0 <==> known && found && s.auctions[e.auction - 1].status == Closed)
      && (r.status != 0 ==> r.store == s)
      && (r.status == 0 ==>
            r.store == s.(disputes := s.disputes + [Dispute(id, e.auction, e.user, 0, DisputeOpen)],
                          auctions := s.auctions[e.auction - 1 := s.auctions[e.auction - 1].(status := Disputed)],
                          log := s.log + [DisputeFiled(id, e.auction, e.user)]))
  {}

  /** A decision is refused when it is none of the two, for an unknown dispute, and for one that is decided. */
  lemma ResolveReply(s: Store, e: Event)
    requires Disputes.Reviewed(s) && e.ResolveDispute?
    ensures var r := Step(s, e);
      var known := 1 <= e.moderator <= |s.users|;
      var decides := e.verdict == DisputeResolved || e.verdict == DisputeRejected;
      var found := 1 <= e.dispute <= |s.disputes|;
      var undecided := found && s.disputes[e.dispute - 1].status == DisputeOpen;
      && r.status in {0, 1, 4, 99}
      && (r.status == 1 <==> !known)
      && (r.status == 4 <==> known && decides && !found)
      && (r.status == 99 <==> known && (!decides || (found && !undecided)))
      && (r.status == 0 <==> known && decides && undecided)
      && (r.status != 0 ==> r.store == s)
  {
    hide Refund;
    if Exists(s.disputes, e.dispute) && s.disputes[e.dispute - 1].status == DisputeOpen {
      Disputes.LiveMeansDisputed(s, e.dispute - 1);
    }
  }

  /** A rejection restores the auction and moves no money. */
  lemma RejectEffects(s: Store, e: Event)
    requires Disputes.Reviewed(s) && e.ResolveDispute? && e.verdict == DisputeRejected && Step(s, e).status == 0
    ensures 1 <= e.dispute <= |s.disputes| && 1 <= s.disputes[e.dispute - 1].auction <= |s.auctions|
    ensures var d := s.disputes[e.dispute - 1];
      Step(s, e).store
        == s.(disputes := s.disputes[e.dispute - 1 := Dispute(d.id, d.auction, d.raisedBy, e.moderator, DisputeRejected)],
              auctions := s.auctions[d.auction - 1 := s.auctions[d.auction - 1].(status := Closed)],
              log := s.log + [DisputeDecided(e.dispute, DisputeRejected, e.moderator)])
  {
    hide Step;
    ResolveReply(s, e);
    Disputes.LiveMeansDisputed(s, e.dispute - 1);
    RejectStep(s, e);
  }

  lemma RejectStep(s: Store, e: Event)
    requires e.ResolveDispute? && e.verdict == DisputeRejected && Exists(s.users, e.moderator)
    requires Exists(s.disputes, e.dispute) && s.disputes[e.dispute - 1].status == DisputeOpen
    requires Exists(s.auctions, s.disputes[e.dispute - 1].auction)
    ensures var d := s.disputes[e.dispute - 1];
      Step(s, e).store
        == s.(disputes := s.disputes[e.dispute - 1 := Dispute(d.id, d.auction, d.raisedBy, e.moderator, DisputeRejected)],
              auctions := s.auctions[d.auction - 1 := s.auctions[d.auction - 1].(status := Closed)],
              log := s.log + [DisputeDecided(e.dispute, DisputeRejected, e.moderator)])
  {}

  /** From `s` to `t` the leader of the auction is credited with the bid, and it is taken from the seller who can pay
      it, and from nobody else; the debit is asked for exactly when the seller's balance, with what was just
      credited, covers it, and otherwise the anomaly is logged. */
  predicate PaysBack(s: Store, t: Store, moderator: nat, dispute: nat, i: nat)
    requires i < |s.users| && 1 <= dispute <= |s.disputes|
  {
    var d := s.disputes[dispute - 1];
    && 1 <= d.auction <= |s.auctions|
    && var a := s.auctions[d.auction - 1];
    && 1 <= a.seller <= |s.users|
    && var seller := s.users[a.seller - 1].wallet;
    && var w := s.users[i].wallet;
    && |t.users| == |s.users|
    && t.users[i].wallet.hold == w.hold
    && t.users[i].wallet.balance
       == w.balance + (if i + 1 == a.leader then a.currentBid else 0)
          - (if i + 1 == a.seller && (a.seller == a.leader || a.currentBid <= seller.balance - seller.hold) then a.currentBid
             else 0)
    && t.auctions == s.auctions && t.bids == s.bids
    && t.disputes == s.disputes[dispute - 1 := Dispute(d.id, d.auction, d.raisedBy, moderator, DisputeResolved)]
    && t.log == s.log + [WalRefund(dispute, d.auction, a.leader, a.seller, a.currentBid), Credit(a.leader, a.currentBid),
                         if a.seller == a.leader || a.currentBid <= seller.balance then Credit(a.seller, -a.currentBid)
                         else RefundAnomaly,
                         DisputeDecided(dispute, DisputeResolved, moderator)]
  }

  /** That is what a RESOLVED verdict does. */
  lemma RefundEffects(s: Store, e: Event, i: nat)
    requires Sound(s) && Disputes.Reviewed(s) && i < |s.users|
    requires e.ResolveDispute? && e.verdict == DisputeResolved && Step(s, e).status == 0
    ensures 1 <= e.dispute <= |s.disputes| && PaysBack(s, Step(s, e).store, e.moderator, e.dispute, i)
  {
    hide Step, Sound, Disputes.Reviewed, Refund, Guards.RefundEntries;
    ResolveReply(s, e);
    DisputedLot(s, e.dispute);
    var a := s.auctions[s.disputes[e.dispute - 1].auction - 1];
    LotNumbered(s, s.disputes[e.dispute - 1].auction);
    Refunds.ResolveUsers(s, e.moderator, e.dispute, a);
    Refunds.RefundMoves(s, e.dispute, a, i);
    ResolveTables(s, e);
    Guards.ResolveLogs(s, e);
    Guards.StepLogs(s, e);
    Guards.AllSolvent(s, a.seller);
    Guards.AllSolvent(s, a.leader);
    RefundLines(s, e.dispute, a);
  }

  lemma LotNumbered(s: Store, auction: nat)
    requires Sound(s) && Exists(s.auctions, auction)
    ensures s.auctions[auction - 1].id == auction
  {
    assert GoodAuction(s, auction - 1);
  }

  lemma ResolveTables(s: Store, e: Event)
    requires e.ResolveDispute? && e.verdict == DisputeResolved && Exists(s.users, e.moderator)
    requires Exists(s.disputes, e.dispute) && s.disputes[e.dispute - 1].status == DisputeOpen
    requires Exists(s.auctions, s.disputes[e.dispute - 1].auction)
    ensures var d := s.disputes[e.dispute - 1];
      var t := Step(s, e).store;
      && t.auctions == s.auctions && t.bids == s.bids
      && t.disputes == s.disputes[e.dispute - 1 := Dispute(d.id, d.auction, d.raisedBy, e.moderator, DisputeResolved)]
  {
    hide ApplyDelta;
  }

  lemma RefundLines(s: Store, dispute: nat, a: Auction)
    requires Exists(s.users, a.seller) && a.leader <= |s.users| && 0 < a.currentBid
    requires Solvent(s.users[a.seller - 1].wallet) && (a.leader != 0 ==> Solvent(s.users[a.leader - 1].wallet))
    ensures Guards.RefundEntries(s, dispute, a)
         == [WalRefund(dispute, a.id, a.leader, a.seller, a.currentBid), Credit(a.leader, a.currentBid),
             if a.seller == a.leader || a.currentBid <= s.users[a.seller - 1].wallet.balance then
               Credit(a.seller, -a.currentBid)
             else RefundAnomaly]
  {}
}
