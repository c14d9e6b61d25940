/** The escrow invariant: every user's hold is exactly the sum of the current bids of the
    open auctions that user leads, and is covered by the balance. */
module Escrow {
  import opened Records
  import opened Sums
  import opened Wallets
  import opened Events
  import Disputes

  function Share(a: Auction, u: nat): int {
    if a.status == Open && a.leader == u then a.currentBid else 0
  }

  function ShareOf(u: nat): Auction -> int {
    (a: Auction) => Share(a, u)
  }

  function Escrowed(auctions: seq<Auction>, u: nat): int {
    SumOf(auctions, ShareOf(u))
  }

  predicate GoodUser(s: Store, i: nat)
    requires i < |s.users|
  {
    var u := s.users[i];
    && u.id == i + 1
    && u.wallet.hold == Escrowed(s.auctions, i + 1)
    && u.wallet.hold <= u.wallet.balance
  }

  predicate GoodAuction(s: Store, i: nat)
    requires i < |s.auctions|
  {
    var a := s.auctions[i];
    && a.id == i + 1
    && Exists(s.users, a.seller)
    && a.leader <= |s.users|
    && 0 < a.startPrice <= a.currentBid
  }

  ghost predicate Sound(s: Store) {
    && (forall i :: 0 <= i < |s.users| ==> GoodUser(s, i))
    && (forall i :: 0 <= i < |s.auctions| ==> GoodAuction(s, i))
  }

  lemma SharesNonneg(s: Store, u: nat)
    requires Sound(s)
    ensures forall i :: 0 <= i < |s.auctions| ==> ShareOf(u)(s.auctions[i]) >= 0
    ensures Escrowed(s.auctions, u) >= 0
  {
    forall i | 0 <= i < |s.auctions| ensures ShareOf(u)(s.auctions[i]) >= 0 {
      assert GoodAuction(s, i);
    }
    SumOfNonneg(s.auctions, ShareOf(u));
  }

  /** An open auction's current bid is part of its leader's hold. */
  lemma LeaderCovers(s: Store, i: nat)
    requires Sound(s) && i < |s.auctions|
    requires s.auctions[i].status == Open && s.auctions[i].leader != 0
    ensures Exists(s.users, s.auctions[i].leader)
    ensures s.auctions[i].currentBid <= s.users[s.auctions[i].leader - 1].wallet.hold
    ensures s.users[s.auctions[i].leader - 1].wallet.hold <= s.users[s.auctions[i].leader - 1].wallet.balance
  {
    var u := s.auctions[i].leader;
    assert GoodAuction(s, i);
    assert GoodUser(s, u - 1);
    SharesNonneg(s, u);
    SumOfCovers(s.auctions, i, ShareOf(u));
  }

  // ---------- what an accepted bid and a close do when no guard fires ----------

  predicate BidAccepted(s: Store, bidder: nat, auction: nat, amount: int) {
    && Exists(s.auctions, auction)
    && Exists(s.users, bidder)
    && s.auctions[auction - 1].status == Open
    && s.auctions[auction - 1].currentBid < amount <= s.users[bidder - 1].wallet.Available()
  }

  /** The leader's wallet holds at least the auction's current bid. */
  predicate LeaderHolds(users: seq<User>, a: Auction) {
    a.leader != 0 ==>
      && Exists(users, a.leader)
      && 0 <= a.currentBid <= users[a.leader - 1].wallet.hold <= users[a.leader - 1].wallet.balance
  }

  function BidUsers(users: seq<User>, a: Auction, bidder: nat, amount: int): seq<User>
    requires LeaderHolds(users, a) && Exists(users, bidder)
  {
    var released := if a.leader != 0 then Moved(users, a.leader, 0, -a.currentBid) else users;
    Moved(released, bidder, 0, amount)
  }

  function BidStore(s: Store, bidder: nat, auction: nat, amount: int): Store
    requires BidAccepted(s, bidder, auction, amount) && LeaderHolds(s.users, s.auctions[auction - 1])
  {
    var a := s.auctions[auction - 1];
    var release := if a.leader != 0 then [Release(a.leader, a.currentBid)] else [];
    s.(users := BidUsers(s.users, a, bidder, amount),
       auctions := s.auctions[auction - 1 := Raised(a, bidder, amount)],
       bids := s.bids + [Bid(|s.bids| + 1, auction, bidder, amount, true)],
       log := s.log + release + [Hold(bidder, amount), BidPlaced(auction, bidder, amount)])
  }

  lemma BidEffect(s: Store, bidder: nat, auction: nat, amount: int)
    requires BidAccepted(s, bidder, auction, amount)
    requires LeaderHolds(s.users, s.auctions[auction - 1])
    requires 0 <= amount && 0 <= s.users[bidder - 1].wallet.hold
    ensures DoBid(s, bidder, auction, amount) == Outcome(BidStore(s, bidder, auction, amount), ERR_OK)
  {
    var a := s.auctions[auction - 1];
    var s1 := if a.leader != 0 then ReleaseHold(s, a.leader, a.currentBid) else s;
    if a.leader != 0 {
      QuietMoves(s.users, a.leader, 0, -a.currentBid);
    }
    QuietMoves(s1.users, bidder, 0, amount);
    var release := if a.leader != 0 then [Release(a.leader, a.currentBid)] else [];
    assert s1.log == s.log + release;
    assert s1.log + [Hold(bidder, amount)] + [BidPlaced(auction, bidder, amount)]
        == s.log + release + [Hold(bidder, amount), BidPlaced(auction, bidder, amount)];
  }

  function CloseUsers(users: seq<User>, a: Auction): seq<User>
    requires LeaderHolds(users, a) && Exists(users, a.seller)
  {
    if Sells(a) then
      Moved(Moved(users, a.leader, -a.currentBid, -a.currentBid), a.seller, a.currentBid, 0)
    else if a.leader != 0 then Moved(users, a.leader, 0, -a.currentBid)
    else users
  }

  function CloseEntries(a: Auction): seq<Entry> {
    if Sells(a) then
      [WalSettle(a.id, a.leader, a.seller, a.currentBid), Settle(a.leader, a.currentBid), Credit(a.seller, a.currentBid)]
    else if a.leader != 0 then [Release(a.leader, a.currentBid)]
    else []
  }

  function CloseStore(s: Store, a: Auction): Store
    requires Exists(s.auctions, a.id) && LeaderHolds(s.users, a) && Exists(s.users, a.seller)
  {
    s.(users := CloseUsers(s.users, a),
       auctions := s.auctions[a.id - 1 := a.(status := Closed)],
       bids := if Sells(a) then MarkWinning(s.bids, a.id, a.leader) else s.bids,
       log := s.log + CloseEntries(a))
  }

  /** A bid is accepted exactly under these conditions, and a refused one changes nothing. */
  lemma BidReply(s: Store, e: Event)
    requires e.PlaceBid?
    ensures Step(s, e).status == ERR_OK <==> BidAccepted(s, e.bidder, e.auction, e.amount)
    ensures Step(s, e).status != ERR_OK ==> Step(s, e).store == s
  {}

  /** A close that is not due changes nothing; any other is the settlement and one log line. */
  lemma CloseOutcome(s: Store, e: Event)
    requires e.CloseAuction? || e.Expire?
    ensures !Closes(s, e) ==> Step(s, e).store == s
    ensures Closes(s, e) ==> var t := CloseInternal(s, s.auctions[e.auction - 1]);
      Step(s, e).store == t.(log := Step(s, e).store.log)
  {}

  predicate Solvent(w: Wallet) {
    0 <= w.hold <= w.balance
  }

  lemma CloseEffect(s: Store, a: Auction)
    requires Exists(s.auctions, a.id) && LeaderHolds(s.users, a) && Exists(s.users, a.seller)
    requires 0 <= a.currentBid && Solvent(s.users[a.seller - 1].wallet)
    ensures CloseInternal(s, a) == CloseStore(s, a)
    ensures Sells(a) <==> a.leader != 0 && (a.reservePrice == 0 || a.reservePrice <= a.currentBid)
  {
    if Sells(a) {
      QuietMoves(s.users, a.leader, -a.currentBid, -a.currentBid);
      QuietMoves(Moved(s.users, a.leader, -a.currentBid, -a.currentBid), a.seller, a.currentBid, 0);
      assert s.log + [WalSettle(a.id, a.leader, a.seller, a.currentBid)] + [Settle(a.leader, a.currentBid)]
             + [Credit(a.seller, a.currentBid)] == s.log + CloseEntries(a);
    } else if a.leader != 0 {
      QuietMoves(s.users, a.leader, 0, -a.currentBid);
    }
  }

  // ---------- preservation ----------

  /** Holds and escrow move together when one auction record is replaced. */
  lemma EscrowedUpdate(auctions: seq<Auction>, i: nat, a: Auction, u: nat)
    requires i < |auctions|
    ensures Escrowed(auctions[i := a], u) == Escrowed(auctions, u) - Share(auctions[i], u) + Share(a, u)
  {
    SumOfUpdate(auctions, i, a, ShareOf(u));
  }

  lemma BidKeepsSound(s: Store, bidder: nat, auction: nat, amount: int)
    requires Sound(s) && BidAccepted(s, bidder, auction, amount)
    ensures LeaderHolds(s.users, s.auctions[auction - 1]) && 0 <= s.users[bidder - 1].wallet.hold
    ensures 0 < amount
    ensures DoBid(s, bidder, auction, amount) == Outcome(BidStore(s, bidder, auction, amount), ERR_OK)
    ensures Sound(BidStore(s, bidder, auction, amount))
  {
    hide DoBid;
    var a := s.auctions[auction - 1];
    assert GoodAuction(s, auction - 1);
    assert GoodUser(s, bidder - 1);
    SharesNonneg(s, bidder);
    if a.leader != 0 {
      LeaderCovers(s, auction - 1);
    }
    BidEffect(s, bidder, auction, amount);
    var t := BidStore(s, bidder, auction, amount);
    forall i | 0 <= i < |t.users| ensures GoodUser(t, i) {
      assert GoodUser(s, i);
      EscrowedUpdate(s.auctions, auction - 1, Raised(a, bidder, amount), i + 1);
    }
    forall i | 0 <= i < |t.auctions| ensures GoodAuction(t, i) {
      assert GoodAuction(s, i);
    }
  }

  /** On a sound store the whole handler run of an acceptable bid is the hold swap, and nothing else. */
  lemma BidStep(s: Store, e: Event)
    requires Sound(s) && Disputes.Reviewed(s) && e.PlaceBid? && BidAccepted(s, e.bidder, e.auction, e.amount)
    ensures LeaderHolds(s.users, s.auctions[e.auction - 1])
    ensures Step(s, e) == Outcome(BidStore(s, e.bidder, e.auction, e.amount), ERR_OK)
    ensures Sound(Step(s, e).store) && Disputes.Reviewed(Step(s, e).store)
  {
    BidKeepsSound(s, e.bidder, e.auction, e.amount);
    Disputes.StepKeepsReviewed(s, e);
  }

  lemma CloseReady(s: Store, auction: nat)
    requires Sound(s) && Exists(s.auctions, auction) && s.auctions[auction - 1].status == Open
    ensures var a := s.auctions[auction - 1];
      && a.id == auction && LeaderHolds(s.users, a) && Exists(s.users, a.seller)
      && 0 < a.currentBid && Solvent(s.users[a.seller - 1].wallet)
  {
    var a := s.auctions[auction - 1];
    assert GoodAuction(s, auction - 1);
    assert GoodUser(s, a.seller - 1);
    SharesNonneg(s, a.seller);
    if a.leader != 0 {
      LeaderCovers(s, auction - 1);
    }
  }

  /** A close frees exactly the leader's share and leaves every wallet covered. */
  lemma CloseHolds(users: seq<User>, a: Auction, i: nat)
    requires LeaderHolds(users, a) && Exists(users, a.seller) && 0 <= a.currentBid
    requires i < |users| && users[i].wallet.hold <= users[i].wallet.balance
    ensures |CloseUsers(users, a)| == |users|
    ensures var u := CloseUsers(users, a)[i];
      && u.id == users[i].id
      && u.wallet.hold == users[i].wallet.hold - (if a.leader == i + 1 then a.currentBid else 0)
      && u.wallet.hold <= u.wallet.balance
  {}

  lemma CloseKeepsSound(s: Store, auction: nat)
    requires Sound(s) && Exists(s.auctions, auction) && s.auctions[auction - 1].status == Open
    ensures var a := s.auctions[auction - 1];
      && a.id == auction && LeaderHolds(s.users, a) && Exists(s.users, a.seller)
      && 0 < a.currentBid && Solvent(s.users[a.seller - 1].wallet)
      && CloseInternal(s, a) == CloseStore(s, a)
      && Sound(CloseStore(s, a))
  {
    CloseReady(s, auction);
    var a := s.auctions[auction - 1];
    CloseEffect(s, a);
    var closed := a.(status := Closed);
    var users := CloseUsers(s.users, a);
    var auctions := s.auctions[auction - 1 := closed];
    forall i | 0 <= i < |s.users|
      ensures |users| == |s.users| && users[i].id == i + 1
      ensures users[i].wallet.hold == Escrowed(auctions, i + 1) && users[i].wallet.hold <= users[i].wallet.balance
    {
      assert GoodUser(s, i);
      CloseHolds(s.users, a, i);
      EscrowedUpdate(s.auctions, auction - 1, closed, i + 1);
    }
    CloseTablesSound(s, CloseStore(s, a), auction, users);
  }

  lemma CloseTablesSound(s: Store, t: Store, auction: nat, users: seq<User>)
    requires Sound(s) && Exists(s.auctions, auction) && t.users == users && |users| == |s.users|
    requires t.auctions == s.auctions[auction - 1 := s.auctions[auction - 1].(status := Closed)]
    requires forall i :: 0 <= i < |users| ==>
      users[i].id == i + 1 && users[i].wallet.hold == Escrowed(t.auctions, i + 1)
      && users[i].wallet.hold <= users[i].wallet.balance
    ensures Sound(t)
  {
    forall i | 0 <= i < |t.auctions| ensures GoodAuction(t, i) {
      assert GoodAuction(s, i);
    }
  }

  /** A guarded update that leaves the hold alone keeps the table sound. */
  lemma BalanceMoveKeepsSound(s: Store, id: nat, amount: int)
    requires Sound(s)
    ensures Sound(s.(users := ApplyDelta(s.users, id, amount, 0)))
  {
    var t := s.(users := ApplyDelta(s.users, id, amount, 0));
    forall i | 0 <= i < |t.users| ensures GoodUser(t, i) {
      assert GoodUser(s, i);
      SharesNonneg(s, i + 1);
    }
    forall i | 0 <= i < |t.auctions| ensures GoodAuction(t, i) {
      assert GoodAuction(s, i);
    }
  }

  /** Soundness does not look at bids, disputes or the log. */
  lemma SoundFrame(s: Store, t: Store)
    requires Sound(s) && t.users == s.users && t.auctions == s.auctions
    ensures Sound(t)
  {
    forall i | 0 <= i < |t.users| ensures GoodUser(t, i) {
      assert GoodUser(s, i);
    }
    forall i | 0 <= i < |t.auctions| ensures GoodAuction(t, i) {
      assert GoodAuction(s, i);
    }
  }

  lemma RefundKeepsSound(s: Store, dispute: nat, a: Auction)
    requires Sound(s)
    ensures Sound(Refund(s, dispute, a))
  {
    var s1 := s.(log := s.log + [WalRefund(dispute, a.id, a.leader, a.seller, a.currentBid)]);
    SoundFrame(s, s1);
    BalanceMoveKeepsSound(s1, a.leader, a.currentBid);
    var s2 := CreditWallet(s1, a.leader, a.currentBid);
    SoundFrame(s1.(users := s2.users), s2);
    BalanceMoveKeepsSound(s2, a.seller, -a.currentBid);
    SoundFrame(s2.(users := ApplyDelta(s2.users, a.seller, -a.currentBid, 0)), CreditWallet(s2, a.seller, -a.currentBid));
    SoundFrame(s2, s2.(log := s2.log + [RefundAnomaly]));
  }

  /** Changing the status of an auction that is not open, to one that is not open. */
  lemma RelabelKeepsSound(s: Store, auction: nat, status: AuctionStatus)
    requires Sound(s) && Exists(s.auctions, auction)
    requires s.auctions[auction - 1].status != Open && status != Open
    ensures Sound(s.(auctions := s.auctions[auction - 1 := s.auctions[auction - 1].(status := status)]))
  {
    var a := s.auctions[auction - 1].(status := status);
    var t := s.(auctions := s.auctions[auction - 1 := a]);
    forall i | 0 <= i < |t.users| ensures GoodUser(t, i) {
      assert GoodUser(s, i);
      EscrowedUpdate(s.auctions, auction - 1, a, i + 1);
    }
    forall i | 0 <= i < |t.auctions| ensures GoodAuction(t, i) {
      assert GoodAuction(s, i);
    }
  }

  lemma CreateKeepsSound(s: Store, a: Auction)
    requires Sound(s) && a.id == |s.auctions| + 1 && Exists(s.users, a.seller)
    requires a.leader == 0 && 0 < a.startPrice == a.currentBid
    ensures Sound(s.(auctions := s.auctions + [a]))
  {
    var t := s.(auctions := s.auctions + [a]);
    forall i | 0 <= i < |t.users| ensures GoodUser(t, i) {
      assert GoodUser(s, i);
      SumOfAppend(s.auctions, a, ShareOf(i + 1));
    }
    forall i | 0 <= i < |t.auctions| ensures GoodAuction(t, i) {
      if i < |s.auctions| { assert GoodAuction(s, i); }
    }
  }

  /** A new user leads nothing. */
  lemma AddUserKeepsSound(s: Store, u: User)
    requires Sound(s) && u.id == |s.users| + 1 && u.wallet == Wallet(0, 0)
    ensures Sound(s.(users := s.users + [u]))
  {
    var t := s.(users := s.users + [u]);
    forall i | 0 <= i < |s.auctions| ensures GoodAuction(t, i) && ShareOf(u.id)(s.auctions[i]) == 0 {
      assert GoodAuction(s, i);
    }
    SumOfZero(s.auctions, ShareOf(u.id));
    forall i | 0 <= i < |t.users| ensures GoodUser(t, i) {
      if i < |s.users| { assert GoodUser(s, i); }
    }
  }

  /** Administration changes a user record but not its wallet. */
  lemma AdminKeepsSound(s: Store, target: nat, u: User)
    requires Sound(s) && Exists(s.users, target)
    requires u.id == target && u.wallet == s.users[target - 1].wallet
    ensures Sound(s.(users := s.users[target - 1 := u]))
  {
    var t := s.(users := s.users[target - 1 := u]);
    forall i | 0 <= i < |t.users| ensures GoodUser(t, i) {
      assert GoodUser(s, i);
    }
    forall i | 0 <= i < |t.auctions| ensures GoodAuction(t, i) {
      assert GoodAuction(s, i);
    }
  }

  lemma AdminEventKeepsSound(s: Store, e: Event)
    requires Sound(s) && (e.AddUser? || e.ChangeRole? || e.ToggleAccount? || e.DeleteUser?)
    ensures Sound(Handle(s, e).store)
  {
    var t := Handle(s, e).store;
    if t != s {
      if e.AddUser? {
        AddUserKeepsSound(s, t.users[|s.users|]);
        SoundFrame(s.(users := t.users), t);
      } else {
        assert GoodUser(s, e.target - 1);
        AdminKeepsSound(s, e.target, t.users[e.target - 1]);
        SoundFrame(s.(users := t.users), t);
      }
    }
  }

  lemma DisputeEventKeepsSound(s: Store, e: Event)
    requires Sound(s) && Disputes.Reviewed(s) && (e.FileDispute? || e.ResolveDispute?)
    ensures Sound(Handle(s, e).store)
  {
    var t := Handle(s, e).store;
    if e.FileDispute? {
      if t != s {
        RelabelKeepsSound(s, e.auction, Disputed);
        SoundFrame(s.(auctions := t.auctions), t);
      }
    } else {
      ResolveKeepsSound(s, e);
    }
  }

  lemma ResolveKeepsSound(s: Store, e: Event)
    requires Sound(s) && Disputes.Reviewed(s) && e.ResolveDispute?
    ensures Sound(Handle(s, e).store)
  {
    var t := Handle(s, e).store;
    if e.verdict != DisputeOpen && Exists(s.disputes, e.dispute) && s.disputes[e.dispute - 1].status == DisputeOpen {
      var d := s.disputes[e.dispute - 1];
      var s1 := s.(disputes := s.disputes[e.dispute - 1 := d.(status := e.verdict, resolvedBy := e.moderator)]);
      SoundFrame(s, s1);
      if Exists(s.auctions, d.auction) {
        var a := s.auctions[d.auction - 1];
        RefundKeepsSound(s1, e.dispute, a);
        var s2 := if e.verdict == DisputeResolved then Refund(s1, e.dispute, a)
                  else s1.(auctions := s1.auctions[d.auction - 1 := a.(status := Closed)]);
        Disputes.LiveMeansDisputed(s, e.dispute - 1);
        RelabelKeepsSound(s1, d.auction, Closed);
        SoundFrame(s2, t);
      }
    }
  }

  lemma TradeEventKeepsSound(s: Store, e: Event)
    requires Sound(s) && Served(s, e)
    requires e.Deposit? || e.CreateAuction? || e.PlaceBid? || e.CloseAuction? || e.Expire?
    ensures Sound(Handle(s, e).store)
  {
    var t := Handle(s, e).store;
    if e.Deposit? {
      BalanceMoveKeepsSound(s, e.user, e.amount);
      SoundFrame(s.(users := ApplyDelta(s.users, e.user, e.amount, 0)), CreditWallet(s, e.user, e.amount));
    } else if e.CreateAuction? {
      if t != s {
        CreateKeepsSound(s, t.auctions[|s.auctions|]);
        SoundFrame(s.(auctions := t.auctions), t);
      }
    } else if e.PlaceBid? {
      if BidAccepted(s, e.bidder, e.auction, e.amount) {
        BidKeepsSound(s, e.bidder, e.auction, e.amount);
      }
    } else if t != s && Exists(s.auctions, e.auction) && s.auctions[e.auction - 1].status == Open {
      CloseKeepsSound(s, e.auction);
      SoundFrame(CloseStore(s, s.auctions[e.auction - 1]), t);
    }
  }

  lemma StepKeepsSound(s: Store, e: Event)
    requires Sound(s) && Disputes.Reviewed(s)
    ensures Sound(Step(s, e).store) && Disputes.Reviewed(Step(s, e).store)
  {
    Disputes.StepKeepsReviewed(s, e);
    if Served(s, e) {
      match e
      case AddUser(_, _) => AdminEventKeepsSound(s, e);
      case ChangeRole(_, _) => AdminEventKeepsSound(s, e);
      case ToggleAccount(_, _, _) => AdminEventKeepsSound(s, e);
      case DeleteUser(_) => AdminEventKeepsSound(s, e);
      case FileDispute(_, _) => DisputeEventKeepsSound(s, e);
      case ResolveDispute(_, _, _) => DisputeEventKeepsSound(s, e);
      case _ => TradeEventKeepsSound(s, e);
    }
  }

  lemma {:induction false} RunKeepsSound(s: Store, es: seq<Event>)
    requires Sound(s) && Disputes.Reviewed(s)
    ensures Sound(Exec(s, es)) && Disputes.Reviewed(Exec(s, es))
  {
    if es != [] {
      RunKeepsSound(s, es[..|es| - 1]);
      StepKeepsSound(Exec(s, es[..|es| - 1]), es[|es| - 1]);
    }
  }

  /** A store some run reaches from the seeded data directory. */
  ghost predicate Reachable(s: Store) {
    exists es :: s == Exec(SEED, es)
  }

  lemma ReachableSound(s: Store)
    requires Reachable(s)
    ensures Sound(s) && Disputes.Reviewed(s)
  {
    var es :| s == Exec(SEED, es);
    assert GoodUser(SEED, 0);
    RunKeepsSound(SEED, es);
  }

  /** In every reachable store each hold is the escrow of the open auctions the user leads,
      and lies between zero and the balance. */
  lemma EscrowHolds(s: Store, user: nat)
    requires Reachable(s) && Exists(s.users, user)
    ensures var w := s.users[user - 1].wallet;
      w.hold == Escrowed(s.auctions, user) && 0 <= w.hold <= w.balance
  {
    ReachableSound(s);
    assert GoodUser(s, user - 1);
    SharesNonneg(s, user);
  }

  /** In every reachable store a request that is refused leaves the whole directory as it was, log included. */
  lemma RefusalChangesNothing(s: Store, e: Event)
    requires Reachable(s)
    ensures Step(s, e).status != ERR_OK ==> Step(s, e).store == s
  {
    ReachableSound(s);
    if Served(s, e) {
      if e.Deposit? {
        assert GoodUser(s, e.user - 1);
        SharesNonneg(s, e.user);
      } else if e.ResolveDispute? && Disputes.Decides(s, e.dispute, e.verdict) {
        Disputes.LiveMeansDisputed(s, e.dispute - 1);
      }
    }
  }
}
