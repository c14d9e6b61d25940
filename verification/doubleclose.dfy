/** Two closers of one auction: timer and manual close both read the record before either writes it. */
module DoubleClose {
  import opened Records
  import opened Sums
  import opened Wallets
  import opened Events
  import opened Escrow
  import opened Ledger
  import opened Stage
  import Disputes

  // ---------- a close in two steps ----------

  /** Any number of closers at work, each at an auction of its own choice; `seen` is the record a closer has
      read and found open, until it settles. */
  datatype Race = Race(db: Store, seen: seq<Option<Auction>>)

  datatype CloserStep = Look(who: nat) | Settles(who: nat)

  function RaceNext(lots: seq<nat>, r: Race, step: CloserStep): (z: Race)
    requires |r.seen| == |lots|
    ensures |z.seen| == |lots|
  {
    match step
    case Look(c) =>
      if c < |lots| && Exists(r.db.auctions, lots[c]) && r.db.auctions[lots[c] - 1].status == Open then
        r.(seen := r.seen[c := Some(r.db.auctions[lots[c] - 1])])
      else r
    case Settles(c) =>
      if c < |lots| && r.seen[c].Some? then Race(CloseInternal(r.db, r.seen[c].value), r.seen[c := None])
      else r
  }

  function RaceRun(lots: seq<nat>, r: Race, steps: seq<CloserStep>): (z: Race)
    requires |r.seen| == |lots|
    ensures |z.seen| == |lots|
    decreases |steps|
  {
    if steps == [] then r else RaceRun(lots, RaceNext(lots, r, steps[0]), steps[1..])
  }

  lemma FourSteps(lots: seq<nat>, r: Race, a: CloserStep, b: CloserStep, c: CloserStep, d: CloserStep)
    requires |r.seen| == |lots|
    ensures RaceRun(lots, r, [a, b, c, d])
         == RaceNext(lots, RaceNext(lots, RaceNext(lots, RaceNext(lots, r, a), b), c), d)
  {
    hide RaceNext;
    var r1 := RaceNext(lots, r, a);
    var r2 := RaceNext(lots, r1, b);
    var r3 := RaceNext(lots, r2, c);
    assert [a, b, c, d][1..] == [b, c, d] && [b, c, d][1..] == [c, d] && [c, d][1..] == [d] && [d][1..] == [];
    assert RaceRun(lots, r, [a, b, c, d]) == RaceRun(lots, r1, [b, c, d]) == RaceRun(lots, r2, [c, d]);
    assert RaceRun(lots, r2, [c, d]) == RaceRun(lots, r3, [d]) == RaceRun(lots, RaceNext(lots, r3, d), []);
  }

  /** A closer by itself is the atomic close, up to its closing line. */
  lemma AloneIsAtomic(s: Store, auction: nat)
    ensures var z := RaceNext([auction], RaceNext([auction], Race(s, [None]), Look(0)), Settles(0));
      z == Race(Step(s, Expire(auction)).store.(log := z.db.log), [None])
  {
    hide CloseInternal;
  }

  /** Two closers, each looking before it settles, have six orders: one does both first, or both look first. In
      the first two the auction is settled once, in the other four twice. */
  lemma SettledTwiceIff(s: Store, auction: nat, i: nat, k: nat)
    requires Sound(s) && Exists(s.auctions, auction) && s.auctions[auction - 1].status == Open && i < 2 && k < 2
    ensures var a := s.auctions[auction - 1];
      var lots, r := [auction, auction], Race(s, [None, None]);
      && RaceRun(lots, r, [Look(i), Settles(i), Look(1 - i), Settles(1 - i)]).db == CloseInternal(s, a)
      && RaceRun(lots, r, [Look(i), Look(1 - i), Settles(k), Settles(1 - k)]).db == CloseInternal(CloseInternal(s, a), a)
  {
    hide CloseInternal, RaceRun;
    var a := s.auctions[auction - 1];
    CloseReady(s, auction);
    Disputes.CloseTables(s, a);
    var lots, r := [auction, auction], Race(s, [None, None]);
    FourSteps(lots, r, Look(i), Settles(i), Look(1 - i), Settles(1 - i));
    FourSteps(lots, r, Look(i), Look(1 - i), Settles(k), Settles(1 - k));
  }

  // ---------- what the second settlement does ----------

  /** What the second settlement makes of the wallets that the first one left. */
  function AgainUsers(users: seq<User>, a: Auction): seq<User> {
    if Sells(a) then ApplyDelta(ApplyDelta(users, a.leader, -a.currentBid, -a.currentBid), a.seller, a.currentBid, 0)
    else if a.leader != 0 then ApplyDelta(users, a.leader, 0, -a.currentBid)
    else users
  }

  lemma AgainTables(s: Store, auction: nat)
    requires Sound(s) && Exists(s.auctions, auction) && s.auctions[auction - 1].status == Open
    ensures var a := s.auctions[auction - 1];
      var t := CloseInternal(CloseInternal(s, a), a);
      && LeaderHolds(s.users, a) && Exists(s.users, a.seller)
      && t.users == AgainUsers(CloseUsers(s.users, a), a)
      && t.auctions == CloseInternal(s, a).auctions == s.auctions[auction - 1 := a.(status := Closed)]
  {
    hide Sound, ApplyDelta, MarkWinning;
    var a := s.auctions[auction - 1];
    CloseReady(s, auction);
    CloseEffect(s, a);
    Disputes.CloseTables(CloseInternal(s, a), a);
    AgainWallets(CloseInternal(s, a), a);
  }

  lemma AgainWallets(s: Store, a: Auction)
    ensures CloseInternal(s, a).users == AgainUsers(s.users, a)
  {
    hide ApplyDelta, MarkWinning;
  }

  /** The winner can be charged a second time. */
  predicate ChargedAgain(users: seq<User>, a: Auction)
    requires Exists(users, a.leader)
  {
    a.leader == a.seller || users[a.leader - 1].wallet.balance >= 2 * a.currentBid
  }

  /** The wallets after two settlements of one sale. */
  lemma TwiceWallets(users: seq<User>, a: Auction, i: nat)
    requires LeaderHolds(users, a) && Exists(users, a.seller) && 0 < a.currentBid && Sells(a)
    requires Solvent(users[a.seller - 1].wallet) && i < |users|
    ensures var after := AgainUsers(CloseUsers(users, a), a);
      && |after| == |users|
      && after[i].wallet.balance == users[i].wallet.balance
           - (if i + 1 == a.leader then (if ChargedAgain(users, a) then 2 else 1) * a.currentBid else 0)
           + (if i + 1 == a.seller then 2 * a.currentBid else 0)
  {}

  /** Which of the second settlement's calls pass. */
  lemma AgainAccepted(users: seq<User>, a: Auction)
    requires LeaderHolds(users, a) && Exists(users, a.seller) && 0 < a.currentBid && Sells(a)
    requires Solvent(users[a.seller - 1].wallet)
    ensures var once := CloseUsers(users, a);
      var charged := ApplyDelta(once, a.leader, -a.currentBid, -a.currentBid);
      && (Accepts(once, a.leader, -a.currentBid, -a.currentBid) <==> ChargedAgain(users, a))
      && Accepts(charged, a.seller, a.currentBid, 0)
  {}

  /** The total after the second settlement, by which of its calls pass. */
  lemma AgainMoves(once: seq<User>, a: Auction, charged: bool)
    requires Sells(a) ==>
      && (Accepts(once, a.leader, -a.currentBid, -a.currentBid) <==> charged)
      && Accepts(ApplyDelta(once, a.leader, -a.currentBid, -a.currentBid), a.seller, a.currentBid, 0)
    ensures SumOf(AgainUsers(once, a), BalanceOf())
         == SumOf(once, BalanceOf()) + if Sells(a) && !charged then a.currentBid else 0
  {
    hide ApplyDelta, Accepts;
    if Sells(a) {
      DeltaTotal(once, a.leader, -a.currentBid, -a.currentBid);
      DeltaTotal(ApplyDelta(once, a.leader, -a.currentBid, -a.currentBid), a.seller, a.currentBid, 0);
    } else if a.leader != 0 {
      DeltaTotal(once, a.leader, 0, -a.currentBid);
    }
  }

  lemma AgainTotal(users: seq<User>, a: Auction)
    requires LeaderHolds(users, a) && Exists(users, a.seller) && 0 < a.currentBid
    requires Solvent(users[a.seller - 1].wallet)
    ensures SumOf(AgainUsers(CloseUsers(users, a), a), BalanceOf())
         == SumOf(CloseUsers(users, a), BalanceOf()) + if Sells(a) && !ChargedAgain(users, a) then a.currentBid else 0
  {
    hide ApplyDelta, Accepts, CloseUsers, ChargedAgain, AgainUsers;
    if Sells(a) {
      AgainAccepted(users, a);
    }
    AgainMoves(CloseUsers(users, a), a, Sells(a) && ChargedAgain(users, a));
  }

  /** "No money created or lost": a sale settled by two closers at once pays its seller twice. It keeps the total
      exactly when the winner could be charged twice too, and otherwise makes up the price. */
  lemma DoubleCloseConservesIff(s: Store, auction: nat)
    requires Sound(s) && Exists(s.auctions, auction) && s.auctions[auction - 1].status == Open
    ensures var a := s.auctions[auction - 1];
      var t := CloseInternal(CloseInternal(s, a), a);
      && (Sells(a) ==> Exists(s.users, a.leader))
      && TotalBalance(t) == TotalBalance(s) + (if Sells(a) && !ChargedAgain(s.users, a) then a.currentBid else 0)
      && (TotalBalance(t) == TotalBalance(s) <==> (Sells(a) ==> ChargedAgain(s.users, a)))
  {
    hide Sound, ApplyDelta, MarkWinning, CloseInternal, AgainUsers, CloseUsers, ChargedAgain;
    var a := s.auctions[auction - 1];
    CloseReady(s, auction);
    AgainTables(s, auction);
    AgainTotal(s.users, a);
    CloseTotal(s, a);
  }

  /** And who pays: the seller gets the price twice, and the winner is charged twice if the balance allows it. */
  lemma DoubleCloseCharges(s: Store, auction: nat, i: nat)
    requires Sound(s) && Exists(s.auctions, auction) && s.auctions[auction - 1].status == Open
    requires Sells(s.auctions[auction - 1]) && i < |s.users|
    ensures var a := s.auctions[auction - 1];
      var t := CloseInternal(CloseInternal(s, a), a);
      && Exists(s.users, a.leader) && |t.users| == |s.users|
      && t.users[i].wallet.balance == s.users[i].wallet.balance
           - (if i + 1 == a.leader then (if ChargedAgain(s.users, a) then 2 else 1) * a.currentBid else 0)
           + (if i + 1 == a.seller then 2 * a.currentBid else 0)
  {
    hide Sound, CloseInternal, AgainUsers, CloseUsers, ChargedAgain;
    var a := s.auctions[auction - 1];
    CloseReady(s, auction);
    AgainTables(s, auction);
    TwiceWallets(s.users, a, i);
  }

  lemma SoldTwiceHolds(users: seq<User>, a: Auction, i: nat)
    requires LeaderHolds(users, a) && Exists(users, a.seller) && 0 < a.currentBid && Sells(a)
    requires i < |users| && Solvent(users[i].wallet) && Solvent(users[a.seller - 1].wallet)
    ensures var once := CloseUsers(users, a);
      var after := AgainUsers(once, a);
      && |after| == |once| == |users| && after[i].id == users[i].id && Solvent(after[i].wallet)
      && (after[i].wallet.hold == once[i].wallet.hold
          <==> i + 1 != a.leader || users[i].wallet.hold == a.currentBid || !ChargedAgain(users, a))
  {
    AgainAccepted(users, a);
  }

  lemma UnsoldTwiceHolds(users: seq<User>, a: Auction, i: nat)
    requires LeaderHolds(users, a) && Exists(users, a.seller) && 0 < a.currentBid && !Sells(a)
    requires i < |users| && Solvent(users[i].wallet)
    ensures var once := CloseUsers(users, a);
      var after := AgainUsers(once, a);
      && |after| == |once| == |users| && after[i].id == users[i].id && Solvent(after[i].wallet)
      && (after[i].wallet.hold == once[i].wallet.hold <==> i + 1 != a.leader || users[i].wallet.hold == a.currentBid)
  {}

  /** The second settlement leaves the hold of the leader alone exactly when it is refused or there is nothing
      left to take. */
  lemma TwiceHolds(users: seq<User>, a: Auction, i: nat)
    requires LeaderHolds(users, a) && Exists(users, a.seller) && 0 < a.currentBid
    requires Solvent(users[a.seller - 1].wallet) && i < |users| && Solvent(users[i].wallet)
    ensures var once := CloseUsers(users, a);
      var after := AgainUsers(once, a);
      && |after| == |once| == |users| && after[i].id == users[i].id && Solvent(after[i].wallet)
      && (after[i].wallet.hold == once[i].wallet.hold
          <==> i + 1 != a.leader || users[i].wallet.hold == a.currentBid || (Sells(a) && !ChargedAgain(users, a)))
  {
    hide AgainUsers, CloseUsers, Solvent;
    if Sells(a) {
      SoldTwiceHolds(users, a, i);
    } else {
      UnsoldTwiceHolds(users, a, i);
    }
  }

  /** The holds are still the escrow exactly when there was no leader, the leader led nothing else, or the second
      charge is refused. Otherwise the money on hold for another auction is taken. */
  lemma DoubleCloseSoundIff(s: Store, auction: nat)
    requires Sound(s) && Exists(s.auctions, auction) && s.auctions[auction - 1].status == Open
    ensures var a := s.auctions[auction - 1];
      && (a.leader != 0 ==> Exists(s.users, a.leader))
      && (Sound(CloseInternal(CloseInternal(s, a), a))
          <==> a.leader == 0 || s.users[a.leader - 1].wallet.hold == a.currentBid
               || (Sells(a) && !ChargedAgain(s.users, a)))
  {
    hide Sound, CloseInternal, AgainUsers, CloseUsers, ChargedAgain, Solvent;
    var a := s.auctions[auction - 1];
    CloseKeepsSound(s, auction);
    AgainTables(s, auction);
    var once, t := CloseInternal(s, a), CloseInternal(CloseInternal(s, a), a);
    forall i | 0 <= i < |s.users|
      ensures |t.users| == |once.users| == |s.users| && t.users[i].id == i + 1 && Solvent(t.users[i].wallet)
      ensures once.users[i].wallet.hold == Escrowed(once.auctions, i + 1)
      ensures t.users[i].wallet.hold == once.users[i].wallet.hold
        <==> i + 1 != a.leader || s.users[i].wallet.hold == a.currentBid || (Sells(a) && !ChargedAgain(s.users, a))
    {
      HoldIsEscrow(s, i + 1);
      TwiceHolds(s.users, a, i);
      HoldIsEscrow(once, i + 1);
    }
    TwiceHolds(s.users, a, a.seller - 1) by { HoldIsEscrow(s, a.seller); }
    SoundAgainIff(once, t);
  }

  lemma HoldIsEscrow(s: Store, user: nat)
    requires Sound(s) && Exists(s.users, user)
    ensures var u := s.users[user - 1];
      u.id == user && u.wallet.hold == Escrowed(s.auctions, user) && Solvent(u.wallet)
  {
    assert GoodUser(s, user - 1);
    SharesNonneg(s, user);
  }

  /** Over the same auctions, solvent wallets are sound exactly when no hold changed. */
  lemma SoundAgainIff(s: Store, t: Store)
    requires Sound(s) && t.auctions == s.auctions && |t.users| == |s.users|
    requires forall i :: 0 <= i < |t.users| ==> t.users[i].id == i + 1 && Solvent(t.users[i].wallet)
    ensures Sound(t) <==> forall i :: 0 <= i < |t.users| ==> t.users[i].wallet.hold == s.users[i].wallet.hold
  {
    forall i | 0 <= i < |s.users| ensures s.users[i].wallet.hold == Escrowed(s.auctions, i + 1) {
      assert GoodUser(s, i);
    }
    if forall i :: 0 <= i < |t.users| ==> t.users[i].wallet.hold == s.users[i].wallet.hold {
      forall i | 0 <= i < |t.auctions| ensures GoodAuction(t, i) {
        assert GoodAuction(s, i);
      }
    } else if Sound(t) {
      forall i | 0 <= i < |t.users| ensures t.users[i].wallet.hold == s.users[i].wallet.hold {
        assert GoodUser(t, i);
      }
    }
  }

  // ---------- from the seed ----------

  const BIG_BID := PlaceBid(2, 1, 60)

  /** From the seed, by requests the role gates let through, to an open auction whose double settlement makes up
      sixty. */
  lemma DoubleCloseMints()
    ensures RunGated(SEED, STAGE[..4]) && Gated(Exec(SEED, STAGE[..4]), BIG_BID)
    ensures var s := Step(Exec(SEED, STAGE[..4]), BIG_BID).store;
      && Sound(s) && Exists(s.auctions, 1) && s.auctions[0].status == Open
      && var a := s.auctions[0];
      && a.currentBid == 60
      && TotalBalance(CloseInternal(CloseInternal(s, a), a)) == TotalBalance(s) + 60
  {
    hide Exec, Step, Sound, Disputes.Reviewed, CloseInternal, TotalBalance;
    StageLot();
    StageGated();
    assert forall k :: 0 <= k < 4 ==> STAGE[..4][..k] == STAGE[..k];
    var s4 := Exec(SEED, STAGE[..4]);
    ReachableSound(s4);
    assert GatedBy(s4, BIG_BID, 2);
    BidStep(s4, BIG_BID);
    DoubleCloseConservesIff(Step(s4, BIG_BID).store, 1);
  }
}
