/** Exactly when a sanity guard of the wallet fires. */
module Guards {
  import opened Records
  import opened Wallets
  import opened Events
  import opened Escrow
  import opened Ledger
  import opened Stage
  import Disputes

  /** A refund's calls all pass: there is a leader to credit, and the seller's debit is either not asked for or
      covered by what is not on hold. */
  predicate RefundQuiet(users: seq<User>, a: Auction) {
    && a.leader != 0
    && (a.leader == a.seller
        || (Exists(users, a.seller)
            && (users[a.seller - 1].wallet.balance < a.currentBid || a.currentBid <= users[a.seller - 1].wallet.Available())))
  }

  /** The event makes a wallet call that a guard refuses or that finds no user. */
  predicate Trips(s: Store, e: Event) {
    && e.ResolveDispute? && Served(s, e) && e.verdict == DisputeResolved && Disputes.Decides(s, e.dispute, e.verdict)
    && Exists(s.auctions, s.disputes[e.dispute - 1].auction)
    && !RefundQuiet(s.users, s.auctions[s.disputes[e.dispute - 1].auction - 1])
  }

  /** What a refund logs. */
  function RefundEntries(s: Store, dispute: nat, a: Auction): seq<Entry>
    requires Exists(s.users, a.seller)
  {
    var back := ApplyDelta(s.users, a.leader, a.currentBid, 0);
    [WalRefund(dispute, a.id, a.leader, a.seller, a.currentBid), Credit(a.leader, a.currentBid)]
    + [if Exists(back, a.seller) && back[a.seller - 1].wallet.balance >= a.currentBid then Credit(a.seller, -a.currentBid)
       else RefundAnomaly]
  }

  lemma RefundLogs(s: Store, dispute: nat, a: Auction)
    requires Exists(s.users, a.seller)
    ensures Refund(s, dispute, a).log == s.log + RefundEntries(s, dispute, a)
  {
    var entries := RefundEntries(s, dispute, a);
    assert s.log + [entries[0]] + [entries[1]] + [entries[2]] == s.log + entries;
  }

  /** The three calls, one by one. */
  lemma RefundEntriesQuietIff(s: Store, dispute: nat, a: Auction)
    requires Exists(s.users, a.seller) && a.leader <= |s.users| && 0 < a.currentBid
    requires Solvent(s.users[a.seller - 1].wallet) && (a.leader != 0 ==> Solvent(s.users[a.leader - 1].wallet))
    ensures AllQuiet(s.users, RefundEntries(s, dispute, a)) <==> RefundQuiet(s.users, a)
  {
    var entries := RefundEntries(s, dispute, a);
    ApplyOne(s.users, [], entries[0]);
    ApplyOne(s.users, [entries[0]], entries[1]);
    ApplyOne(s.users, [entries[0]] + [entries[1]], entries[2]);
    assert [] + [entries[0]] == [entries[0]];
    assert [entries[0]] + [entries[1]] + [entries[2]] == entries;
  }

  lemma ResolveLogs(s: Store, e: Event)
    requires Sound(s) && Disputes.Reviewed(s)
    requires e.ResolveDispute? && Served(s, e) && Disputes.Decides(s, e.dispute, e.verdict)
    ensures Exists(s.auctions, s.disputes[e.dispute - 1].auction)
    ensures var a := s.auctions[s.disputes[e.dispute - 1].auction - 1];
      && Exists(s.users, a.seller) && a.leader <= |s.users| && 0 < a.currentBid
      && NewEntries(s, e) == (if e.verdict == DisputeResolved then RefundEntries(s, e.dispute, a) else [])
                             + [DisputeDecided(e.dispute, e.verdict, e.moderator)]
  {
    hide Refund, RefundEntries, NewEntries;
    Disputes.LiveMeansDisputed(s, e.dispute - 1);
    var d := s.disputes[e.dispute - 1];
    assert GoodAuction(s, d.auction - 1);
    var a := s.auctions[d.auction - 1];
    var s1 := s.(disputes := Put(s.disputes, e.dispute, d.(status := e.verdict, resolvedBy := e.moderator)));
    RefundLogs(s1, e.dispute, a);
    var entries := if e.verdict == DisputeResolved then RefundEntries(s1, e.dispute, a) else [];
    assert RefundEntries(s1, e.dispute, a) == RefundEntries(s, e.dispute, a) by { SameEntries(s, s1, e.dispute, a); }
    assert s.log + entries + [DisputeDecided(e.dispute, e.verdict, e.moderator)]
        == s.log + (entries + [DisputeDecided(e.dispute, e.verdict, e.moderator)]);
    assert Step(s, e).store.log == s.log + (entries + [DisputeDecided(e.dispute, e.verdict, e.moderator)]);
    NewEntriesAre(s, e, entries + [DisputeDecided(e.dispute, e.verdict, e.moderator)]);
  }

  lemma SameEntries(s: Store, t: Store, dispute: nat, a: Auction)
    requires s.users == t.users && Exists(s.users, a.seller)
    ensures RefundEntries(s, dispute, a) == RefundEntries(t, dispute, a)
  {}

  lemma ResolveQuietIff(s: Store, e: Event)
    requires Sound(s) && Disputes.Reviewed(s) && e.ResolveDispute?
    ensures AllQuiet(s.users, NewEntries(s, e)) <==> !Trips(s, e)
  {
    hide Sound, Disputes.Reviewed, NewEntries, RefundEntries, RefundQuiet, Step;
    if Served(s, e) && Disputes.Decides(s, e.dispute, e.verdict) {
      ResolveLogs(s, e);
      var a := s.auctions[s.disputes[e.dispute - 1].auction - 1];
      AllSolvent(s, a.seller);
      AllSolvent(s, a.leader);
      var note := DisputeDecided(e.dispute, e.verdict, e.moderator);
      if e.verdict == DisputeResolved {
        RefundEntriesQuietIff(s, e.dispute, a);
        ApplyOne(s.users, RefundEntries(s, e.dispute, a), note);
      } else {
        ApplyOne(s.users, [], note);
      }
    } else {
      NothingLogged(s, e);
    }
  }

  lemma NothingLogged(s: Store, e: Event)
    requires e.ResolveDispute? && !(Served(s, e) && Disputes.Decides(s, e.dispute, e.verdict))
    ensures NewEntries(s, e) == []
  {}

  lemma AllSolvent(s: Store, user: nat)
    requires Sound(s)
    ensures Exists(s.users, user) ==> Solvent(s.users[user - 1].wallet)
  {
    if Exists(s.users, user) {
      assert GoodUser(s, user - 1);
      SharesNonneg(s, user);
    }
  }

  lemma DepositQuiet(s: Store, e: Event)
    requires Sound(s) && e.Deposit?
    ensures AllQuiet(s.users, NewEntries(s, e))
  {
    if Served(s, e) && e.amount > 0 {
      AllSolvent(s, e.user);
      NewEntriesAre(s, e, [Credit(e.user, e.amount)]);
      ApplyOne(s.users, [], Credit(e.user, e.amount));
      assert [] + [Credit(e.user, e.amount)] == [Credit(e.user, e.amount)];
    } else {
      NewEntriesAre(s, e, []);
    }
  }

  predicate RecordEvent(e: Event) {
    e.AddUser? || e.ChangeRole? || e.ToggleAccount? || e.DeleteUser? || e.CreateAuction? || e.FileDispute?
  }

  /** The other handlers log at most one line, and it calls no wallet. */
  lemma RecordLogs(s: Store, e: Event)
    requires RecordEvent(e)
    ensures var log := Step(s, e).store.log;
      log == s.log || (|log| == |s.log| + 1 && log == s.log + [log[|s.log|]] && CallOf(log[|s.log|]).None?)
  {
    hide AdminCount, Taken, Put;
  }

  lemma RecordQuiet(s: Store, e: Event)
    requires RecordEvent(e)
    ensures AllQuiet(s.users, NewEntries(s, e))
  {
    hide Step, RecordEvent;
    RecordLogs(s, e);
    var log := Step(s, e).store.log;
    if log == s.log {
      NewEntriesAre(s, e, []);
    } else {
      NewEntriesAre(s, e, [log[|s.log|]]);
      ApplyOne(s.users, [], log[|s.log|]);
      assert [] + [log[|s.log|]] == [log[|s.log|]];
    }
  }

  /** "Should never trigger if logic is correct": in every reachable store the wallet calls of an event pass all
      guards unless it is a refund that either has nobody to credit, or debits a seller whose balance covers the
      amount only with money that is on hold. */
  lemma GuardsFireIff(s: Store, e: Event)
    requires Reachable(s)
    ensures AllQuiet(s.users, NewEntries(s, e)) <==> !Trips(s, e)
  {
    hide AllQuiet, NewEntries, Step, Sound, Disputes.Reviewed;
    ReachableSound(s);
    match e
    case PlaceBid(_, _, _) => GuardsAreDead(s, e);
    case CloseAuction(_, _, _) => GuardsAreDead(s, e);
    case Expire(_) => GuardsAreDead(s, e);
    case ResolveDispute(_, _, _) => ResolveQuietIff(s, e);
    case Deposit(_, _) => DepositQuiet(s, e);
    case _ => RecordQuiet(s, e);
  }

  /** The debit is asked for and logged, and nothing is taken from the seller. */
  predicate DebitRefused(s: Store, t: Store, a: Auction) {
    && Exists(s.users, a.seller) && Exists(t.users, a.seller) && s.log <= t.log
    && Credit(a.seller, -a.currentBid) in t.log[|s.log|..]
    && t.users[a.seller - 1].wallet.balance
       == s.users[a.seller - 1].wallet.balance + (if a.seller == a.leader then a.currentBid else 0)
  }

  /** The second kind by itself: the anomaly branch is not taken, and the guard refuses what it lets through. */
  lemma HoldGuardFiresIff(s: Store, moderator: nat, dispute: nat)
    requires Sound(s) && Disputes.Reviewed(s)
    requires Exists(s.users, moderator) && Disputes.Decides(s, dispute, DisputeResolved)
    ensures Exists(s.auctions, s.disputes[dispute - 1].auction)
    ensures var a := s.auctions[s.disputes[dispute - 1].auction - 1];
      && Exists(s.users, a.seller)
      && (DebitRefused(s, Step(s, ResolveDispute(moderator, dispute, DisputeResolved)).store, a)
          <==> a.seller != a.leader
               && s.users[a.seller - 1].wallet.Available() < a.currentBid <= s.users[a.seller - 1].wallet.balance)
  {
    hide Sound, Disputes.Reviewed, Step, Refund, RefundEntries, DebitRefused;
    var e := ResolveDispute(moderator, dispute, DisputeResolved);
    ResolveLogs(s, e);
    var a := s.auctions[s.disputes[dispute - 1].auction - 1];
    AllSolvent(s, a.seller);
    AllSolvent(s, a.leader);
    var t := Step(s, e).store;
    StepLogs(s, e);
    RefundUsers(s, moderator, dispute, a);
    RefusedIff(s, t, dispute, a, DisputeDecided(dispute, DisputeResolved, moderator));
  }

  lemma StepLogs(s: Store, e: Event)
    requires e.ResolveDispute? && NewEntries(s, e) != []
    ensures Step(s, e).store.log == s.log + NewEntries(s, e)
  {
    hide Step;
  }

  lemma RefundUsers(s: Store, moderator: nat, dispute: nat, a: Auction)
    requires Exists(s.users, moderator) && Disputes.Decides(s, dispute, DisputeResolved)
    requires Exists(s.auctions, s.disputes[dispute - 1].auction) && a == s.auctions[s.disputes[dispute - 1].auction - 1]
    requires Exists(s.users, a.seller)
    ensures var t := Step(s, ResolveDispute(moderator, dispute, DisputeResolved)).store;
      var back := ApplyDelta(s.users, a.leader, a.currentBid, 0);
      && |back| == |s.users|
      && t.users == if back[a.seller - 1].wallet.balance >= a.currentBid then ApplyDelta(back, a.seller, -a.currentBid, 0)
                    else back
  {
    assert |ApplyDelta(s.users, a.leader, a.currentBid, 0)| == |s.users|;
    hide ApplyDelta;
  }

  lemma RefusedIff(s: Store, t: Store, dispute: nat, a: Auction, note: Entry)
    requires Exists(s.users, a.seller) && a.leader <= |s.users| && 0 < a.currentBid && note.DisputeDecided?
    requires Solvent(s.users[a.seller - 1].wallet) && (a.leader != 0 ==> Solvent(s.users[a.leader - 1].wallet))
    requires t.log == s.log + (RefundEntries(s, dispute, a) + [note])
    requires var back := ApplyDelta(s.users, a.leader, a.currentBid, 0);
      && |back| == |s.users|
      && t.users == if back[a.seller - 1].wallet.balance >= a.currentBid then ApplyDelta(back, a.seller, -a.currentBid, 0)
                    else back
    ensures DebitRefused(s, t, a)
      <==> a.seller != a.leader
           && s.users[a.seller - 1].wallet.Available() < a.currentBid <= s.users[a.seller - 1].wallet.balance
  {
    var entries := RefundEntries(s, dispute, a) + [note];
    assert t.log[|s.log|..] == entries;
    assert entries[2] == RefundEntries(s, dispute, a)[2];
  }

  // ---------- a run in which it does ----------

  /** The seller of the disputed sale bids with the money. */
  const LATE_BID := PlaceBid(3, 2, 40)

  function BiddingSeller(): User {
    Seller(ROLE_BIDDER, 50).(wallet := Wallet(50, 40))
  }

  lemma SellerBids()
    ensures var t := Step(Exec(SEED, STAGE), LATE_BID).store;
      && t.users == [FOUNDER, Winner(50, 0), BiddingSeller()]
      && t.auctions == [LOT.(status := Disputed), Raised(NEXT_LOT, 3, 40)]
      && t.disputes == [Dispute(1, 1, 2, 0, DisputeOpen)]
      && Sound(t) && Disputes.Reviewed(t)
  {
    hide Exec, Step, Sound, Disputes.Reviewed;
    StageSet();
    ReachableSound(Exec(SEED, STAGE));
    BidStep(Exec(SEED, STAGE), LATE_BID);
  }

  /** The refund there: the winner is paid, the seller is not charged. */
  lemma RefundUnpaid(s: Store)
    requires Sound(s) && Disputes.Reviewed(s) && s.users == [FOUNDER, Winner(50, 0), BiddingSeller()]
    requires Exists(s.auctions, 1) && s.auctions[0] == LOT.(status := Disputed)
    requires Exists(s.disputes, 1) && s.disputes[0] == Dispute(1, 1, 2, 0, DisputeOpen)
    ensures var t := Step(s, REFUND).store;
      && DebitRefused(s, t, s.auctions[0]) && t.users == [FOUNDER, Winner(100, 0), BiddingSeller()]
      && TotalBalance(t) == TotalBalance(s) + 50
  {
    hide Step, Sound, Disputes.Reviewed, DebitRefused, TotalBalance;
    HoldGuardFiresIff(s, 1, 1);
    RefundUsers(s, 1, 1, s.auctions[0]);
    assert ApplyDelta(s.users, 2, 50, 0) == [FOUNDER, Winner(100, 0), BiddingSeller()];
    StepBooked(s, REFUND);
  }

  /** From the seed, by requests the role gates let through: a seller has the money, has put most of it on hold
      for another auction, and the refund pays the winner without taking anything from the seller. */
  lemma HoldGuardFires()
    ensures RunGated(SEED, STAGE) && Gated(Exec(SEED, STAGE), LATE_BID)
    ensures var s := Step(Exec(SEED, STAGE), LATE_BID).store;
      var t := Step(s, REFUND).store;
      && Gated(s, REFUND) && Trips(s, REFUND)
      && Exists(s.auctions, 1) && DebitRefused(s, t, s.auctions[0])
      && t.users == [FOUNDER, Winner(100, 0), BiddingSeller()]
      && TotalBalance(t) == TotalBalance(s) + 50
  {
    hide Exec, Step, Sound, Disputes.Reviewed, DebitRefused, TotalBalance;
    StageSet();
    StageGated();
    SellerBids();
    var s := Step(Exec(SEED, STAGE), LATE_BID).store;
    assert GatedBy(Exec(SEED, STAGE), LATE_BID, 3) && GatedBy(s, REFUND, 1);
    RefundUnpaid(s);
  }
}
