/** Settlement and refund, one disk write at a time, and what a crash between two of them leaves. */
module Crash {
  import opened Records
  import opened Sums
  import opened Wallets
  import opened Events
  import opened Escrow
  import opened Ledger
  import Disputes

  datatype DiskWrite =
    | WriteUser(id: nat, user: User)
    | WriteAuction(auction: Auction)
    | WriteBid(id: nat, bid: Bid)
    | WriteDispute(id: nat, dispute: Dispute)
    | AppendLog(entry: Entry)

  function ApplyWrite(s: Store, w: DiskWrite): Store {
    match w
    case WriteUser(id, u) => s.(users := Put(s.users, id, u))
    case WriteAuction(a) => s.(auctions := Put(s.auctions, a.id, a))
    case WriteBid(id, b) => s.(bids := Put(s.bids, id, b))
    case WriteDispute(id, d) => s.(disputes := Put(s.disputes, id, d))
    case AppendLog(e) => s.(log := s.log + [e])
  }

  /** Where a call refuses, or a record is passed over, nothing is written. */
  function Perform(s: Store, w: Option<DiskWrite>): Store {
    match w
    case None => s
    case Some(v) => ApplyWrite(s, v)
  }

  /** bids.dat when the first `n` records have passed the rewrite loop. */
  function PartlyMarked(bids: seq<Bid>, n: nat, a: Auction): seq<Bid> {
    if n <= |bids| then MarkWinning(bids[..n], a.id, a.leader) + bids[n..]
    else MarkWinning(bids, a.id, a.leader)
  }

  /** The data directory after `k` writes of a settlement. */
  function SettleAt(s: Store, a: Auction, k: nat): Store {
    var s1 := s.(auctions := Put(s.auctions, a.id, a.(status := Closed)));
    var s2 := s1.(log := s1.log + [WalSettle(a.id, a.leader, a.seller, a.currentBid)]);
    var s3 := s2.(users := ApplyDelta(s.users, a.leader, -a.currentBid, -a.currentBid));
    var s4 := s3.(log := s3.log + [Settle(a.leader, a.currentBid)]);
    var s5 := s4.(users := ApplyDelta(s3.users, a.seller, a.currentBid, 0));
    var s6 := s5.(log := s5.log + [Credit(a.seller, a.currentBid)]);
    if k == 0 then s
    else if k == 1 then s1
    else if k == 2 then s2
    else if k == 3 then s3
    else if k == 4 then s4
    else if k == 5 then s5
    else s6.(bids := PartlyMarked(s.bids, k - 6, a))
  }

  /** The data directory after `k` writes of a refund. */
  function RefundAt(s: Store, dispute: nat, a: Auction, k: nat): Store {
    var s1 := s.(log := s.log + [WalRefund(dispute, a.id, a.leader, a.seller, a.currentBid)]);
    var s2 := s1.(users := ApplyDelta(s.users, a.leader, a.currentBid, 0));
    var s3 := s2.(log := s2.log + [Credit(a.leader, a.currentBid)]);
    var pays := Exists(s.users, a.seller) && s3.users[a.seller - 1].wallet.balance >= a.currentBid;
    var s4 := if pays then s3.(users := ApplyDelta(s3.users, a.seller, -a.currentBid, 0)) else s3;
    var s5 := if pays then s4.(log := s4.log + [Credit(a.seller, -a.currentBid)])
              else if Exists(s.users, a.seller) then s4.(log := s4.log + [RefundAnomaly])
              else s4;
    if k == 0 then s
    else if k == 1 then s1
    else if k == 2 then s2
    else if k == 3 then s3
    else if k == 4 then s4
    else s5
  }

  /** The write of a guarded wallet update, unless it is refused. */
  function WalletWrite(users: seq<User>, id: nat, balanceDelta: int, holdDelta: int): Option<DiskWrite> {
    if Accepts(users, id, balanceDelta, holdDelta) then
      Some(WriteUser(id, ApplyDelta(users, id, balanceDelta, holdDelta)[id - 1]))
    else None
  }

  /** Write number `k` of a settlement: the record, the write-ahead entry, the winner's wallet, its log line,
      the seller's wallet, its log line, and then each bid of the winner in file order. */
  function SettleWrite(s: Store, a: Auction, k: nat): Option<DiskWrite> {
    var paid := ApplyDelta(s.users, a.leader, -a.currentBid, -a.currentBid);
    if k == 0 then Some(WriteAuction(a.(status := Closed)))
    else if k == 1 then Some(AppendLog(WalSettle(a.id, a.leader, a.seller, a.currentBid)))
    else if k == 2 then WalletWrite(s.users, a.leader, -a.currentBid, -a.currentBid)
    else if k == 3 then Some(AppendLog(Settle(a.leader, a.currentBid)))
    else if k == 4 then WalletWrite(paid, a.seller, a.currentBid, 0)
    else if k == 5 then Some(AppendLog(Credit(a.seller, a.currentBid)))
    else if k - 6 < |s.bids| && s.bids[k - 6].auction == a.id && s.bids[k - 6].bidder == a.leader then
      Some(WriteBid(k - 5, s.bids[k - 6].(isWinning := true)))
    else None
  }

  /** The seller is asked to pay. */
  predicate Pays(users: seq<User>, a: Auction) {
    var back := ApplyDelta(users, a.leader, a.currentBid, 0);
    Exists(back, a.seller) && back[a.seller - 1].wallet.balance >= a.currentBid
  }

  /** Write number `k` of a refund: the write-ahead entry, the winner's wallet, its log line, and the seller's
      wallet and log line, or the anomaly line. */
  function RefundWrite(s: Store, dispute: nat, a: Auction, k: nat): Option<DiskWrite> {
    var back := ApplyDelta(s.users, a.leader, a.currentBid, 0);
    if k == 0 then Some(AppendLog(WalRefund(dispute, a.id, a.leader, a.seller, a.currentBid)))
    else if k == 1 then WalletWrite(s.users, a.leader, a.currentBid, 0)
    else if k == 2 then Some(AppendLog(Credit(a.leader, a.currentBid)))
    else if k == 3 then (if Pays(s.users, a) then WalletWrite(back, a.seller, -a.currentBid, 0) else None)
    else if k == 4 && Pays(s.users, a) then Some(AppendLog(Credit(a.seller, -a.currentBid)))
    else if k == 4 && Exists(s.users, a.seller) then Some(AppendLog(RefundAnomaly))
    else None
  }

  lemma {:induction false} MarkLength(bids: seq<Bid>, auction: nat, winner: nat)
    ensures |MarkWinning(bids, auction, winner)| == |bids|
  {
    if bids != [] {
      MarkLength(bids[..|bids| - 1], auction, winner);
    }
  }

  lemma MarkNext(bids: seq<Bid>, n: nat, a: Auction)
    requires n < |bids|
    ensures |PartlyMarked(bids, n, a)| == |PartlyMarked(bids, n + 1, a)| == |bids|
    ensures PartlyMarked(bids, n + 1, a) == PartlyMarked(bids, n, a)[n := PartlyMarked(bids, n + 1, a)[n]]
  {
    MarkLength(bids[..n], a.id, a.leader);
    MarkLength(bids[..n + 1], a.id, a.leader);
    assert bids[..n + 1][..n] == bids[..n];
  }

  lemma NothingMarked(bids: seq<Bid>, a: Auction)
    ensures PartlyMarked(bids, 0, a) == bids
  {
    assert bids[..0] == [];
  }

  lemma AllMarked(bids: seq<Bid>, a: Auction)
    ensures PartlyMarked(bids, |bids|, a) == MarkWinning(bids, a.id, a.leader)
  {
    assert bids[..|bids|] == bids;
  }

  lemma WalletStep(s: Store, id: nat, balanceDelta: int, holdDelta: int)
    ensures Perform(s, WalletWrite(s.users, id, balanceDelta, holdDelta))
         == s.(users := ApplyDelta(s.users, id, balanceDelta, holdDelta))
  {}

  /** One round of the rewrite loop. */
  lemma MarkStep(s: Store, a: Auction, k: nat)
    requires k >= 6
    ensures Perform(SettleAt(s, a, k), SettleWrite(s, a, k)) == SettleAt(s, a, k + 1)
  {
    hide ApplyDelta, MarkWinning;
    var n := k - 6;
    if n < |s.bids| {
      MarkedNext(s.bids, n, a);
    } else {
      AllMarked(s.bids, a);
    }
  }

  lemma MarkedNext(bids: seq<Bid>, n: nat, a: Auction)
    requires n < |bids|
    ensures |PartlyMarked(bids, n, a)| == |bids|
    ensures PartlyMarked(bids, n + 1, a)
         == if bids[n].auction == a.id && bids[n].bidder == a.leader then
              PartlyMarked(bids, n, a)[n := bids[n].(isWinning := true)]
            else PartlyMarked(bids, n, a)
  {
    MarkNext(bids, n, a);
    MarkLength(bids[..n], a.id, a.leader);
    assert bids[..n + 1][..n] == bids[..n];
    assert PartlyMarked(bids, n, a)[n] == bids[n];
  }

  /** The settlement is the sequence of exactly these writes... */
  lemma SettleIsItsWrites(s: Store, a: Auction, k: nat)
    ensures SettleAt(s, a, k + 1) == Perform(SettleAt(s, a, k), SettleWrite(s, a, k))
  {
    if k == 2 {
      WalletStep(SettleAt(s, a, 2), a.leader, -a.currentBid, -a.currentBid);
    } else if k == 4 {
      WalletStep(SettleAt(s, a, 4), a.seller, a.currentBid, 0);
    } else if k == 5 {
      NothingMarked(s.bids, a);
    } else if k >= 6 {
      MarkStep(s, a, k);
    } else {
      hide ApplyDelta;
    }
  }

  /** ...and the last of them leaves what the handler leaves. */
  lemma SettleEnds(s: Store, a: Auction)
    requires Sells(a)
    ensures SettleAt(s, a, 6 + |s.bids|) == CloseInternal(s, a)
  {
    hide ApplyDelta, MarkWinning;
    AllMarked(s.bids, a);
  }

  /** The same for a refund. */
  lemma RefundIsItsWrites(s: Store, dispute: nat, a: Auction, k: nat)
    ensures RefundAt(s, dispute, a, k + 1) == Perform(RefundAt(s, dispute, a, k), RefundWrite(s, dispute, a, k))
  {
    if k == 1 {
      WalletStep(RefundAt(s, dispute, a, 1), a.leader, a.currentBid, 0);
    } else if k == 3 {
      WalletStep(RefundAt(s, dispute, a, 3), a.seller, -a.currentBid, 0);
    } else {
      SameLength(s.users, a.leader, a.currentBid, 0);
      hide ApplyDelta;
    }
  }

  lemma SameLength(users: seq<User>, id: nat, balanceDelta: int, holdDelta: int)
    ensures |ApplyDelta(users, id, balanceDelta, holdDelta)| == |users|
  {}

  lemma RefundEnds(s: Store, dispute: nat, a: Auction)
    ensures RefundAt(s, dispute, a, 5) == Refund(s, dispute, a)
  {
    SameLength(s.users, a.leader, a.currentBid, 0);
    hide ApplyDelta;
  }

  // ---------- crash safety ----------

  /** No wallet has moved unless the write-ahead entry stands in the log, as the first new line. */
  predicate LoggedFirst(before: Store, t: Store, wal: Entry) {
    t.users != before.users ==> before.log < t.log && t.log[|before.log|] == wal
  }

  lemma SettleLogged(s: Store, a: Auction, k: nat)
    ensures LoggedFirst(s, SettleAt(s, a, k), WalSettle(a.id, a.leader, a.seller, a.currentBid))
  {
    hide ApplyDelta;
  }

  lemma SettleUsers(s: Store, a: Auction, k: nat)
    ensures var paid := ApplyDelta(s.users, a.leader, -a.currentBid, -a.currentBid);
      SettleAt(s, a, k).users
        == if k < 3 then s.users else if k < 5 then paid else ApplyDelta(paid, a.seller, a.currentBid, 0)
  {
    hide ApplyDelta;
  }

  /** The total between the two wallet writes, and after both. */
  lemma SettleTotals(users: seq<User>, a: Auction)
    requires LeaderHolds(users, a) && a.leader != 0 && Exists(users, a.seller) && Solvent(users[a.seller - 1].wallet)
    ensures var paid := ApplyDelta(users, a.leader, -a.currentBid, -a.currentBid);
      && SumOf(paid, BalanceOf()) == SumOf(users, BalanceOf()) - a.currentBid
      && SumOf(ApplyDelta(paid, a.seller, a.currentBid, 0), BalanceOf()) == SumOf(users, BalanceOf())
  {
    var paid := ApplyDelta(users, a.leader, -a.currentBid, -a.currentBid);
    assert Accepts(users, a.leader, -a.currentBid, -a.currentBid);
    assert Accepts(paid, a.seller, a.currentBid, 0);
    hide ApplyDelta, Accepts;
    DeltaTotal(users, a.leader, -a.currentBid, -a.currentBid);
    DeltaTotal(paid, a.seller, a.currentBid, 0);
  }

  /** A crash after any number of the settlement's writes: the money is all there, or, between the two
      wallet writes, short by exactly the sale amount; and no wallet has moved unless the write-ahead
      entry is on disk. */
  lemma SettleCrashSafe(s: Store, auction: nat, k: nat)
    requires Reachable(s) && Exists(s.auctions, auction)
    requires s.auctions[auction - 1].status == Open && Sells(s.auctions[auction - 1])
    ensures var a := s.auctions[auction - 1];
      var t := SettleAt(s, a, k);
      && LoggedFirst(s, t, WalSettle(auction, a.leader, a.seller, a.currentBid))
      && TotalBalance(t) == TotalBalance(s) - if 3 <= k <= 4 then a.currentBid else 0
  {
    hide Reachable, Sound, Disputes.Reviewed, SettleAt, LoggedFirst, ApplyDelta;
    ReachableSound(s);
    CloseReady(s, auction);
    var a := s.auctions[auction - 1];
    SettleTotals(s.users, a);
    SettleUsers(s, a, k);
    SettleLogged(s, a, k);
  }

  lemma RefundLogged(s: Store, dispute: nat, a: Auction, k: nat)
    ensures LoggedFirst(s, RefundAt(s, dispute, a, k), WalRefund(dispute, a.id, a.leader, a.seller, a.currentBid))
  {
    SameLength(s.users, a.leader, a.currentBid, 0);
    hide ApplyDelta;
  }

  lemma RefundUsers(s: Store, dispute: nat, a: Auction, k: nat)
    ensures var back := ApplyDelta(s.users, a.leader, a.currentBid, 0);
      RefundAt(s, dispute, a, k).users
        == if k < 2 then s.users else if k < 4 || !Pays(s.users, a) then back
           else ApplyDelta(back, a.seller, -a.currentBid, 0)
  {
    SameLength(s.users, a.leader, a.currentBid, 0);
    hide ApplyDelta;
  }

  /** The same for a refund: from the second write on the credit is there, from the fourth the debit, each
      exactly when it is due. */
  lemma RefundCrashSafe(s: Store, dispute: nat, auction: nat, k: nat)
    requires Reachable(s) && Exists(s.auctions, auction)
    ensures var a := s.auctions[auction - 1];
      var t := RefundAt(s, dispute, a, k);
      && LoggedFirst(s, t, WalRefund(dispute, auction, a.leader, a.seller, a.currentBid))
      && TotalBalance(t) == TotalBalance(s) + (if k >= 2 then Credited(s, a) else 0) - (if k >= 4 then Debited(s, a) else 0)
  {
    hide Reachable, Disputes.Reviewed, RefundAt, LoggedFirst;
    ReachableSound(s);
    assert GoodAuction(s, auction - 1);
    var a := s.auctions[auction - 1];
    RefundUsers(s, dispute, a, k);
    RefundLogged(s, dispute, a, k);
    RefundTotals(s, a);
  }

  /** The seller pays when asked and covered; one who is not asked is not covered. */
  lemma SellerPaysIff(users: seq<User>, a: Auction)
    requires 0 < a.currentBid && Exists(users, a.seller) && Solvent(users[a.seller - 1].wallet)
    ensures var back := ApplyDelta(users, a.leader, a.currentBid, 0);
      Pays(users, a) && Accepts(back, a.seller, -a.currentBid, 0)
      <==> a.seller == a.leader || users[a.seller - 1].wallet.Available() >= a.currentBid
  {}

  lemma RefundTotals(s: Store, a: Auction)
    requires Sound(s) && 0 < a.currentBid && Exists(s.users, a.seller)
    ensures var back := ApplyDelta(s.users, a.leader, a.currentBid, 0);
      && SumOf(back, BalanceOf()) == TotalBalance(s) + Credited(s, a)
      && (Pays(s.users, a) ==>
            SumOf(ApplyDelta(back, a.seller, -a.currentBid, 0), BalanceOf())
              == TotalBalance(s) + Credited(s, a) - Debited(s, a))
      && (!Pays(s.users, a) ==> Debited(s, a) == 0)
  {
    assert GoodUser(s, a.seller - 1);
    SharesNonneg(s, a.seller);
    if Exists(s.users, a.leader) {
      assert GoodUser(s, a.leader - 1);
      SharesNonneg(s, a.leader);
    }
    assert Accepts(s.users, a.leader, a.currentBid, 0) <==> Exists(s.users, a.leader);
    SellerPaysIff(s.users, a);
    hide ApplyDelta, Accepts, Pays, Sound;
    DeltaTotal(s.users, a.leader, a.currentBid, 0);
    DeltaTotal(ApplyDelta(s.users, a.leader, a.currentBid, 0), a.seller, -a.currentBid, 0);
  }

  // ---------- what a crash leaves to be repaired ----------

  lemma PaidKeepsSound(s: Store, t: Store, auction: nat)
    requires Sound(s) && Exists(s.auctions, auction) && s.auctions[auction - 1].status == Open
    requires s.auctions[auction - 1].leader != 0 && LeaderHolds(s.users, s.auctions[auction - 1])
    requires var a := s.auctions[auction - 1];
      && t.users == Moved(s.users, a.leader, -a.currentBid, -a.currentBid)
      && t.auctions == s.auctions[auction - 1 := a.(status := Closed)]
    ensures Sound(t)
  {
    var a := s.auctions[auction - 1];
    forall i | 0 <= i < |s.users|
      ensures t.users[i].id == i + 1 && t.users[i].wallet.hold == Escrowed(t.auctions, i + 1)
      ensures t.users[i].wallet.hold <= t.users[i].wallet.balance
    {
      assert GoodUser(s, i);
      EscrowedUpdate(s.auctions, auction - 1, a.(status := Closed), i + 1);
    }
    CloseTablesSound(s, t, auction, t.users);
  }

  /** The record says CLOSED, and the leader's money is still on hold for it. */
  lemma FrozenHoldUnsound(s: Store, t: Store, auction: nat)
    requires Sound(s) && Exists(s.auctions, auction) && s.auctions[auction - 1].status == Open
    requires s.auctions[auction - 1].leader != 0 && t.users == s.users
    requires t.auctions == s.auctions[auction - 1 := s.auctions[auction - 1].(status := Closed)]
    ensures !Sound(t)
  {
    var a := s.auctions[auction - 1];
    assert GoodAuction(s, auction - 1);
    assert GoodUser(s, a.leader - 1);
    EscrowedUpdate(s.auctions, auction - 1, a.(status := Closed), a.leader);
    assert !GoodUser(t, a.leader - 1);
  }

  lemma SettleAuctions(s: Store, a: Auction, k: nat)
    requires Exists(s.auctions, a.id)
    ensures SettleAt(s, a, k).auctions == if k == 0 then s.auctions else s.auctions[a.id - 1 := a.(status := Closed)]
  {
    hide ApplyDelta;
  }

  /** A settlement cut short leaves holds that are not the escrow exactly after the record was written and
      before the winner paid. */
  lemma SettleSoundIff(s: Store, auction: nat, k: nat)
    requires Reachable(s) && Exists(s.auctions, auction)
    requires s.auctions[auction - 1].status == Open && Sells(s.auctions[auction - 1])
    ensures Sound(SettleAt(s, s.auctions[auction - 1], k)) <==> k == 0 || k >= 3
  {
    hide Reachable, Sound, Disputes.Reviewed, SettleAt, ApplyDelta;
    ReachableSound(s);
    CloseReady(s, auction);
    var a := s.auctions[auction - 1];
    var t := SettleAt(s, a, k);
    SettleUsers(s, a, k);
    SettleAuctions(s, a, k);
    if k == 0 {
      SoundFrame(s, t);
    } else if k < 3 {
      FrozenHoldUnsound(s, t, auction);
    } else {
      QuietMoves(s.users, a.leader, -a.currentBid, -a.currentBid);
      var paid := SettleAt(s, a, 3);
      SettleUsers(s, a, 3);
      SettleAuctions(s, a, 3);
      PaidKeepsSound(s, paid, auction);
      BalanceMoveKeepsSound(paid, a.seller, a.currentBid);
      if k < 5 {
        SoundFrame(paid, t);
      } else {
        SoundFrame(paid.(users := ApplyDelta(paid.users, a.seller, a.currentBid, 0)), t);
      }
    }
  }

  /** The log told the truth, and then a wallet moved: now it does not. */
  lemma MovedUnlogged(s: Store, t: Store, id: nat, balanceDelta: int, holdDelta: int)
    requires Audited(s) && t.log == s.log && Exists(s.users, id) && balanceDelta != 0
    requires t.users == Moved(s.users, id, balanceDelta, holdDelta)
    ensures !Audited(t)
  {
    assert Replay(s.log, id) == s.users[id - 1].wallet;
    assert t.users[id - 1].wallet != s.users[id - 1].wallet;
  }

  lemma ReachableAudited(s: Store)
    requires Reachable(s)
    ensures Audited(s)
  {
    var es :| s == Exec(SEED, es);
    assert GoodUser(SEED, 0);
    RunKeepsAudited(SEED, es);
  }

  /** And the log falls behind the wallets exactly between each wallet write and its log line. There it
      looks as it did before the wallet moved, so that it cannot tell whether there is anything to undo. */
  lemma SettleAuditedIff(s: Store, auction: nat, k: nat)
    requires Reachable(s) && Exists(s.auctions, auction)
    requires s.auctions[auction - 1].status == Open && Sells(s.auctions[auction - 1])
    ensures var a := s.auctions[auction - 1];
      && (Audited(SettleAt(s, a, k)) <==> k != 3 && k != 5)
      && SettleAt(s, a, 3).log == SettleAt(s, a, 2).log && SettleAt(s, a, 3).users != SettleAt(s, a, 2).users
      && SettleAt(s, a, 5).log == SettleAt(s, a, 4).log && SettleAt(s, a, 5).users != SettleAt(s, a, 4).users
      && SettleAt(s, a, 1).log == s.log
  {
    hide Reachable, Sound, Disputes.Reviewed, Audited, ApplyDelta;
    ReachableSound(s);
    ReachableAudited(s);
    CloseReady(s, auction);
    var a := s.auctions[auction - 1];
    SettleAudited(s, a, k);
    QuietMoves(s.users, a.leader, -a.currentBid, -a.currentBid);
    var paid := Moved(s.users, a.leader, -a.currentBid, -a.currentBid);
    QuietMoves(paid, a.seller, a.currentBid, 0);
    assert paid[a.leader - 1].wallet != s.users[a.leader - 1].wallet;
    assert Moved(paid, a.seller, a.currentBid, 0)[a.seller - 1].wallet != paid[a.seller - 1].wallet;
  }

  lemma SettleAudited(s: Store, a: Auction, k: nat)
    requires Audited(s) && LeaderHolds(s.users, a) && Sells(a) && Exists(s.users, a.seller)
    requires 0 < a.currentBid && Solvent(s.users[a.seller - 1].wallet)
    ensures Audited(SettleAt(s, a, k)) <==> k != 3 && k != 5
  {
    hide Audited, ApplyDelta, PartlyMarked;
    var wal := WalSettle(a.id, a.leader, a.seller, a.currentBid);
    var s1, s2, s3, s4 := SettleAt(s, a, 1), SettleAt(s, a, 2), SettleAt(s, a, 3), SettleAt(s, a, 4);
    AuditRecords(s, s1);
    AuditNote(s1, s2, wal);
    QuietMoves(s.users, a.leader, -a.currentBid, -a.currentBid);
    MovedUnlogged(s2, s3, a.leader, -a.currentBid, -a.currentBid);
    AuditWallet(s2, a.leader, a.currentBid);
    assert s4 == SettlePayment(s2, a.leader, a.currentBid);
    QuietMoves(s4.users, a.seller, a.currentBid, 0);
    MovedUnlogged(s4, SettleAt(s, a, 5), a.seller, a.currentBid, 0);
    AuditWallet(s4, a.seller, a.currentBid);
    if k >= 6 {
      AuditRecords(CreditWallet(s4, a.seller, a.currentBid), SettleAt(s, a, k));
    }
  }
}
