/** Every handler that moves money, one disk write at a time: what the log says before each wallet call, and
    what a crash between two writes leaves. */
module Prefixes {
  import opened Records
  import opened Wallets
  import opened Events
  import opened Escrow
  import opened Ledger
  import opened Crash
  import Disputes

  // ---------- the writes ----------

  /** A wallet call cut short: the guarded write, and then its log line. */
  function CallAt(s: Store, line: Entry, k: nat): Store
    requires CallOf(line).Some?
  {
    var c := CallOf(line).value;
    var s1 := s.(users := ApplyDelta(s.users, c.user, c.balanceDelta, c.holdDelta));
    if k == 0 then s else if k == 1 then s1 else s1.(log := s.log + [line])
  }

  /** The release of what an auction's leader has on hold for it, when it has one. */
  function ReleaseAt(s: Store, a: Auction, k: nat): Store {
    if a.leader != 0 then CallAt(s, Release(a.leader, a.currentBid), k) else s
  }

  /** An accepted bid: release, hold, auction record, bid, log line. */
  function BidAt(s: Store, a: Auction, bidder: nat, amount: int, k: nat): Store {
    var s4 := CallAt(ReleaseAt(s, a, 2), Hold(bidder, amount), 2);
    var s5 := s4.(auctions := Put(s.auctions, a.id, Raised(a, bidder, amount)));
    var s6 := s5.(bids := s.bids + [Bid(|s.bids| + 1, a.id, bidder, amount, true)]);
    if k <= 2 then ReleaseAt(s, a, k)
    else if k <= 4 then CallAt(ReleaseAt(s, a, 2), Hold(bidder, amount), k - 2)
    else if k == 5 then s5
    else if k == 6 then s6
    else s6.(log := s6.log + [BidPlaced(a.id, bidder, amount)])
  }

  /** A close: the settlement, or the record and the release. */
  function CloseAt(s: Store, a: Auction, k: nat): Store {
    if Sells(a) then SettleAt(s, a, k)
    else if k == 0 then s
    else ReleaseAt(s.(auctions := Put(s.auctions, a.id, a.(status := Closed))), a, k - 1)
  }

  function CloseLength(s: Store, a: Auction): nat {
    if Sells(a) then 6 + |s.bids| else if a.leader != 0 then 3 else 1
  }

  predicate Deposits(s: Store, e: Event) {
    e.Deposit? && Served(s, e) && 0 < e.amount
  }

  predicate Bids(s: Store, e: Event) {
    e.PlaceBid? && BidAccepted(s, e.bidder, e.auction, e.amount)
  }

  predicate ClosesNow(s: Store, e: Event) {
    (e.CloseAuction? || e.Expire?) && Closes(s, e)
  }

  predicate RefundsNow(s: Store, e: Event) {
    && e.ResolveDispute? && Served(s, e) && e.verdict == DisputeResolved && Disputes.Decides(s, e.dispute, e.verdict)
    && Exists(s.auctions, s.disputes[e.dispute - 1].auction)
  }

  predicate MovesMoney(s: Store, e: Event) {
    Deposits(s, e) || Bids(s, e) || ClosesNow(s, e) || RefundsNow(s, e)
  }

  /** The auction the event is about. */
  function Lot(s: Store, e: Event): Auction
    requires Bids(s, e) || ClosesNow(s, e) || RefundsNow(s, e)
  {
    if RefundsNow(s, e) then s.auctions[s.disputes[e.dispute - 1].auction - 1] else s.auctions[e.auction - 1]
  }

  function DisputeWritten(s: Store, e: Event): Store
    requires RefundsNow(s, e)
  {
    s.(disputes := Put(s.disputes, e.dispute, s.disputes[e.dispute - 1].(status := e.verdict, resolvedBy := e.moderator)))
  }

  function Length(s: Store, e: Event): nat
    requires MovesMoney(s, e)
  {
    if Deposits(s, e) then 2
    else if ClosesNow(s, e) then CloseLength(s, Lot(s, e)) + 1
    else 7
  }

  /** The data directory after `k` writes of the handler. */
  function PrefixOf(s: Store, e: Event, k: nat): Store
    requires MovesMoney(s, e)
  {
    if Deposits(s, e) then CallAt(s, Credit(e.user, e.amount), k)
    else
      var a := Lot(s, e);
      if Bids(s, e) then BidAt(s, a, e.bidder, e.amount, k)
      else if ClosesNow(s, e) then
        var n := CloseLength(s, a);
        if k <= n then CloseAt(s, a, k)
        else CloseAt(s, a, n).(log := CloseAt(s, a, n).log + [CloseNote(e)])
      else if k == 0 then s
      else
        var t := RefundAt(DisputeWritten(s, e), e.dispute, a, k - 1);
        if k <= 6 then t else t.(log := t.log + [DisputeDecided(e.dispute, e.verdict, e.moderator)])
  }

  /** The wallet call that write number `k` carries out. */
  function CallOfWrite(s: Store, e: Event, k: nat): Option<Call>
    requires MovesMoney(s, e)
  {
    if Deposits(s, e) then (if k == 0 then CallOf(Credit(e.user, e.amount)) else None)
    else
      var a := Lot(s, e);
      if Bids(s, e) then
        if k == 0 && a.leader != 0 then CallOf(Release(a.leader, a.currentBid))
        else if k == 2 then CallOf(Hold(e.bidder, e.amount))
        else None
      else if ClosesNow(s, e) && Sells(a) then
        if k == 2 then CallOf(Settle(a.leader, a.currentBid))
        else if k == 4 then CallOf(Credit(a.seller, a.currentBid))
        else None
      else if ClosesNow(s, e) then
        if k == 1 && a.leader != 0 then CallOf(Release(a.leader, a.currentBid)) else None
      else
        if k == 2 then CallOf(Credit(a.leader, a.currentBid))
        else if k == 4 && Pays(s.users, a) then CallOf(Credit(a.seller, -a.currentBid))
        else None
  }

  function Applied(users: seq<User>, c: Option<Call>): seq<User> {
    match c
    case None => users
    case Some(v) => ApplyDelta(users, v.user, v.balanceDelta, v.holdDelta)
  }

  lemma RefundStep(s: Store, dispute: nat, a: Auction, k: nat)
    ensures RefundAt(s, dispute, a, k + 1).users
         == Applied(RefundAt(s, dispute, a, k).users,
                    if k == 1 then CallOf(Credit(a.leader, a.currentBid))
                    else if k == 3 && Pays(s.users, a) then CallOf(Credit(a.seller, -a.currentBid))
                    else None)
  {
    RefundUsers(s, dispute, a, k);
    RefundUsers(s, dispute, a, k + 1);
  }

  lemma SettleStep(s: Store, a: Auction, k: nat)
    ensures SettleAt(s, a, k + 1).users
         == Applied(SettleAt(s, a, k).users,
                    if k == 2 then CallOf(Settle(a.leader, a.currentBid))
                    else if k == 4 then CallOf(Credit(a.seller, a.currentBid))
                    else None)
  {
    SettleUsers(s, a, k);
    SettleUsers(s, a, k + 1);
  }

  /** The user table changes at a write exactly by the wallet call it carries out. */
  lemma WritesAreCalls(s: Store, e: Event, k: nat)
    requires MovesMoney(s, e)
    ensures PrefixOf(s, e, k + 1).users == Applied(PrefixOf(s, e, k).users, CallOfWrite(s, e, k))
  {
    hide ApplyDelta, SettleAt, RefundAt, Pays, PartlyMarked;
    if ClosesNow(s, e) && Sells(Lot(s, e)) {
      SettleStep(s, Lot(s, e), k);
    } else if RefundsNow(s, e) {
      if k == 0 {
        RefundUsers(DisputeWritten(s, e), e.dispute, Lot(s, e), 0);
      } else {
        RefundStep(DisputeWritten(s, e), e.dispute, Lot(s, e), k - 1);
      }
    }
  }

  function CallWrite(s: Store, line: Entry, k: nat): Option<DiskWrite>
    requires CallOf(line).Some?
  {
    var c := CallOf(line).value;
    if k == 0 then WalletWrite(s.users, c.user, c.balanceDelta, c.holdDelta)
    else if k == 1 then Some(AppendLog(line))
    else None
  }

  function ReleaseWrite(s: Store, a: Auction, k: nat): Option<DiskWrite> {
    if a.leader != 0 then CallWrite(s, Release(a.leader, a.currentBid), k) else None
  }

  /** Write number `k` of the handler, where it writes. */
  function WriteOf(s: Store, e: Event, k: nat): Option<DiskWrite>
    requires MovesMoney(s, e)
  {
    if Deposits(s, e) then CallWrite(s, Credit(e.user, e.amount), k)
    else
      var a := Lot(s, e);
      if Bids(s, e) then
        if k < 2 then ReleaseWrite(s, a, k)
        else if k < 4 then CallWrite(ReleaseAt(s, a, 2), Hold(e.bidder, e.amount), k - 2)
        else if k == 4 then Some(WriteAuction(Raised(a, e.bidder, e.amount)))
        else if k == 5 then Some(WriteBid(|s.bids| + 1, Bid(|s.bids| + 1, a.id, e.bidder, e.amount, true)))
        else if k == 6 then Some(AppendLog(BidPlaced(a.id, e.bidder, e.amount)))
        else None
      else if ClosesNow(s, e) then
        if k == CloseLength(s, a) then Some(AppendLog(CloseNote(e)))
        else if k > CloseLength(s, a) then None
        else if Sells(a) then SettleWrite(s, a, k)
        else if k == 0 then Some(WriteAuction(a.(status := Closed)))
        else ReleaseWrite(s, a, k - 1)
      else
        if k == 0 then
          Some(WriteDispute(e.dispute, s.disputes[e.dispute - 1].(status := e.verdict, resolvedBy := e.moderator)))
        else if k < 6 then RefundWrite(DisputeWritten(s, e), e.dispute, a, k - 1)
        else if k == 6 then Some(AppendLog(DisputeDecided(e.dispute, e.verdict, e.moderator)))
        else None
  }

  lemma CallIsItsWrites(s: Store, line: Entry, k: nat)
    requires CallOf(line).Some?
    ensures CallAt(s, line, k + 1) == Perform(CallAt(s, line, k), CallWrite(s, line, k))
  {
    var c := CallOf(line).value;
    WalletStep(s, c.user, c.balanceDelta, c.holdDelta);
    hide ApplyDelta, WalletWrite;
  }

  lemma BidIsItsWrites(s: Store, e: Event, k: nat)
    requires Bids(s, e)
    ensures PrefixOf(s, e, k + 1) == Perform(PrefixOf(s, e, k), WriteOf(s, e, k))
  {
    hide ApplyDelta, CallWrite;
    var a := Lot(s, e);
    if k < 2 {
      if a.leader != 0 { CallIsItsWrites(s, Release(a.leader, a.currentBid), k); }
    } else if k < 4 {
      CallIsItsWrites(ReleaseAt(s, a, 2), Hold(e.bidder, e.amount), k - 2);
    }
  }

  lemma CloseIsItsWrites(s: Store, e: Event, k: nat)
    requires ClosesNow(s, e)
    ensures PrefixOf(s, e, k + 1) == Perform(PrefixOf(s, e, k), WriteOf(s, e, k))
  {
    hide ApplyDelta, CallWrite, SettleAt, SettleWrite;
    var a := Lot(s, e);
    if k < CloseLength(s, a) {
      if Sells(a) {
        SettleIsItsWrites(s, a, k);
        SettleStarts(s, a);
      } else if k > 0 {
        CallIsItsWrites(CloseAt(s, a, 1), Release(a.leader, a.currentBid), k - 1);
        SameWrites(s, CloseAt(s, a, 1), Release(a.leader, a.currentBid), k - 1);
      }
    }
  }

  lemma SameWrites(s: Store, t: Store, line: Entry, k: nat)
    requires CallOf(line).Some? && s.users == t.users
    ensures CallWrite(s, line, k) == CallWrite(t, line, k)
  {}

  lemma SettleStarts(s: Store, a: Auction)
    ensures SettleAt(s, a, 0) == s
  {}

  lemma RefundEventIsItsWrites(s: Store, e: Event, k: nat)
    requires RefundsNow(s, e)
    ensures PrefixOf(s, e, k + 1) == Perform(PrefixOf(s, e, k), WriteOf(s, e, k))
  {
    hide RefundAt, RefundWrite;
    var s1 := DisputeWritten(s, e);
    if k == 0 {
      RefundStarts(s1, e.dispute, Lot(s, e));
    } else if k < 6 {
      RefundIsItsWrites(s1, e.dispute, Lot(s, e), k - 1);
    } else {
      RefundStays(s1, e.dispute, Lot(s, e), k);
      RefundStays(s1, e.dispute, Lot(s, e), k - 1);
    }
  }

  lemma RefundStarts(s: Store, dispute: nat, a: Auction)
    ensures RefundAt(s, dispute, a, 0) == s
  {
    hide ApplyDelta;
    UsersCount(s, a.leader, a.currentBid, 0);
  }

  /** Each prefix is the one before it and exactly that write. */
  lemma PrefixIsItsWrites(s: Store, e: Event, k: nat)
    requires MovesMoney(s, e)
    ensures PrefixOf(s, e, k + 1) == Perform(PrefixOf(s, e, k), WriteOf(s, e, k))
  {
    hide PrefixOf, WriteOf, Perform;
    if Deposits(s, e) {
      DepositIsItsWrites(s, e, k);
    } else if Bids(s, e) {
      BidIsItsWrites(s, e, k);
    } else if ClosesNow(s, e) {
      CloseIsItsWrites(s, e, k);
    } else {
      RefundEventIsItsWrites(s, e, k);
    }
  }

  lemma DepositIsItsWrites(s: Store, e: Event, k: nat)
    requires Deposits(s, e)
    ensures PrefixOf(s, e, k + 1) == Perform(PrefixOf(s, e, k), WriteOf(s, e, k))
  {
    hide CallAt, CallWrite;
    CallIsItsWrites(s, Credit(e.user, e.amount), k);
  }

  // ---------- the last write leaves what the handler leaves ----------

  /** The release leaves the bidder able to pay. */
  lemma ReleaseHelps(s: Store, a: Auction, user: nat)
    requires LeaderHolds(s.users, a) && Exists(s.users, user) && 0 <= a.currentBid
    ensures var t := ReleaseAt(s, a, 2);
      && t == (if a.leader != 0 then ReleaseHold(s, a.leader, a.currentBid) else s)
      && |t.users| == |s.users| && t.users[user - 1].wallet.Available() >= s.users[user - 1].wallet.Available()
  {}

  lemma BidEnds(s: Store, e: Event)
    requires Sound(s) && Bids(s, e)
    ensures PrefixOf(s, e, 7) == Step(s, e).store
  {
    hide Sound, ApplyDelta, ReleaseAt;
    var a := Lot(s, e);
    CloseReady(s, e.auction);
    ReleaseHelps(s, a, e.bidder);
  }

  lemma CloseEnds(s: Store, e: Event)
    requires Sound(s) && ClosesNow(s, e)
    ensures PrefixOf(s, e, Length(s, e)) == Step(s, e).store
  {
    hide ApplyDelta, SettleAt, Sound, MarkWinning;
    var a := Lot(s, e);
    CloseReady(s, e.auction);
    if Sells(a) {
      SettleEnds(s, a);
    }
  }

  lemma RefundEventEnds(s: Store, e: Event)
    requires Sound(s) && RefundsNow(s, e)
    ensures PrefixOf(s, e, 7) == Step(s, e).store
  {
    hide RefundAt, Refund;
    RefundEnds(DisputeWritten(s, e), e.dispute, Lot(s, e));
    RefundStays(DisputeWritten(s, e), e.dispute, Lot(s, e), 6);
  }

  lemma RefundStays(s: Store, dispute: nat, a: Auction, k: nat)
    requires k >= 5
    ensures RefundAt(s, dispute, a, k) == RefundAt(s, dispute, a, 5)
  {
    hide ApplyDelta;
  }

  /** The prefixes lead from the store before the handler to the store after it. */
  lemma PrefixEnds(s: Store, e: Event)
    requires Sound(s) && MovesMoney(s, e)
    ensures PrefixOf(s, e, 0) == s && PrefixOf(s, e, Length(s, e)) == Step(s, e).store
  {
    if Bids(s, e) {
      BidEnds(s, e);
    } else if ClosesNow(s, e) {
      CloseEnds(s, e);
    } else if RefundsNow(s, e) {
      RefundEventEnds(s, e);
    }
  }

  // ---------- is a wallet call announced before it is made? ----------

  /** The line tells of this wallet call: it is the call's own line, or a write-ahead entry that covers it. */
  predicate Announces(line: Entry, c: Call) {
    || CallOf(line) == Some(c)
    || (line.WalSettle? && (c == Call(line.winner, -line.amount, -line.amount) || c == Call(line.seller, line.amount, 0)))
    || (line.WalRefund? && (c == Call(line.winner, line.amount, 0) || c == Call(line.seller, -line.amount, 0)))
  }

  predicate Announced(before: Store, t: Store, c: Call) {
    before.log <= t.log && exists i :: |before.log| <= i < |t.log| && Announces(t.log[i], c)
  }

  /** "Write-ahead log entry written before every wallet change": it is before each wallet call of a sale's
      settlement and of a refund, and before no other. */
  lemma AnnouncedIff(s: Store, e: Event, k: nat)
    requires Sound(s) && MovesMoney(s, e) && CallOfWrite(s, e, k).Some?
    ensures Announced(s, PrefixOf(s, e, k), CallOfWrite(s, e, k).value)
       <==> (ClosesNow(s, e) && Sells(Lot(s, e))) || RefundsNow(s, e)
  {
    hide ApplyDelta, Pays, PartlyMarked, Sound;
    var t := PrefixOf(s, e, k);
    if Bids(s, e) {
      CloseReady(s, e.auction);
    }
    if (ClosesNow(s, e) && Sells(Lot(s, e))) || RefundsNow(s, e) {
      assert Announces(t.log[|s.log|], CallOfWrite(s, e, k).value);
    }
  }

  // ---------- does the log keep up with the wallets? ----------

  lemma CallAudited(s: Store, line: Entry, k: nat)
    requires Audited(s) && CallOf(line).Some? && CallOf(line).value.user <= |s.users|
    ensures Audited(CallAt(s, line, k)) <==> k != 1 || CallAt(s, line, 1).users == s.users
  {
    hide Audited;
    var c := CallOf(line).value;
    if k == 1 {
      if CallAt(s, line, 1).users != s.users {
        ChangedUnlogged(s, CallAt(s, line, 1), c);
      }
    } else if k > 1 {
      AuditCall(s, line, c);
    }
  }

  lemma ChangedUnlogged(s: Store, t: Store, c: Call)
    requires Audited(s) && t.log == s.log
    requires t.users == ApplyDelta(s.users, c.user, c.balanceDelta, c.holdDelta) != s.users
    ensures !Audited(t)
  {
    assert Replay(s.log, c.user) == s.users[c.user - 1].wallet;
    assert t.users[c.user - 1].wallet != s.users[c.user - 1].wallet;
  }

  lemma BidKeepsUp(s: Store, e: Event, k: nat)
    requires Audited(s) && Sound(s) && Bids(s, e)
    ensures Audited(PrefixOf(s, e, k)) <==> k == 0 || PrefixOf(s, e, k).users == PrefixOf(s, e, k - 1).users
  {
    hide Audited, ApplyDelta, Sound;
    var a := Lot(s, e);
    CloseReady(s, e.auction);
    var line := Hold(e.bidder, e.amount);
    if a.leader != 0 {
      CallAudited(s, Release(a.leader, a.currentBid), k);
      CallAudited(s, Release(a.leader, a.currentBid), 2);
    }
    var s2 := ReleaseAt(s, a, 2);
    ReleaseHelps(s, a, e.bidder);
    if k >= 3 {
      CallAudited(s2, line, k - 2);
      CallAudited(s2, line, 2);
    }
    if k >= 5 {
      var s6 := BidAt(s, a, e.bidder, e.amount, 6);
      AuditRecords(CallAt(s2, line, 2), BidAt(s, a, e.bidder, e.amount, 5));
      AuditRecords(CallAt(s2, line, 2), s6);
      AuditNote(s6, BidAt(s, a, e.bidder, e.amount, 7), BidPlaced(a.id, e.bidder, e.amount));
    }
  }

  lemma SettleKeepsUp(s: Store, a: Auction, k: nat)
    requires Audited(s) && a.leader <= |s.users| && a.seller <= |s.users|
    ensures Audited(SettleAt(s, a, k)) <==> k == 0 || SettleAt(s, a, k).users == SettleAt(s, a, k - 1).users
  {
    hide Audited, ApplyDelta, PartlyMarked;
    var s1, s2, s4 := SettleAt(s, a, 1), SettleAt(s, a, 2), SettleAt(s, a, 4);
    AuditRecords(s, s1);
    AuditNote(s1, s2, WalSettle(a.id, a.leader, a.seller, a.currentBid));
    CallAudited(s2, Settle(a.leader, a.currentBid), 1);
    CallAudited(s2, Settle(a.leader, a.currentBid), 2);
    UsersCount(s, a.leader, -a.currentBid, -a.currentBid);
    CallAudited(s4, Credit(a.seller, a.currentBid), 1);
    CallAudited(s4, Credit(a.seller, a.currentBid), 2);
    if k >= 6 {
      AuditRecords(CallAt(s4, Credit(a.seller, a.currentBid), 2), SettleAt(s, a, k));
    }
  }

  lemma UsersCount(s: Store, id: nat, balanceDelta: int, holdDelta: int)
    ensures |ApplyDelta(s.users, id, balanceDelta, holdDelta)| == |s.users|
  {}

  lemma CloseKeepsUp(s: Store, e: Event, k: nat)
    requires Audited(s) && Sound(s) && ClosesNow(s, e)
    ensures Audited(PrefixOf(s, e, k)) <==> k == 0 || PrefixOf(s, e, k).users == PrefixOf(s, e, k - 1).users
  {
    hide Audited, ApplyDelta, SettleAt, Sound;
    var a := Lot(s, e);
    CloseReady(s, e.auction);
    var n := CloseLength(s, a);
    if Sells(a) {
      SettleKeepsUp(s, a, k);
      SettleKeepsUp(s, a, n);
      SettleUsers(s, a, n);
      SettleUsers(s, a, n - 1);
    } else {
      var s1 := CloseAt(s, a, 1);
      AuditRecords(s, s1);
      if a.leader != 0 && k > 0 {
        CallAudited(s1, Release(a.leader, a.currentBid), k - 1);
        CallAudited(s1, Release(a.leader, a.currentBid), 2);
      }
    }
    if k > n {
      AuditNote(CloseAt(s, a, n), PrefixOf(s, e, k), CloseNote(e));
    }
  }

  lemma RefundKeepsUp(s: Store, dispute: nat, a: Auction, k: nat)
    requires Audited(s) && a.leader <= |s.users| && Exists(s.users, a.seller)
    ensures Audited(RefundAt(s, dispute, a, k))
       <==> k == 0 || RefundAt(s, dispute, a, k).users == RefundAt(s, dispute, a, k - 1).users
  {
    hide Audited, ApplyDelta;
    UsersCount(s, a.leader, a.currentBid, 0);
    var s1, s3 := RefundAt(s, dispute, a, 1), RefundAt(s, dispute, a, 3);
    AuditNote(s, s1, WalRefund(dispute, a.id, a.leader, a.seller, a.currentBid));
    CallAudited(s1, Credit(a.leader, a.currentBid), 1);
    CallAudited(s1, Credit(a.leader, a.currentBid), 2);
    if s3.users[a.seller - 1].wallet.balance >= a.currentBid {
      CallAudited(s3, Credit(a.seller, -a.currentBid), 1);
      CallAudited(s3, Credit(a.seller, -a.currentBid), 2);
    } else {
      AuditNote(s3, RefundAt(s, dispute, a, 5), RefundAnomaly);
    }
  }

  lemma RefundEventKeepsUp(s: Store, e: Event, k: nat)
    requires Audited(s) && Sound(s) && RefundsNow(s, e)
    ensures Audited(PrefixOf(s, e, k)) <==> k == 0 || PrefixOf(s, e, k).users == PrefixOf(s, e, k - 1).users
  {
    hide Audited, RefundAt;
    var a := Lot(s, e);
    var s1 := DisputeWritten(s, e);
    assert GoodAuction(s, s.disputes[e.dispute - 1].auction - 1);
    AuditRecords(s, s1);
    RefundUsers(s1, e.dispute, a, 0);
    if k > 0 {
      RefundKeepsUp(s1, e.dispute, a, k - 1);
    }
    if k > 6 {
      RefundStays(s1, e.dispute, a, k - 1);
      RefundStays(s1, e.dispute, a, k - 2);
      AuditNote(RefundAt(s1, e.dispute, a, k - 1), PrefixOf(s, e, k), DisputeDecided(e.dispute, e.verdict, e.moderator));
    }
  }

  /** "Log shows what to undo": of every handler that moves money, cut short anywhere, the log tells every wallet
      exactly unless the last write was one of a wallet. */
  lemma AuditedIff(s: Store, e: Event, k: nat)
    requires Reachable(s) && MovesMoney(s, e)
    ensures Audited(PrefixOf(s, e, k)) <==> k == 0 || PrefixOf(s, e, k).users == PrefixOf(s, e, k - 1).users
  {
    hide Audited, Reachable, Sound, Disputes.Reviewed, BidAt, CloseAt, RefundAt;
    ReachableSound(s);
    ReachableAudited(s);
    if Deposits(s, e) {
      CallAudited(s, Credit(e.user, e.amount), k);
    } else if Bids(s, e) {
      BidKeepsUp(s, e, k);
    } else if ClosesNow(s, e) {
      CloseKeepsUp(s, e, k);
    } else {
      RefundEventKeepsUp(s, e, k);
    }
  }

  // ---------- are the holds the escrow? ----------

  /** The moments at which hold and auction record do not belong together. */
  predicate Torn(s: Store, e: Event, k: nat)
    requires MovesMoney(s, e)
  {
    || (Bids(s, e) && (if Lot(s, e).leader != 0 then 1 else 3) <= k <= 4)
    || (ClosesNow(s, e) && Lot(s, e).leader != 0 && 1 <= k <= if Sells(Lot(s, e)) then 2 else 1)
  }

  /** A hold that is not the escrow. */
  lemma HoldOff(t: Store, user: nat)
    requires Exists(t.users, user) && t.users[user - 1].wallet.hold != Escrowed(t.auctions, user)
    ensures !Sound(t)
  {
    assert !GoodUser(t, user - 1);
  }

  lemma ReleasedUnsound(s: Store, a: Auction, k: nat)
    requires Sound(s) && Exists(s.auctions, a.id) && s.auctions[a.id - 1] == a && a.status == Open && a.leader != 0
    requires 1 <= k <= 2
    ensures !Sound(ReleaseAt(s, a, k))
  {
    CloseReady(s, a.id);
    assert GoodUser(s, a.leader - 1);
    QuietMoves(s.users, a.leader, 0, -a.currentBid);
    HoldOff(ReleaseAt(s, a, k), a.leader);
  }

  /** The release and the hold on the wallet of the bidder. */
  lemma BidderHolds(s: Store, a: Auction, bidder: nat, amount: int)
    requires LeaderHolds(s.users, a) && Exists(s.users, bidder) && 0 < a.currentBid < amount
    requires Solvent(s.users[bidder - 1].wallet) && amount <= s.users[bidder - 1].wallet.Available()
    ensures var t := CallAt(ReleaseAt(s, a, 2), Hold(bidder, amount), 1);
      && |t.users| == |s.users|
      && t.users[bidder - 1].wallet.hold
         == s.users[bidder - 1].wallet.hold - (if a.leader == bidder then a.currentBid else 0) + amount
  {
    if a.leader != 0 {
      QuietMoves(s.users, a.leader, 0, -a.currentBid);
    }
    QuietMoves(ReleaseAt(s, a, 2).users, bidder, 0, amount);
  }

  lemma BidSoundIff(s: Store, e: Event, k: nat)
    requires Sound(s) && Bids(s, e)
    ensures Sound(PrefixOf(s, e, k)) <==> !Torn(s, e, k)
  {
    hide Sound, ApplyDelta;
    var a := Lot(s, e);
    CloseReady(s, e.auction);
    if k == 0 || (a.leader == 0 && k <= 2) {
    } else if k <= 2 {
      ReleasedUnsound(s, a, k);
    } else if k <= 4 {
      BidderSolvent(s, e.bidder);
      BidderHolds(s, a, e.bidder, e.amount);
      HoldOff(PrefixOf(s, e, k), e.bidder);
    } else {
      BidEnds(s, e);
      BidKeepsSound(s, e.bidder, e.auction, e.amount);
      SoundFrame(PrefixOf(s, e, 7), PrefixOf(s, e, k));
    }
  }

  lemma BidderSolvent(s: Store, user: nat)
    requires Sound(s) && Exists(s.users, user)
    ensures Solvent(s.users[user - 1].wallet) && s.users[user - 1].wallet.hold == Escrowed(s.auctions, user)
  {
    assert GoodUser(s, user - 1);
    SharesNonneg(s, user);
  }

  lemma CloseSoundIff(s: Store, e: Event, k: nat)
    requires Reachable(s) && ClosesNow(s, e)
    ensures Sound(PrefixOf(s, e, k)) <==> !Torn(s, e, k)
  {
    hide Sound, Reachable, Disputes.Reviewed, ApplyDelta, SettleAt, Step;
    ReachableSound(s);
    var a := Lot(s, e);
    CloseReady(s, e.auction);
    var n := CloseLength(s, a);
    if Sells(a) {
      SettleSoundIff(s, e.auction, k);
      SettleSoundIff(s, e.auction, n);
      if k > n {
        SoundFrame(CloseAt(s, a, n), PrefixOf(s, e, k));
      }
    } else if k == 0 {
    } else if a.leader != 0 && k == 1 {
      FrozenHoldUnsound(s, PrefixOf(s, e, 1), e.auction);
    } else {
      CloseEnds(s, e);
      StepKeepsSound(s, e);
      SoundFrame(PrefixOf(s, e, n + 1), PrefixOf(s, e, k));
    }
  }

  lemma RefundAlwaysSound(s: Store, e: Event, k: nat)
    requires Sound(s) && RefundsNow(s, e)
    ensures Sound(PrefixOf(s, e, k))
  {
    hide Sound, ApplyDelta, Pays;
    var a := Lot(s, e);
    var t := PrefixOf(s, e, k);
    var back := s.(users := ApplyDelta(s.users, a.leader, a.currentBid, 0));
    BalanceMoveKeepsSound(s, a.leader, a.currentBid);
    BalanceMoveKeepsSound(back, a.seller, -a.currentBid);
    if k > 0 {
      RefundUsers(DisputeWritten(s, e), e.dispute, a, k - 1);
      RefundAuctions(DisputeWritten(s, e), e.dispute, a, k - 1);
    }
    SoundFrame(if t.users == s.users then s
               else if t.users == back.users then back
               else s.(users := ApplyDelta(back.users, a.seller, -a.currentBid, 0)), t);
  }

  lemma RefundAuctions(s: Store, dispute: nat, a: Auction, k: nat)
    ensures RefundAt(s, dispute, a, k).auctions == s.auctions
  {
    UsersCount(s, a.leader, a.currentBid, 0);
    hide ApplyDelta;
  }

  /** Cut short anywhere, every handler that moves money leaves each hold the escrow of the open auctions, except
      a bid between its first wallet write and its record, and a close between its record and the leader's
      wallet write. */
  lemma SoundIff(s: Store, e: Event, k: nat)
    requires Reachable(s) && MovesMoney(s, e)
    ensures Sound(PrefixOf(s, e, k)) <==> !Torn(s, e, k)
  {
    hide Sound, Reachable, Disputes.Reviewed, BidAt, CloseAt, RefundAt, ApplyDelta;
    ReachableSound(s);
    if Deposits(s, e) {
      BalanceMoveKeepsSound(s, e.user, e.amount);
      var moved := s.(users := ApplyDelta(s.users, e.user, e.amount, 0));
      SoundFrame(if k == 0 then s else moved, PrefixOf(s, e, k));
    } else if Bids(s, e) {
      BidSoundIff(s, e, k);
    } else if ClosesNow(s, e) {
      CloseSoundIff(s, e, k);
    } else {
      RefundAlwaysSound(s, e, k);
    }
  }
}
