/** Money accounting: the guards that never fire, the exact conservation law, and the
    reconstruction of every wallet from the transaction log. */
module Ledger {
  import opened Records
  import opened Sums
  import opened Wallets
  import opened Events
  import opened Escrow
  import Disputes

  // ---------- wallet calls, as the log records them ----------

  datatype Call = Call(user: nat, balanceDelta: int, holdDelta: int)

  function CallOf(e: Entry): Option<Call> {
    match e
    case Hold(user, amount) => Some(Call(user, 0, amount))
    case Release(user, amount) => Some(Call(user, 0, -amount))
    case Settle(user, amount) => Some(Call(user, -amount, -amount))
    case Credit(user, amount) => Some(Call(user, amount, 0))
    case _ => None
  }

  /** The user table after the wallet calls of some log entries. */
  function ApplyAll(users: seq<User>, entries: seq<Entry>): seq<User> {
    if entries == [] then users
    else
      var before := ApplyAll(users, entries[..|entries| - 1]);
      match CallOf(entries[|entries| - 1])
      case None => before
      case Some(c) => ApplyDelta(before, c.user, c.balanceDelta, c.holdDelta)
  }

  /** Every one of those calls finds its user and passes without a guard firing. */
  predicate AllQuiet(users: seq<User>, entries: seq<Entry>) {
    entries == [] ||
    var before := ApplyAll(users, entries[..|entries| - 1]);
    && AllQuiet(users, entries[..|entries| - 1])
    && match CallOf(entries[|entries| - 1])
       case None => true
       case Some(c) => Exists(before, c.user) && Quiet(before[c.user - 1].wallet, c.balanceDelta, c.holdDelta)
  }

  /** What an event adds to the log. */
  function NewEntries(s: Store, e: Event): seq<Entry> {
    var t := Step(s, e).store;
    if s.log <= t.log then t.log[|s.log|..] else []
  }

  lemma ApplyOne(users: seq<User>, entries: seq<Entry>, e: Entry)
    ensures ApplyAll(users, entries + [e]) ==
      match CallOf(e)
      case None => ApplyAll(users, entries)
      case Some(c) => ApplyDelta(ApplyAll(users, entries), c.user, c.balanceDelta, c.holdDelta)
    ensures AllQuiet(users, entries + [e]) <==>
      && AllQuiet(users, entries)
      && match CallOf(e)
         case None => true
         case Some(c) =>
           var before := ApplyAll(users, entries);
           Exists(before, c.user) && Quiet(before[c.user - 1].wallet, c.balanceDelta, c.holdDelta)
  {
    assert (entries + [e])[..|entries|] == entries;
  }

  // ---------- the sanity guards are dead for bids and closes ----------

  function BidEntries(a: Auction, bidder: nat, amount: int): seq<Entry> {
    (if a.leader != 0 then [Release(a.leader, a.currentBid)] else [])
    + [Hold(bidder, amount), BidPlaced(a.id, bidder, amount)]
  }

  lemma ReleaseQuiet(users: seq<User>, a: Auction)
    requires LeaderHolds(users, a) && a.leader != 0
    ensures AllQuiet(users, [Release(a.leader, a.currentBid)])
    ensures ApplyAll(users, [Release(a.leader, a.currentBid)]) == Moved(users, a.leader, 0, -a.currentBid)
  {
    ApplyOne(users, [], Release(a.leader, a.currentBid));
    assert [] + [Release(a.leader, a.currentBid)] == [Release(a.leader, a.currentBid)];
    QuietMoves(users, a.leader, 0, -a.currentBid);
  }

  lemma BidEntriesQuiet(users: seq<User>, a: Auction, bidder: nat, amount: int)
    requires LeaderHolds(users, a) && Exists(users, bidder)
    requires 0 <= amount <= users[bidder - 1].wallet.Available() && 0 <= users[bidder - 1].wallet.hold
    ensures AllQuiet(users, BidEntries(a, bidder, amount))
  {
    var release := if a.leader != 0 then [Release(a.leader, a.currentBid)] else [];
    if a.leader != 0 {
      ReleaseQuiet(users, a);
    }
    ApplyOne(users, release, Hold(bidder, amount));
    ApplyOne(users, release + [Hold(bidder, amount)], BidPlaced(a.id, bidder, amount));
    assert BidEntries(a, bidder, amount) == release + [Hold(bidder, amount)] + [BidPlaced(a.id, bidder, amount)];
  }

  lemma BidQuiet(s: Store, e: Event)
    requires Sound(s) && e.PlaceBid? && BidAccepted(s, e.bidder, e.auction, e.amount)
    ensures AllQuiet(s.users, NewEntries(s, e))
    ensures Hold(e.bidder, e.amount) in NewEntries(s, e)
  {
    BidKeepsSound(s, e.bidder, e.auction, e.amount);
    var a := s.auctions[e.auction - 1];
    assert GoodAuction(s, e.auction - 1);
    var all := BidEntries(a, e.bidder, e.amount);
    assert Step(s, e).store.log == s.log + all;
    assert NewEntries(s, e) == all;
    BidEntriesQuiet(s.users, a, e.bidder, e.amount);
    assert Hold(e.bidder, e.amount) == all[|all| - 2];
  }

  lemma CloseEntriesQuiet(s: Store, a: Auction)
    requires LeaderHolds(s.users, a) && Exists(s.users, a.seller)
    requires 0 <= a.currentBid && Solvent(s.users[a.seller - 1].wallet)
    ensures AllQuiet(s.users, CloseEntries(a))
  {
    var wal := WalSettle(a.id, a.leader, a.seller, a.currentBid);
    if Sells(a) {
      ApplyOne(s.users, [], wal);
      assert [] + [wal] == [wal];
      ApplyOne(s.users, [wal], Settle(a.leader, a.currentBid));
      QuietMoves(s.users, a.leader, -a.currentBid, -a.currentBid);
      ApplyOne(s.users, [wal] + [Settle(a.leader, a.currentBid)], Credit(a.seller, a.currentBid));
      assert CloseEntries(a) == [wal] + [Settle(a.leader, a.currentBid)] + [Credit(a.seller, a.currentBid)];
    } else if a.leader != 0 {
      ApplyOne(s.users, [], Release(a.leader, a.currentBid));
      assert CloseEntries(a) == [] + [Release(a.leader, a.currentBid)];
    }
  }

  function CloseNote(e: Event): Entry
    requires e.CloseAuction? || e.Expire?
  {
    if e.Expire? then TimerClosed(e.auction) else AuctionClosed(e.auction, e.requester)
  }

  /** A close that goes through appends its entries and one closing note; any other leaves the store. */
  lemma CloseLog(s: Store, e: Event)
    requires Sound(s) && (e.CloseAuction? || e.Expire?)
    requires Exists(s.auctions, e.auction) && s.auctions[e.auction - 1].status == Open
    ensures Step(s, e).store == s
         || Step(s, e).store.log == s.log + (CloseEntries(s.auctions[e.auction - 1]) + [CloseNote(e)])
  {
    CloseReady(s, e.auction);
    var a := s.auctions[e.auction - 1];
    CloseEffect(s, a);
    var log := CloseInternal(s, a).log;
    assert log == s.log + CloseEntries(a);
    assert log + [CloseNote(e)] == s.log + (CloseEntries(a) + [CloseNote(e)]);
  }

  lemma NewEntriesAre(s: Store, e: Event, entries: seq<Entry>)
    requires Step(s, e).store.log == s.log + entries
    ensures NewEntries(s, e) == entries
  {}

  lemma CloseWithNoteQuiet(s: Store, auction: nat, note: Entry)
    requires Sound(s) && Exists(s.auctions, auction) && s.auctions[auction - 1].status == Open
    requires CallOf(note).None?
    ensures AllQuiet(s.users, CloseEntries(s.auctions[auction - 1]) + [note])
  {
    CloseReady(s, auction);
    var a := s.auctions[auction - 1];
    CloseEntriesQuiet(s, a);
    ApplyOne(s.users, CloseEntries(a), note);
  }

  lemma CloseQuiet(s: Store, e: Event)
    requires Sound(s) && (e.CloseAuction? || e.Expire?)
    requires Exists(s.auctions, e.auction) && s.auctions[e.auction - 1].status == Open
    ensures AllQuiet(s.users, NewEntries(s, e))
  {
    var entries := CloseEntries(s.auctions[e.auction - 1]) + [CloseNote(e)];
    assert AllQuiet(s.users, entries) by {
      CloseWithNoteQuiet(s, e.auction, CloseNote(e));
    }
    CloseLog(s, e);
    if Step(s, e).store == s {
      NewEntriesAre(s, e, []);
    } else {
      NewEntriesAre(s, e, entries);
    }
  }

  /** The bidder's hold grew by the amount, less the bid of the same user that it replaces. */
  predicate HoldPlaced(s: Store, t: Store, e: Event)
    requires e.PlaceBid?
  {
    && Exists(s.users, e.bidder) && Exists(t.users, e.bidder) && Exists(s.auctions, e.auction)
    && Hold(e.bidder, e.amount) in t.log
    && var a := s.auctions[e.auction - 1];
      t.users[e.bidder - 1].wallet.hold
      == s.users[e.bidder - 1].wallet.hold - (if a.leader == e.bidder then a.currentBid else 0) + e.amount
  }

  lemma AcceptedBidHolds(s: Store, e: Event)
    requires Sound(s) && e.PlaceBid? && BidAccepted(s, e.bidder, e.auction, e.amount)
    ensures HoldPlaced(s, Step(s, e).store, e)
  {
    BidKeepsSound(s, e.bidder, e.auction, e.amount);
    var log := BidStore(s, e.bidder, e.auction, e.amount).log;
    assert log[|log| - 2] == Hold(e.bidder, e.amount);
  }

  /** In every reachable store a bid, a manual close or a timer close makes only wallet calls that
      pass all guards, and an accepted bid always places its hold. */
  lemma GuardsAreDead(s: Store, e: Event)
    requires Reachable(s) && (e.PlaceBid? || e.CloseAuction? || e.Expire?)
    ensures AllQuiet(s.users, NewEntries(s, e))
    ensures e.PlaceBid? && Step(s, e).status == ERR_OK ==> HoldPlaced(s, Step(s, e).store, e)
  {
    ReachableSound(s);
    if e.PlaceBid? {
      if BidAccepted(s, e.bidder, e.auction, e.amount) {
        BidQuiet(s, e);
        AcceptedBidHolds(s, e);
      }
    } else if Exists(s.auctions, e.auction) && s.auctions[e.auction - 1].status == Open {
      CloseQuiet(s, e);
    }
  }

  // ---------- conservation ----------

  function BalanceOf(): User -> int {
    (u: User) => u.wallet.balance
  }

  function TotalBalance(s: Store): int {
    SumOf(s.users, BalanceOf())
  }

  lemma MovedTotal(users: seq<User>, id: nat, balanceDelta: int, holdDelta: int)
    requires Exists(users, id)
    ensures SumOf(Moved(users, id, balanceDelta, holdDelta), BalanceOf()) == SumOf(users, BalanceOf()) + balanceDelta
  {
    SumOfUpdate(users, id - 1, Moved(users, id, balanceDelta, holdDelta)[id - 1], BalanceOf());
  }

  lemma DeltaTotal(users: seq<User>, id: nat, balanceDelta: int, holdDelta: int)
    ensures SumOf(ApplyDelta(users, id, balanceDelta, holdDelta), BalanceOf())
         == SumOf(users, BalanceOf()) + if Accepts(users, id, balanceDelta, holdDelta) then balanceDelta else 0
  {
    if Accepts(users, id, balanceDelta, holdDelta) {
      SumOfUpdate(users, id - 1, ApplyDelta(users, id, balanceDelta, holdDelta)[id - 1], BalanceOf());
    }
  }

  /** The refund reaches the winner exactly when the auction has one. */
  function Credited(s: Store, a: Auction): int {
    if Exists(s.users, a.leader) then a.currentBid else 0
  }

  /** The seller can give the money back. A seller who won the own auction was just credited. */
  predicate SellerCovers(s: Store, a: Auction)
    requires Exists(s.users, a.seller)
  {
    a.seller == a.leader || s.users[a.seller - 1].wallet.Available() >= a.currentBid
  }

  function Debited(s: Store, a: Auction): int {
    if Exists(s.users, a.seller) && SellerCovers(s, a) then a.currentBid else 0
  }

  /** The change of the total that an event is accountable for. */
  function Booked(s: Store, e: Event): int {
    if !Served(s, e) then 0
    else
      match e
      case Deposit(_, amount) => if amount > 0 then amount else 0
      case ResolveDispute(_, dispute, DisputeResolved) =>
        if Disputes.Decides(s, dispute, DisputeResolved) && Exists(s.auctions, s.disputes[dispute - 1].auction) then
          var a := s.auctions[s.disputes[dispute - 1].auction - 1];
          Credited(s, a) - Debited(s, a)
        else 0
      case _ => 0
  }

  function BookedOver(s: Store, es: seq<Event>): int {
    if es == [] then 0
    else BookedOver(s, es[..|es| - 1]) + Booked(Exec(s, es[..|es| - 1]), es[|es| - 1])
  }

  /** Which of a refund's calls pass. */
  lemma RefundAccepted(users: seq<User>, a: Auction)
    requires 0 < a.currentBid && Exists(users, a.seller) && Solvent(users[a.seller - 1].wallet)
    requires Exists(users, a.leader) ==> Solvent(users[a.leader - 1].wallet)
    ensures var credited := ApplyDelta(users, a.leader, a.currentBid, 0);
      && |credited| == |users|
      && (Accepts(users, a.leader, a.currentBid, 0) <==> Exists(users, a.leader))
      && (credited[a.seller - 1].wallet.balance >= a.currentBid && Accepts(credited, a.seller, -a.currentBid, 0)
          <==> a.seller == a.leader || users[a.seller - 1].wallet.Available() >= a.currentBid)
  {}

  lemma RefundTotal(s: Store, dispute: nat, a: Auction)
    requires Sound(s) && 0 < a.currentBid && Exists(s.users, a.seller)
    ensures TotalBalance(Refund(s, dispute, a)) == TotalBalance(s) + Credited(s, a) - Debited(s, a)
  {
    assert GoodUser(s, a.seller - 1);
    SharesNonneg(s, a.seller);
    if Exists(s.users, a.leader) {
      assert GoodUser(s, a.leader - 1);
      SharesNonneg(s, a.leader);
    }
    RefundAccepted(s.users, a);
    hide ApplyDelta, Accepts, Sound;
    var credited := ApplyDelta(s.users, a.leader, a.currentBid, 0);
    DeltaTotal(s.users, a.leader, a.currentBid, 0);
    DeltaTotal(credited, a.seller, -a.currentBid, 0);
  }

  lemma CloseTotal(s: Store, a: Auction)
    requires Exists(s.auctions, a.id) && LeaderHolds(s.users, a) && Exists(s.users, a.seller)
    ensures TotalBalance(CloseStore(s, a)) == TotalBalance(s)
  {
    if Sells(a) {
      MovedTotal(s.users, a.leader, -a.currentBid, -a.currentBid);
      MovedTotal(Moved(s.users, a.leader, -a.currentBid, -a.currentBid), a.seller, a.currentBid, 0);
    } else if a.leader != 0 {
      MovedTotal(s.users, a.leader, 0, -a.currentBid);
    }
  }

  lemma BidTotal(s: Store, bidder: nat, auction: nat, amount: int)
    requires BidAccepted(s, bidder, auction, amount) && LeaderHolds(s.users, s.auctions[auction - 1])
    ensures TotalBalance(BidStore(s, bidder, auction, amount)) == TotalBalance(s)
  {
    var a := s.auctions[auction - 1];
    if a.leader != 0 {
      MovedTotal(s.users, a.leader, 0, -a.currentBid);
      MovedTotal(Moved(s.users, a.leader, 0, -a.currentBid), bidder, 0, amount);
    } else {
      MovedTotal(s.users, bidder, 0, amount);
    }
  }

  lemma AdminTotal(s: Store, e: Event)
    requires e.AddUser? || e.ChangeRole? || e.ToggleAccount? || e.DeleteUser?
    ensures TotalBalance(Handle(s, e).store) == TotalBalance(s)
  {
    var t := Handle(s, e).store;
    if t != s {
      if e.AddUser? {
        SumOfAppend(s.users, t.users[|s.users|], BalanceOf());
      } else {
        SumOfUpdate(s.users, e.target - 1, t.users[e.target - 1], BalanceOf());
      }
    }
  }

  lemma DecidedUsers(s: Store, e: Event)
    requires e.ResolveDispute?
    ensures Disputes.Decides(s, e.dispute, e.verdict) && Exists(s.auctions, s.disputes[e.dispute - 1].auction) ==>
      var d := s.disputes[e.dispute - 1];
      var s1 := s.(disputes := s.disputes[e.dispute - 1 := d.(status := e.verdict, resolvedBy := e.moderator)]);
      Handle(s, e).store.users
        == if e.verdict == DisputeResolved then Refund(s1, e.dispute, s.auctions[d.auction - 1]).users else s.users
    ensures !Disputes.Decides(s, e.dispute, e.verdict) ==> Handle(s, e).store.users == s.users
  {
    hide Refund;
  }

  /** The auction of an open dispute. */
  lemma DisputedLot(s: Store, dispute: nat)
    requires Sound(s) && Disputes.Reviewed(s)
    requires Exists(s.disputes, dispute) && s.disputes[dispute - 1].status == DisputeOpen
    ensures Exists(s.auctions, s.disputes[dispute - 1].auction)
    ensures var a := s.auctions[s.disputes[dispute - 1].auction - 1];
      0 < a.currentBid && Exists(s.users, a.seller) && a.leader <= |s.users|
  {
    Disputes.LiveMeansDisputed(s, dispute - 1);
    assert GoodAuction(s, s.disputes[dispute - 1].auction - 1);
  }

  lemma ResolveTotal(s: Store, e: Event)
    requires Sound(s) && Disputes.Reviewed(s) && e.ResolveDispute? && Served(s, e)
    ensures TotalBalance(Handle(s, e).store) == TotalBalance(s) + Booked(s, e)
  {
    hide Refund, Handle, Sound, Disputes.Reviewed, Credited, Debited;
    DecidedUsers(s, e);
    if Disputes.Decides(s, e.dispute, e.verdict) {
      DisputedLot(s, e.dispute);
      var d := s.disputes[e.dispute - 1];
      var a := s.auctions[d.auction - 1];
      var s1 := s.(disputes := s.disputes[e.dispute - 1 := d.(status := e.verdict, resolvedBy := e.moderator)]);
      SoundFrame(s, s1);
      RefundTotal(s1, e.dispute, a);
      SameSides(s, s1, a);
    }
  }

  lemma SameSides(s: Store, t: Store, a: Auction)
    requires s.users == t.users
    ensures Credited(s, a) == Credited(t, a) && Debited(s, a) == Debited(t, a)
  {}

  lemma TradeTotal(s: Store, e: Event)
    requires Sound(s) && Served(s, e)
    requires e.PlaceBid? || e.CloseAuction? || e.Expire?
    ensures TotalBalance(Handle(s, e).store) == TotalBalance(s)
  {
    var t := Handle(s, e).store;
    if e.PlaceBid? {
      if BidAccepted(s, e.bidder, e.auction, e.amount) {
        BidKeepsSound(s, e.bidder, e.auction, e.amount);
        BidTotal(s, e.bidder, e.auction, e.amount);
      }
    } else if t != s && Exists(s.auctions, e.auction) && s.auctions[e.auction - 1].status == Open {
      CloseKeepsSound(s, e.auction);
      CloseTotal(s, s.auctions[e.auction - 1]);
    }
  }

  lemma StepBooked(s: Store, e: Event)
    requires Sound(s) && Disputes.Reviewed(s)
    ensures TotalBalance(Step(s, e).store) == TotalBalance(s) + Booked(s, e)
  {
    if Served(s, e) {
      if e.Deposit? {
        if e.amount > 0 {
          assert GoodUser(s, e.user - 1);
          SharesNonneg(s, e.user);
          DeltaTotal(s.users, e.user, e.amount, 0);
        }
      } else if e.PlaceBid? || e.CloseAuction? || e.Expire? {
        TradeTotal(s, e);
      } else if e.ResolveDispute? {
        ResolveTotal(s, e);
      } else if e.AddUser? || e.ChangeRole? || e.ToggleAccount? || e.DeleteUser? {
        AdminTotal(s, e);
      }
    }
  }

  /** Over any run, the total changes by the accepted deposits and, for each resolved dispute, by what
      the winner was credited less what the seller was debited. Nothing else moves it. */
  lemma {:induction false} Conservation(s: Store, es: seq<Event>)
    requires Sound(s) && Disputes.Reviewed(s)
    ensures TotalBalance(Exec(s, es)) == TotalBalance(s) + BookedOver(s, es)
  {
    if es != [] {
      var init := es[..|es| - 1];
      Conservation(s, init);
      RunKeepsSound(s, init);
      StepBooked(Exec(s, init), es[|es| - 1]);
    }
  }

  /** A refund keeps the total exactly when both halves happen or neither does. */
  lemma RefundConservesIff(s: Store, moderator: nat, dispute: nat)
    requires Sound(s) && Disputes.Reviewed(s)
    requires Exists(s.users, moderator) && Disputes.Decides(s, dispute, DisputeResolved)
    ensures Exists(s.auctions, s.disputes[dispute - 1].auction)
    ensures Exists(s.users, s.auctions[s.disputes[dispute - 1].auction - 1].seller)
    ensures var a := s.auctions[s.disputes[dispute - 1].auction - 1];
      TotalBalance(Step(s, ResolveDispute(moderator, dispute, DisputeResolved)).store) == TotalBalance(s)
      <==> (a.leader != 0 <==> SellerCovers(s, a))
  {
    Disputes.LiveMeansDisputed(s, dispute - 1);
    assert GoodAuction(s, s.disputes[dispute - 1].auction - 1);
    StepBooked(s, ResolveDispute(moderator, dispute, DisputeResolved));
  }

  // ---------- audit replay ----------

  /** The wallet of one user as the log alone tells it, starting from an empty wallet. */
  function Replay(log: seq<Entry>, user: nat): Wallet {
    if log == [] then Wallet(0, 0)
    else
      var w := Replay(log[..|log| - 1], user);
      match CallOf(log[|log| - 1])
      case None => w
      case Some(c) =>
        if c.user != user then w
        else
          match Guarded(w, c.balanceDelta, c.holdDelta)
          case None => w
          case Some(v) => v
  }

  /** The log tells the truth about every user; of users yet to come it tells nothing. */
  ghost predicate Audited(s: Store) {
    forall u: nat :: u >= 1 ==>
      Replay(s.log, u) == if u <= |s.users| then s.users[u - 1].wallet else Wallet(0, 0)
  }

  /** A table that changed its wallets only by the call of one entry. */
  lemma AuditEntry(s: Store, e: Entry)
    requires Audited(s)
    requires CallOf(e).Some? ==> CallOf(e).value.user <= |s.users|
    ensures Audited(s.(users := ApplyAll(s.users, [e]), log := s.log + [e]))
  {
    var t := s.(users := ApplyAll(s.users, [e]), log := s.log + [e]);
    ApplyOne(s.users, [], e);
    assert [] + [e] == [e];
    forall u: nat | u >= 1
      ensures Replay(t.log, u) == if u <= |t.users| then t.users[u - 1].wallet else Wallet(0, 0)
    {
      assert t.log[..|t.log| - 1] == s.log;
    }
  }

  /** Entries that call no wallet, and tables other than the users, do not matter. */
  lemma AuditNote(s: Store, t: Store, e: Entry)
    requires Audited(s) && CallOf(e).None?
    requires t.users == s.users && t.log == s.log + [e]
    ensures Audited(t)
  {
    AuditEntry(s, e);
  }

  /** Records may change or appear as long as the wallets do not move. */
  lemma AuditRecords(s: Store, t: Store)
    requires Audited(s) && t.log == s.log && |s.users| <= |t.users|
    requires forall i :: 0 <= i < |s.users| ==> t.users[i].wallet == s.users[i].wallet
    requires forall i :: |s.users| <= i < |t.users| ==> t.users[i].wallet == Wallet(0, 0)
    ensures Audited(t)
  {}

  lemma AuditCall(s: Store, e: Entry, c: Call)
    requires Audited(s) && CallOf(e) == Some(c) && c.user <= |s.users|
    ensures Audited(s.(users := ApplyDelta(s.users, c.user, c.balanceDelta, c.holdDelta), log := s.log + [e]))
  {
    AuditEntry(s, e);
    ApplyOne(s.users, [], e);
    assert [] + [e] == [e];
  }

  /** Each wallet operation is logged as it is done, and logged even when it is refused. */
  lemma AuditWallet(s: Store, id: nat, amount: int)
    requires Audited(s) && id <= |s.users|
    ensures Audited(PlaceHold(s, id, amount)) && Audited(ReleaseHold(s, id, amount))
    ensures Audited(SettlePayment(s, id, amount)) && Audited(CreditWallet(s, id, amount))
  {
    AuditCall(s, Hold(id, amount), Call(id, 0, amount));
    AuditCall(s, Release(id, amount), Call(id, 0, -amount));
    AuditCall(s, Settle(id, amount), Call(id, -amount, -amount));
    AuditCall(s, Credit(id, amount), Call(id, amount, 0));
  }

  lemma AuditClose(s: Store, a: Auction)
    requires Audited(s) && a.leader <= |s.users| && a.seller <= |s.users|
    ensures Audited(CloseInternal(s, a))
  {
    var s1 := s.(auctions := Put(s.auctions, a.id, a.(status := Closed)));
    AuditRecords(s, s1);
    if Sells(a) {
      var wal := WalSettle(a.id, a.leader, a.seller, a.currentBid);
      var s2 := s1.(log := s1.log + [wal]);
      AuditNote(s1, s2, wal);
      AuditWallet(s2, a.leader, a.currentBid);
      AuditWallet(SettlePayment(s2, a.leader, a.currentBid), a.seller, a.currentBid);
      AuditRecords(CreditWallet(SettlePayment(s2, a.leader, a.currentBid), a.seller, a.currentBid), CloseInternal(s, a));
    } else {
      AuditWallet(s1, a.leader, a.currentBid);
    }
  }

  lemma AuditBid(s: Store, bidder: nat, auction: nat, amount: int)
    requires Audited(s) && BidAccepted(s, bidder, auction, amount)
    requires s.auctions[auction - 1].leader <= |s.users|
    ensures Audited(DoBid(s, bidder, auction, amount).store)
  {
    var a := s.auctions[auction - 1];
    AuditWallet(s, a.leader, a.currentBid);
    var s1 := if a.leader != 0 then ReleaseHold(s, a.leader, a.currentBid) else s;
    AuditWallet(s1, bidder, amount);
    AuditNote(PlaceHold(s1, bidder, amount), DoBid(s, bidder, auction, amount).store,
              BidPlaced(auction, bidder, amount));
  }

  lemma AuditRefund(s: Store, dispute: nat, a: Auction)
    requires Audited(s) && a.leader <= |s.users| && a.seller <= |s.users|
    ensures Audited(Refund(s, dispute, a))
  {
    var wal := WalRefund(dispute, a.id, a.leader, a.seller, a.currentBid);
    var s1 := s.(log := s.log + [wal]);
    AuditNote(s, s1, wal);
    AuditWallet(s1, a.leader, a.currentBid);
    var s2 := CreditWallet(s1, a.leader, a.currentBid);
    AuditWallet(s2, a.seller, -a.currentBid);
    AuditNote(s2, s2.(log := s2.log + [RefundAnomaly]), RefundAnomaly);
  }

  lemma AuditResolve(s: Store, e: Event)
    requires Audited(s) && Sound(s) && Disputes.Reviewed(s) && e.ResolveDispute?
    ensures Audited(Handle(s, e).store)
  {
    if Disputes.Decides(s, e.dispute, e.verdict) {
      Disputes.LiveMeansDisputed(s, e.dispute - 1);
      var d := s.disputes[e.dispute - 1];
      var a := s.auctions[d.auction - 1];
      assert GoodAuction(s, d.auction - 1);
      var s1 := s.(disputes := s.disputes[e.dispute - 1 := d.(status := e.verdict, resolvedBy := e.moderator)]);
      AuditRecords(s, s1);
      AuditRefund(s1, e.dispute, a);
      var s2 := if e.verdict == DisputeResolved then Refund(s1, e.dispute, a)
                else s1.(auctions := s1.auctions[d.auction - 1 := a.(status := Closed)]);
      AuditNote(s2, Handle(s, e).store, DisputeDecided(e.dispute, e.verdict, e.moderator));
    }
  }

  lemma AuditRecordEvent(s: Store, e: Event)
    requires Audited(s)
    requires e.AddUser? || e.ChangeRole? || e.ToggleAccount? || e.DeleteUser? || e.CreateAuction? || e.FileDispute?
    ensures Audited(Handle(s, e).store)
  {
    hide AdminCount, Taken, Audited;
    var t := Handle(s, e).store;
    if t != s {
      AuditRecords(s, s.(users := t.users));
      assert t.log == s.log + [t.log[|s.log|]];
      AuditNote(s.(users := t.users), t, t.log[|s.log|]);
    }
  }

  lemma StepKeepsAudited(s: Store, e: Event)
    requires Audited(s) && Sound(s) && Disputes.Reviewed(s)
    ensures Audited(Step(s, e).store)
  {
    if Served(s, e) {
      var t := Handle(s, e).store;
      if e.Deposit? {
        AuditWallet(s, e.user, e.amount);
      } else if e.PlaceBid? {
        if BidAccepted(s, e.bidder, e.auction, e.amount) {
          assert GoodAuction(s, e.auction - 1);
          AuditBid(s, e.bidder, e.auction, e.amount);
        }
      } else if e.CloseAuction? || e.Expire? {
        if t != s && Exists(s.auctions, e.auction) {
          var a := s.auctions[e.auction - 1];
          assert GoodAuction(s, e.auction - 1);
          AuditClose(s, a);
          AuditNote(CloseInternal(s, a), t, t.log[|t.log| - 1]);
        }
      } else if e.ResolveDispute? {
        AuditResolve(s, e);
      } else {
        AuditRecordEvent(s, e);
      }
    }
  }

  lemma {:induction false} RunKeepsAudited(s: Store, es: seq<Event>)
    requires Audited(s) && Sound(s) && Disputes.Reviewed(s)
    ensures Audited(Exec(s, es))
  {
    if es != [] {
      var init := es[..|es| - 1];
      RunKeepsAudited(s, init);
      RunKeepsSound(s, init);
      StepKeepsAudited(Exec(s, init), es[|es| - 1]);
    }
  }

  /** After any run from the seed, the wallet entries of the log rebuild every user's wallet. */
  lemma LogRebuildsWallets(es: seq<Event>, user: nat)
    requires Exists(Exec(SEED, es).users, user)
    ensures Replay(Exec(SEED, es).log, user) == Exec(SEED, es).users[user - 1].wallet
  {
    assert GoodUser(SEED, 0);
    RunKeepsAudited(SEED, es);
  }
}
