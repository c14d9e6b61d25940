/** The handlers as they run: one object holding the data files, updated record by record.
    Each method is proved to do exactly what its event function says. */
module Server {
  import opened Records
  import opened Wallets
  import opened Events
  import Timer
  import Crash

  class DataFiles {
    var users: seq<User>
    var auctions: seq<Auction>
    var bids: seq<Bid>
    var disputes: seq<Dispute>
    var log: seq<Entry>

    function Contents(): Store
      reads this
    {
      Store(users, auctions, bids, disputes, log)
    }

    /** A record's id is its position, so writing at the record's own id writes it back in place. */
    ghost predicate Valid()
      reads this
    {
      && (forall i :: 0 <= i < |users| ==> users[i].id == i + 1)
      && (forall i :: 0 <= i < |auctions| ==> auctions[i].id == i + 1)
      && (forall i :: 0 <= i < |disputes| ==> disputes[i].id == i + 1)
    }

    constructor ()
      ensures Valid() && Contents() == SEED
    {
      users := [User(1, "admin", ROLE_ADMIN, ACCOUNT_ACTIVE, Wallet(0, 0), false)];
      auctions, bids, disputes, log := [], [], [], [];
    }

    // ---------- common/file_io.h ----------

    method WriteUser(u: User)
      requires Valid() && 1 <= u.id <= |users| + 1
      modifies this`users
      ensures Valid() && users == Put(old(users), u.id, u)
    {
      users := Put(users, u.id, u);
    }

    method WriteAuction(a: Auction)
      requires Valid() && 1 <= a.id <= |auctions| + 1
      modifies this`auctions
      ensures Valid() && auctions == Put(old(auctions), a.id, a)
    {
      auctions := Put(auctions, a.id, a);
    }

    method WriteDispute(d: Dispute)
      requires Valid() && 1 <= d.id <= |disputes| + 1
      modifies this`disputes
      ensures Valid() && disputes == Put(old(disputes), d.id, d)
    {
      disputes := Put(disputes, d.id, d);
    }

    method LogTxn(e: Entry)
      modifies this`log
      ensures log == old(log) + [e]
    {
      log := log + [e];
    }

    // ---------- server/wallet.c ----------

    method ApplyWalletDelta(id: nat, balanceDelta: int, holdDelta: int) returns (ok: bool)
      requires Valid()
      modifies this`users
      ensures Valid() && users == ApplyDelta(old(users), id, balanceDelta, holdDelta)
      ensures ok == Accepts(old(users), id, balanceDelta, holdDelta)
    {
      var found := Find(users, id);
      if found.None? {
        return false;
      }
      var u := found.value;
      var newBalance := u.wallet.balance + balanceDelta;
      var newHold := u.wallet.hold + holdDelta;
      if newBalance < 0 {
        return false;
      }
      if newHold < 0 {
        newHold := 0;
      }
      if newHold > newBalance {
        return false;
      }
      WriteUser(u.(wallet := Wallet(newBalance, newHold)));
      return true;
    }

    method PlaceHold(id: nat, amount: int) returns (ok: bool)
      requires Valid()
      modifies this`users, this`log
      ensures Valid() && Contents() == Wallets.PlaceHold(old(Contents()), id, amount)
      ensures ok <==> Exists(old(users), id) && amount <= old(users)[id - 1].wallet.Available()
                      && Accepts(old(users), id, 0, amount)
    {
      var found := Find(users, id);
      if found.None? {
        return false;
      }
      var available := found.value.wallet.balance - found.value.wallet.hold;
      if amount > available {
        return false;
      }
      ok := ApplyWalletDelta(id, 0, amount);
      LogTxn(Hold(id, amount));
    }

    method ReleaseHold(id: nat, amount: int) returns (ok: bool)
      requires Valid()
      modifies this`users, this`log
      ensures Valid() && Contents() == Wallets.ReleaseHold(old(Contents()), id, amount)
      ensures ok == Accepts(old(users), id, 0, -amount)
    {
      ok := ApplyWalletDelta(id, 0, -amount);
      LogTxn(Release(id, amount));
    }

    method SettlePayment(id: nat, amount: int) returns (ok: bool)
      requires Valid()
      modifies this`users, this`log
      ensures Valid() && Contents() == Wallets.SettlePayment(old(Contents()), id, amount)
      ensures ok == Accepts(old(users), id, -amount, -amount)
    {
      ok := ApplyWalletDelta(id, -amount, -amount);
      LogTxn(Settle(id, amount));
    }

    method CreditWallet(id: nat, amount: int) returns (ok: bool)
      requires Valid()
      modifies this`users, this`log
      ensures Valid() && Contents() == Wallets.CreditWallet(old(Contents()), id, amount)
      ensures ok == Accepts(old(users), id, amount, 0)
    {
      ok := ApplyWalletDelta(id, amount, 0);
      LogTxn(Credit(id, amount));
    }

    method HandleDeposit(user: nat, amount: int) returns (status: int)
      requires Valid()
      modifies this`users, this`log
      ensures Valid() && Outcome(Contents(), status) == DoDeposit(old(Contents()), user, amount)
    {
      if amount <= 0 {
        return ERR_INTERNAL;
      }
      var ok := CreditWallet(user, amount);
      return if ok then ERR_OK else ERR_INTERNAL;
    }

    // ---------- server/bid_handler.c ----------

    method HandlePlaceBid(bidder: nat, auction: nat, amount: int) returns (status: int)
      requires Valid()
      modifies this
      ensures Valid() && Outcome(Contents(), status) == DoBid(old(Contents()), bidder, auction, amount)
    {
      hide ApplyDelta, Accepts;
      var peek := Find(auctions, auction);
      if peek.None? {
        return ERR_NOT_FOUND;
      }
      if peek.value.status != Open {
        return ERR_AUCTION_CLOSED;
      }
      var freshBidder := Find(users, bidder);
      if freshBidder.None? {
        return ERR_INTERNAL;
      }
      if amount > freshBidder.value.wallet.balance - freshBidder.value.wallet.hold {
        return ERR_INSUFFICIENT;
      }
      // The semaphore is taken here; the record is read again and checked again.
      var a := auctions[auction - 1];
      if a.status != Open {
        return ERR_AUCTION_CLOSED;
      }
      if amount <= a.currentBid {
        return ERR_BID_TOO_LOW;
      }
      var prevWinner, prevBid := a.leader, a.currentBid;
      if prevWinner != 0 {
        var _ := ReleaseHold(prevWinner, prevBid);
      }
      var _ := PlaceHold(bidder, amount);
      a := a.(currentBid := amount, leader := bidder, bidCount := a.bidCount + 1);
      WriteAuction(a);
      bids := bids + [Bid(|bids| + 1, auction, bidder, amount, true)];
      LogTxn(BidPlaced(auction, bidder, amount));
      return ERR_OK;
    }

    // ---------- server/auction_engine.c ----------

    method HandleCreateAuction(seller: nat, startPrice: int, reservePrice: int, duration: nat, now: int)
      returns (status: int)
      requires Valid()
      modifies this`auctions, this`log
      ensures Valid()
      ensures Outcome(Contents(), status) == DoCreate(old(Contents()), seller, startPrice, reservePrice, duration, now)
    {
      if startPrice <= 0 || duration < 10 {
        return ERR_INTERNAL;
      }
      var a := Auction(|auctions| + 1, seller, startPrice, reservePrice, startPrice, 0, Open, now + duration, 0);
      WriteAuction(a);
      LogTxn(AuctionCreated(a.id, seller));
      return ERR_OK;
    }

    /** The rewrite loop over bids.dat at settlement. */
    method RewriteBids(a: Auction)
      modifies this`bids
      ensures bids == MarkWinning(old(bids), a.id, a.leader)
    {
      ghost var was := bids;
      Crash.NothingMarked(was, a);
      var offset := 0;
      while offset < |bids|
        invariant 0 <= offset <= |bids| == |was|
        invariant bids == Crash.PartlyMarked(was, offset, a)
      {
        Crash.MarkNext(was, offset, a);
        Crash.MarkLength(was[..offset], a.id, a.leader);
        assert was[..offset + 1][..offset] == was[..offset];
        var b := bids[offset];
        assert b == was[offset];
        if b.auction == a.id && b.bidder == a.leader {
          bids := bids[offset := b.(isWinning := true)];
        }
        offset := offset + 1;
      }
      Crash.AllMarked(was, a);
    }

    method CloseAuctionInternal(a: Auction)
      requires Valid() && Exists(auctions, a.id)
      modifies this
      ensures Valid() && Contents() == CloseInternal(old(Contents()), a)
    {
      WriteAuction(a.(status := Closed));
      var reserveMet := a.reservePrice == 0 || a.currentBid >= a.reservePrice;
      if a.leader != 0 && reserveMet {
        LogTxn(WalSettle(a.id, a.leader, a.seller, a.currentBid));
        var _ := SettlePayment(a.leader, a.currentBid);
        var _ := CreditWallet(a.seller, a.currentBid);
        RewriteBids(a);
      } else if a.leader != 0 {
        var _ := ReleaseHold(a.leader, a.currentBid);
      }
    }

    method HandleCloseAuction(requester: nat, requesterRole: int, auction: nat) returns (status: int)
      requires Valid()
      modifies this
      ensures Valid() && Outcome(Contents(), status) == DoClose(old(Contents()), requester, requesterRole, auction)
    {
      var found := Find(auctions, auction);
      if found.None? {
        return ERR_NOT_FOUND;
      }
      var a := found.value;
      if a.seller != requester && requesterRole != ROLE_ADMIN {
        return ERR_PERMISSION;
      }
      if a.status != Open {
        return ERR_AUCTION_CLOSED;
      }
      CloseAuctionInternal(a);
      LogTxn(AuctionClosed(auction, requester));
      return ERR_OK;
    }

    /** The scan: fill the array with expired ids until the file or the array ends. */
    method CollectExpired(now: int, expired: array<nat>) returns (count: nat)
      requires Valid() && expired.Length == Timer.BATCH
      modifies expired
      ensures count <= expired.Length && expired[..count] == Timer.Batch(auctions, now)
    {
      count := 0;
      var i := 0;
      while i < |auctions| && count < expired.Length
        invariant 0 <= i <= |auctions| && count <= expired.Length
        invariant expired[..count] == Timer.ExpiredIds(auctions[..i], now)
      {
        assert auctions[..i + 1][..i] == auctions[..i];
        if auctions[i].status == Open && auctions[i].endTime <= now {
          expired[count] := auctions[i].id;
          count := count + 1;
        }
        i := i + 1;
      }
      Timer.ScanPrefix(auctions, now, i);
      assert i == |auctions| ==> auctions[..i] == auctions;
    }

    /** Round `i` of the closing loop: re-read, and close if still open. */
    method CloseExpired(auction: nat, ghost start: Store, ghost ids: seq<nat>, ghost i: nat)
      requires Valid() && i < |ids| && auction == ids[i]
      requires Contents() == Exec(start, Timer.Expiries(ids[..i]))
      modifies this
      ensures Valid() && Contents() == Exec(start, Timer.Expiries(ids[..i + 1]))
    {
      assert ids[..i + 1][..i] == ids[..i];
      Timer.ExpiriesSnoc(start, ids[..i + 1]);
      var found := Find(auctions, auction);
      if found.Some? && found.value.status == Open {
        CloseAuctionInternal(found.value);
        LogTxn(TimerClosed(auction));
      }
    }

    /** One wake-up of the timer thread. */
    method TimerTick(now: int)
      requires Valid()
      modifies this
      ensures Valid() && Contents() == Timer.Tick(old(Contents()), now)
    {
      var expired := new nat[Timer.BATCH];
      var count := CollectExpired(now, expired);
      ghost var s := Contents();
      ghost var ids := expired[..count];
      var i := 0;
      while i < count
        invariant 0 <= i <= count && expired[..count] == ids
        invariant Valid() && Contents() == Exec(s, Timer.Expiries(ids[..i]))
        modifies this
      {
        assert expired[i] == ids[i];
        CloseExpired(expired[i], s, ids, i);
        i := i + 1;
      }
      assert ids[..count] == ids;
    }

    // ---------- server/dispute.c ----------

    method HandleFileDispute(user: nat, auction: nat) returns (status: int)
      requires Valid()
      modifies this
      ensures Valid() && Outcome(Contents(), status) == DoFile(old(Contents()), user, auction)
    {
      var found := Find(auctions, auction);
      if found.None? {
        return ERR_NOT_FOUND;
      }
      var a := found.value;
      if a.status != Closed {
        return ERR_AUCTION_CLOSED;
      }
      var d := Dispute(|disputes| + 1, auction, user, 0, DisputeOpen);
      WriteDispute(d);
      WriteAuction(a.(status := Disputed));
      LogTxn(DisputeFiled(d.id, auction, user));
      return ERR_OK;
    }

    method IssueRefund(dispute: nat, a: Auction)
      requires Valid()
      modifies this`users, this`log
      ensures Valid() && Contents() == Refund(old(Contents()), dispute, a)
    {
      LogTxn(WalRefund(dispute, a.id, a.leader, a.seller, a.currentBid));
      var _ := CreditWallet(a.leader, a.currentBid);
      var seller := Find(users, a.seller);
      if seller.Some? {
        if seller.value.wallet.balance >= a.currentBid {
          var _ := CreditWallet(a.seller, -a.currentBid);
        } else {
          LogTxn(RefundAnomaly);
        }
      }
    }

    method HandleResolveDispute(moderator: nat, dispute: nat, verdict: DisputeStatus) returns (status: int)
      requires Valid()
      modifies this
      ensures Valid() && Outcome(Contents(), status) == DoResolve(old(Contents()), moderator, dispute, verdict)
    {
      if verdict != DisputeResolved && verdict != DisputeRejected {
        return ERR_INTERNAL;
      }
      var found := Find(disputes, dispute);
      if found.None? {
        return ERR_NOT_FOUND;
      }
      var d := found.value;
      if d.status != DisputeOpen {
        return ERR_INTERNAL;
      }
      d := d.(status := verdict, resolvedBy := moderator);
      WriteDispute(d);
      var auction := Find(auctions, d.auction);
      if auction.None? {
        return ERR_INTERNAL;
      }
      var a := auction.value;
      if verdict == DisputeResolved {
        IssueRefund(dispute, a);
      } else {
        WriteAuction(a.(status := Closed));
      }
      LogTxn(DisputeDecided(dispute, verdict, moderator));
      return ERR_OK;
    }

    method HandleToggleAccount(actorRole: int, target: nat, newStatus: int) returns (status: int)
      requires Valid()
      modifies this`users, this`log
      ensures Valid() && Outcome(Contents(), status) == DoToggle(old(Contents()), actorRole, target, newStatus)
    {
      var found := Find(users, target);
      if found.None? {
        return ERR_NOT_FOUND;
      }
      var u := found.value;
      if u.role >= actorRole {
        return ERR_PERMISSION;
      }
      WriteUser(u.(status := newStatus));
      LogTxn(AccountToggled(target, newStatus));
      return ERR_OK;
    }

    // ---------- server/admin.c ----------

    method HandleAddUser(username: string, role: int) returns (status: int)
      requires Valid()
      modifies this`users, this`log
      ensures Valid() && Outcome(Contents(), status) == DoAddUser(old(Contents()), username, role)
    {
      var name := Compared(username);
      var i := 0;
      while i < |users|
        invariant 0 <= i <= |users|
        invariant forall j :: 0 <= j < i ==> users[j].deleted || users[j].username != name
      {
        if !users[i].deleted && users[i].username == name {
          return ERR_INTERNAL;
        }
        i := i + 1;
      }
      var u := User(|users| + 1, Stored(username), role, ACCOUNT_ACTIVE, Wallet(0, 0), false);
      WriteUser(u);
      LogTxn(UserAdded(u.id, role));
      return ERR_OK;
    }

    /** The counting loop over users.dat. */
    method CountAdmins() returns (adminCount: nat)
      ensures adminCount == AdminCount(users)
    {
      adminCount := 0;
      var i := 0;
      while i < |users|
        invariant 0 <= i <= |users|
        invariant adminCount == AdminCount(users[..i])
      {
        assert users[..i + 1][..i] == users[..i];
        var u := users[i];
        if !u.deleted && u.status == ACCOUNT_ACTIVE && u.role == ROLE_ADMIN {
          adminCount := adminCount + 1;
        }
        i := i + 1;
      }
      assert users[..i] == users;
    }

    method HandleChangeRole(target: nat, newRole: int) returns (status: int)
      requires Valid()
      modifies this`users, this`log
      ensures Valid() && Outcome(Contents(), status) == DoChangeRole(old(Contents()), target, newRole)
    {
      var found := Find(users, target);
      if found.None? {
        return ERR_NOT_FOUND;
      }
      var u := found.value;
      if u.role == ROLE_ADMIN && newRole != ROLE_ADMIN {
        var adminCount := CountAdmins();
        if adminCount <= 1 {
          return ERR_PERMISSION;
        }
      }
      WriteUser(u.(role := newRole));
      LogTxn(RoleChanged(target, u.role, newRole));
      return ERR_OK;
    }

    method HandleDeleteUser(target: nat) returns (status: int)
      requires Valid()
      modifies this`users, this`log
      ensures Valid() && Outcome(Contents(), status) == DoDeleteUser(old(Contents()), target)
    {
      var found := Find(users, target);
      if found.None? {
        return ERR_NOT_FOUND;
      }
      var u := found.value;
      if u.role == ROLE_ADMIN {
        return ERR_PERMISSION;
      }
      WriteUser(u.(deleted := true, status := ACCOUNT_INACTIVE));
      LogTxn(UserDeleted(target));
      return ERR_OK;
    }
  }
}
