/** A run from the seed that leads up to a refund whose seller has other plans for the money. */
module Stage {
  import opened Records
  import opened Events
  import opened Escrow
  import Disputes
  import Refunds

  // ---------- runs that the role gates let through ----------

  /** An account in use, whose role passes the gate, makes the request in its own name. */
  predicate GatedBy(s: Store, e: Event, user: nat) {
    && Exists(s.users, user) && s.users[user - 1].status == ACCOUNT_ACTIVE && !s.users[user - 1].deleted
    && Permits(s.users[user - 1].role, e) && (Actor(e).Some? ==> Actor(e).value == user)
  }

  /** Somebody may make the request, or it is the timer that closes. */
  ghost predicate Gated(s: Store, e: Event) {
    e.Expire? || exists user :: GatedBy(s, e, user)
  }

  ghost predicate RunGated(s: Store, es: seq<Event>) {
    forall k :: 0 <= k < |es| ==> Gated(Exec(s, es[..k]), es[k])
  }

  // ---------- the run ----------

  const STAGE: seq<Event> := [
    AddUser("winner", ROLE_BIDDER), AddUser("seller", ROLE_AUCTIONEER), Deposit(2, 100),
    CreateAuction(3, 10, 0, 60, 0), PlaceBid(2, 1, 50), Expire(1), FileDispute(2, 1),
    ChangeRole(3, ROLE_BIDDER), CreateAuction(1, 10, 0, 60, 0)]

  const REFUND := ResolveDispute(1, 1, DisputeResolved)

  const FOUNDER := User(1, "admin", ROLE_ADMIN, ACCOUNT_ACTIVE, Wallet(0, 0), false)

  function Winner(balance: int, hold: int): User {
    User(2, "winner", ROLE_BIDDER, ACCOUNT_ACTIVE, Wallet(balance, hold), false)
  }

  function Seller(role: int, balance: int): User {
    User(3, "seller", role, ACCOUNT_ACTIVE, Wallet(balance, 0), false)
  }

  const LOT := Auction(1, 3, 10, 0, 50, 2, Open, 60, 1)
  const NEXT_LOT := Auction(2, 1, 10, 0, 10, 0, Open, 60, 0)

  lemma StageUsers()
    ensures Exec(SEED, STAGE[..0]) == SEED
    ensures Exec(SEED, STAGE[..1]).users == [FOUNDER, Winner(0, 0)]
    ensures Exec(SEED, STAGE[..2]).users == [FOUNDER, Winner(0, 0), Seller(ROLE_AUCTIONEER, 0)]
    ensures var t := Exec(SEED, STAGE[..3]);
      t.users == [FOUNDER, Winner(100, 0), Seller(ROLE_AUCTIONEER, 0)] && t.auctions == [] && t.disputes == []
  {
    assert STAGE[..0] == [];
    Refunds.ExecOne(SEED, STAGE, 0);
    var s1 := Exec(SEED, STAGE[..1]);
    assert s1 == DoAddUser(SEED, "winner", ROLE_BIDDER).store;
    assert s1.users == [FOUNDER, Winner(0, 0)];
    Refunds.ExecOne(SEED, STAGE, 1);
    var s2 := Exec(SEED, STAGE[..2]);
    assert s2 == DoAddUser(s1, "seller", ROLE_AUCTIONEER).store by { assert "seller" != "winner" && "seller" != "admin"; }
    assert s2.users == [FOUNDER, Winner(0, 0), Seller(ROLE_AUCTIONEER, 0)];
    Refunds.ExecOne(SEED, STAGE, 2);
    assert Exec(SEED, STAGE[..3]) == DoDeposit(s2, 2, 100).store;
  }

  lemma StageLot()
    ensures var t := Exec(SEED, STAGE[..4]);
      && t.users == [FOUNDER, Winner(100, 0), Seller(ROLE_AUCTIONEER, 0)] && t.disputes == []
      && t.auctions == [LOT.(currentBid := 10, leader := 0, bidCount := 0)]
  {
    hide Exec;
    StageUsers();
    Refunds.ExecOne(SEED, STAGE, 3);
    assert Exec(SEED, STAGE[..4]) == DoCreate(Exec(SEED, STAGE[..3]), 3, 10, 0, 60, 0).store;
  }

  lemma StageBid()
    ensures var t := Exec(SEED, STAGE[..5]);
      && t.users == [FOUNDER, Winner(100, 50), Seller(ROLE_AUCTIONEER, 0)]
      && t.auctions == [LOT] && t.disputes == []
  {
    hide Exec, Step, Sound, Disputes.Reviewed;
    StageLot();
    Refunds.ExecOne(SEED, STAGE, 4);
    ReachableSound(Exec(SEED, STAGE[..4]));
    BidStep(Exec(SEED, STAGE[..4]), PlaceBid(2, 1, 50));
  }

  lemma StageSale()
    ensures var t := Exec(SEED, STAGE[..6]);
      && t.users == [FOUNDER, Winner(50, 0), Seller(ROLE_AUCTIONEER, 50)]
      && t.auctions == [LOT.(status := Closed)] && t.disputes == []
  {
    hide Exec, Step, CloseInternal, MarkWinning;
    StageBid();
    var s5 := Exec(SEED, STAGE[..5]);
    Refunds.ExecOne(SEED, STAGE, 5);
    CloseOutcome(s5, Expire(1));
    CloseEffect(s5, LOT);
    assert CloseStore(s5, LOT).auctions == [LOT.(status := Closed)];
  }

  lemma StageDisputed()
    ensures Exec(SEED, STAGE[..7]).users == [FOUNDER, Winner(50, 0), Seller(ROLE_AUCTIONEER, 50)]
    ensures var t := Exec(SEED, STAGE[..8]);
      && t.users == [FOUNDER, Winner(50, 0), Seller(ROLE_BIDDER, 50)]
      && t.auctions == [LOT.(status := Disputed)] && t.disputes == [Dispute(1, 1, 2, 0, DisputeOpen)]
  {
    hide Exec;
    StageSale();
    Refunds.ExecOne(SEED, STAGE, 6);
    Refunds.FileStep(Exec(SEED, STAGE[..6]), 2, 1);
    var s7 := Exec(SEED, STAGE[..7]);
    Refunds.ExecOne(SEED, STAGE, 7);
    assert Exec(SEED, STAGE[..8]) == DoChangeRole(s7, 3, ROLE_BIDDER).store;
  }

  lemma StageSet()
    ensures var t := Exec(SEED, STAGE);
      && t.users == [FOUNDER, Winner(50, 0), Seller(ROLE_BIDDER, 50)]
      && t.auctions == [LOT.(status := Disputed), NEXT_LOT]
      && t.disputes == [Dispute(1, 1, 2, 0, DisputeOpen)]
  {
    hide Exec;
    StageDisputed();
    Refunds.ExecOne(SEED, STAGE, 8);
    assert Exec(SEED, STAGE[..9]) == DoCreate(Exec(SEED, STAGE[..8]), 1, 10, 0, 60, 0).store;
    assert STAGE[..9] == STAGE;
  }

  lemma StageGated()
    ensures RunGated(SEED, STAGE)
  {
    hide Exec;
    StageUsers();
    StageLot();
    StageBid();
    StageSale();
    StageDisputed();
    assert GatedBy(SEED, STAGE[0], 1) && GatedBy(Exec(SEED, STAGE[..1]), STAGE[1], 1);
    assert GatedBy(Exec(SEED, STAGE[..2]), STAGE[2], 2) && GatedBy(Exec(SEED, STAGE[..3]), STAGE[3], 3);
    assert GatedBy(Exec(SEED, STAGE[..4]), STAGE[4], 2) && GatedBy(Exec(SEED, STAGE[..6]), STAGE[6], 2);
    assert GatedBy(Exec(SEED, STAGE[..7]), STAGE[7], 1) && GatedBy(Exec(SEED, STAGE[..8]), STAGE[8], 1);
  }
}
