/** The last-admin guard: when the server can and cannot lose its last active admin. */
module Admins {
  import opened Records
  import opened Wallets
  import opened Events

  ghost predicate HasActiveAdmin(users: seq<User>) {
    exists i :: 0 <= i < |users| && ActiveAdmin(users[i])
  }

  lemma {:induction false} CountedAdminExists(users: seq<User>)
    ensures AdminCount(users) >= 1 <==> HasActiveAdmin(users)
  {
    if users != [] {
      var n := |users| - 1;
      CountedAdminExists(users[..n]);
      if ActiveAdmin(users[n]) {
        assert HasActiveAdmin(users);
      } else {
        assert forall i :: 0 <= i < n ==> users[..n][i] == users[i];
        assert HasActiveAdmin(users) <==> HasActiveAdmin(users[..n]);
      }
    }
  }

  /** With two counted admins, one remains whichever single record is rewritten. */
  lemma {:induction false} TwoAdminsSpareOne(users: seq<User>, k: nat)
    requires k < |users| && AdminCount(users) >= 2
    ensures exists i :: 0 <= i < |users| && i != k && ActiveAdmin(users[i])
  {
    var n := |users| - 1;
    if k == n {
      CountedAdminExists(users[..n]);
      var i :| 0 <= i < n && ActiveAdmin(users[..n][i]);
      assert ActiveAdmin(users[i]);
    } else if ActiveAdmin(users[n]) {
      assert n != k;
    } else {
      TwoAdminsSpareOne(users[..n], k);
      var i :| 0 <= i < n && i != k && ActiveAdmin(users[..n][i]);
      assert ActiveAdmin(users[i]);
    }
  }

  /** The one request that takes the last active admin away: a toggle by an account whose role number
      is above ROLE_ADMIN, aimed at the only active admin. */
  predicate LocksOut(s: Store, e: Event) {
    && e.ToggleAccount?
    && e.actorRole > ROLE_ADMIN
    && e.newStatus != ACCOUNT_ACTIVE
    && Exists(s.users, e.target)
    && ActiveAdmin(s.users[e.target - 1])
    && AdminCount(s.users) == 1
  }

  lemma OtherAdminStays(users: seq<User>, k: nat, u: User, i: nat)
    requires k < |users| && i < |users| && i != k && ActiveAdmin(users[i])
    ensures HasActiveAdmin(users[k := u])
  {
    assert ActiveAdmin(users[k := u][i]);
  }

  lemma KeptRecordStays(users: seq<User>, k: nat, u: User)
    requires k < |users| && HasActiveAdmin(users) && (ActiveAdmin(users[k]) ==> ActiveAdmin(u))
    ensures HasActiveAdmin(users[k := u])
  {
    var i :| 0 <= i < |users| && ActiveAdmin(users[i]);
    assert ActiveAdmin(users[k := u][i]);
  }

  lemma {:induction false} OnlyAdmin(users: seq<User>, k: nat, i: nat)
    requires k < |users| && i < |users| && i != k
    requires ActiveAdmin(users[k]) && ActiveAdmin(users[i])
    ensures AdminCount(users) >= 2
  {
    var n := |users| - 1;
    if k == n {
      assert ActiveAdmin(users[..n][i]);
      CountedAdminExists(users[..n]);
    } else if i == n {
      assert ActiveAdmin(users[..n][k]);
      CountedAdminExists(users[..n]);
    } else {
      OnlyAdmin(users[..n], k, i);
    }
  }

  lemma ChangeRoleKeepsAdmin(s: Store, e: Event)
    requires HasActiveAdmin(s.users) && e.ChangeRole?
    ensures HasActiveAdmin(Handle(s, e).store.users)
  {
    CountedAdminExists(s.users);
    var t := Handle(s, e).store;
    if t != s {
      var u := s.users[e.target - 1];
      if u.role == ROLE_ADMIN && e.newRole != ROLE_ADMIN {
        TwoAdminsSpareOne(s.users, e.target - 1);
        var i :| 0 <= i < |s.users| && i != e.target - 1 && ActiveAdmin(s.users[i]);
        OtherAdminStays(s.users, e.target - 1, u.(role := e.newRole), i);
      } else {
        KeptRecordStays(s.users, e.target - 1, u.(role := e.newRole));
      }
    }
  }

  lemma ToggleKeepsAdminIff(s: Store, e: Event)
    requires HasActiveAdmin(s.users) && e.ToggleAccount?
    ensures HasActiveAdmin(Handle(s, e).store.users) <==> !LocksOut(s, e)
  {
    CountedAdminExists(s.users);
    var t := Handle(s, e).store;
    if t != s {
      var k := e.target - 1;
      var v := s.users[k].(status := e.newStatus);
      assert t.users == s.users[k := v];
      if ActiveAdmin(s.users[k]) && e.newStatus != ACCOUNT_ACTIVE {
        if AdminCount(s.users) == 1 {
          if HasActiveAdmin(t.users) {
            var i :| 0 <= i < |t.users| && ActiveAdmin(t.users[i]);
            OnlyAdmin(s.users, k, i);
          }
        } else {
          TwoAdminsSpareOne(s.users, k);
          var i :| 0 <= i < |s.users| && i != k && ActiveAdmin(s.users[i]);
          OtherAdminStays(s.users, k, v, i);
        }
      } else {
        KeptRecordStays(s.users, k, v);
      }
    }
  }

  /** Wallet updates do not touch roles or statuses. */
  predicate SameAccounts(users: seq<User>, others: seq<User>) {
    |users| == |others| && forall i :: 0 <= i < |users| ==> others[i].(wallet := users[i].wallet) == users[i]
  }

  lemma CloseKeepsAccounts(s: Store, a: Auction)
    ensures SameAccounts(s.users, CloseInternal(s, a).users)
  {}

  lemma DeltaKeepsAccounts(users: seq<User>, id: nat, balanceDelta: int, holdDelta: int)
    ensures SameAccounts(users, ApplyDelta(users, id, balanceDelta, holdDelta))
  {}

  lemma RefundKeepsAccounts(s: Store, dispute: nat, a: Auction)
    ensures SameAccounts(s.users, Refund(s, dispute, a).users)
  {
    hide ApplyDelta;
    DeltaKeepsAccounts(s.users, a.leader, a.currentBid, 0);
    DeltaKeepsAccounts(ApplyDelta(s.users, a.leader, a.currentBid, 0), a.seller, -a.currentBid, 0);
  }

  lemma BidKeepsAccounts(s: Store, bidder: nat, auction: nat, amount: int)
    ensures SameAccounts(s.users, DoBid(s, bidder, auction, amount).store.users)
  {}

  predicate Administrative(e: Event) {
    e.AddUser? || e.ChangeRole? || e.ToggleAccount? || e.DeleteUser?
  }

  lemma TradeKeepsAccounts(s: Store, e: Event)
    requires !Administrative(e)
    ensures SameAccounts(s.users, Handle(s, e).store.users)
  {
    if e.CloseAuction? || e.Expire? {
      if Exists(s.auctions, e.auction) {
        CloseKeepsAccounts(s, s.auctions[e.auction - 1]);
      }
    } else if e.PlaceBid? {
      BidKeepsAccounts(s, e.bidder, e.auction, e.amount);
    } else if e.ResolveDispute? && Exists(s.disputes, e.dispute) {
      var d := s.disputes[e.dispute - 1];
      var s1 := s.(disputes := s.disputes[e.dispute - 1 := d.(status := e.verdict, resolvedBy := e.moderator)]);
      if Exists(s.auctions, d.auction) {
        RefundKeepsAccounts(s1, e.dispute, s.auctions[d.auction - 1]);
      }
    }
  }

  lemma SameAccountsAdmin(users: seq<User>, others: seq<User>)
    requires SameAccounts(users, others) && HasActiveAdmin(users)
    ensures HasActiveAdmin(others)
  {
    var i :| 0 <= i < |users| && ActiveAdmin(users[i]);
    assert ActiveAdmin(others[i]);
  }

  /** One event leaves an active admin exactly when it is not a lock-out. */
  lemma StepKeepsAdminIff(s: Store, e: Event)
    requires HasActiveAdmin(s.users)
    ensures HasActiveAdmin(Step(s, e).store.users) <==> !LocksOut(s, e)
  {
    if e.ToggleAccount? {
      ToggleKeepsAdminIff(s, e);
    } else if e.ChangeRole? {
      ChangeRoleKeepsAdmin(s, e);
    } else if e.AddUser? {
      var t := Handle(s, e).store;
      var i :| 0 <= i < |s.users| && ActiveAdmin(s.users[i]);
      assert ActiveAdmin(t.users[i]);
    } else if e.DeleteUser? {
      var t := Handle(s, e).store;
      if t != s {
        KeptRecordStays(s.users, e.target - 1, t.users[e.target - 1]);
      }
    } else {
      TradeKeepsAccounts(s, e);
      if Served(s, e) {
        SameAccountsAdmin(s.users, Handle(s, e).store.users);
      }
    }
  }

  // ---------- runs ----------

  /** No request of the run asks for a role number outside the enumeration. */
  predicate RolesInRange(es: seq<Event>) {
    forall k :: 0 <= k < |es| ==>
      && (es[k].AddUser? ==> es[k].role <= ROLE_ADMIN)
      && (es[k].ChangeRole? ==> es[k].newRole <= ROLE_ADMIN)
  }

  /** Some store the run went through before event `k` held this role. */
  ghost predicate RoleSeen(s: Store, es: seq<Event>, k: nat, role: int)
    requires k <= |es|
  {
    exists j: nat, i: nat :: j <= k && i < |Exec(s, es[..j]).users| && Exec(s, es[..j]).users[i].role == role
  }

  /** The role a connection acts with was copied from its user's record at login. */
  ghost predicate ActorsLoggedIn(s: Store, es: seq<Event>) {
    forall k :: 0 <= k < |es| && es[k].ToggleAccount? ==> RoleSeen(s, es, k, es[k].actorRole)
  }

  predicate Bounded(users: seq<User>) {
    forall i :: 0 <= i < |users| ==> users[i].role <= ROLE_ADMIN
  }

  lemma StepKeepsBounded(s: Store, e: Event)
    requires Bounded(s.users) && RolesInRange([e])
    ensures Bounded(Step(s, e).store.users)
  {
    assert [e][0] == e;
    if Served(s, e) && !Administrative(e) {
      TradeKeepsAccounts(s, e);
    }
  }

  lemma {:induction false} RunKeepsBounded(s: Store, es: seq<Event>)
    requires Bounded(s.users) && RolesInRange(es)
    ensures Bounded(Exec(s, es).users)
  {
    if es != [] {
      var n := |es| - 1;
      RunKeepsBounded(s, es[..n]);
      assert RolesInRange([es[n]]);
      StepKeepsBounded(Exec(s, es[..n]), es[n]);
    }
  }

  lemma ActorInRange(s: Store, es: seq<Event>, k: nat)
    requires Bounded(s.users) && RolesInRange(es) && ActorsLoggedIn(s, es)
    requires k < |es| && es[k].ToggleAccount?
    ensures es[k].actorRole <= ROLE_ADMIN
  {
    var j: nat, i: nat :|
      j <= k && i < |Exec(s, es[..j]).users| && Exec(s, es[..j]).users[i].role == es[k].actorRole;
    RunKeepsBounded(s, es[..j]);
  }

  /** As long as requested roles stay in the enumeration, no run loses the last active admin. */
  lemma {:induction false} AdminAlwaysExists(s: Store, es: seq<Event>, n: nat)
    requires HasActiveAdmin(s.users) && Bounded(s.users)
    requires RolesInRange(es) && ActorsLoggedIn(s, es) && n <= |es|
    ensures HasActiveAdmin(Exec(s, es[..n]).users)
  {
    if n > 0 {
      AdminAlwaysExists(s, es, n - 1);
      assert es[..n][..n - 1] == es[..n - 1];
      if es[n - 1].ToggleAccount? {
        ActorInRange(s, es, n - 1);
      }
      StepKeepsAdminIff(Exec(s, es[..n - 1]), es[n - 1]);
    }
  }

  /** The range matters: an account created with role 7 passes the gate for moderators and outranks
      the seeded admin, so its toggle leaves no active admin. */
  lemma OutOfRangeRoleLocksOut()
    ensures var es := [AddUser("extra", 7), ToggleAccount(7, 1, ACCOUNT_INACTIVE)];
      && Permits(ROLE_ADMIN, es[0]) && Permits(7, es[1])
      && ActorsLoggedIn(SEED, es) && !HasActiveAdmin(Exec(SEED, es).users)
  {
    var add := AddUser("extra", 7);
    var toggle := ToggleAccount(7, 1, ACCOUNT_INACTIVE);
    var es := [add, toggle];
    assert es[..0] == [] && es[..1] == [add] && [add][..0] == [];
    var s1 := Step(SEED, add).store;
    assert Exec(SEED, [add]) == s1;
    assert s1.users[1].role == 7;
    assert RoleSeen(SEED, es, 1, 7) by {
      assert Exec(SEED, es[..1]).users[1].role == 7;
    }
    assert Exec(SEED, es) == Step(s1, toggle).store;
    var t := Step(s1, toggle).store;
    assert t.users == s1.users[0 := s1.users[0].(status := ACCOUNT_INACTIVE)];
  }

  lemma {:induction false} CountUpdate(users: seq<User>, k: nat, u: User)
    requires k < |users|
    ensures AdminCount(users[k := u])
         == AdminCount(users) - (if ActiveAdmin(users[k]) then 1 else 0) + if ActiveAdmin(u) then 1 else 0
  {
    var n := |users| - 1;
    if k == n {
      assert users[k := u][..n] == users[..n];
    } else {
      assert users[k := u][..n] == users[..n][k := u];
      CountUpdate(users[..n], k, u);
    }
  }

  // ---------- a role change in two steps ----------

  datatype RoleRequest = RoleRequest(target: nat, newRole: int)

  /** A request reads the record and passes the guard, and later writes the record back. */
  datatype RoleStep = Look(r: nat) | WriteBack(r: nat)

  /** `read` holds the record each waiting request goes on with. */
  datatype Office = Office(users: seq<User>, read: map<nat, User>)

  /** The guard of handle_change_role. */
  predicate Refuses(users: seq<User>, q: RoleRequest) {
    !Exists(users, q.target)
    || (users[q.target - 1].role == ROLE_ADMIN && q.newRole != ROLE_ADMIN && AdminCount(users) <= 1)
  }

  function RoleNext(reqs: seq<RoleRequest>, o: Office, step: RoleStep): Office {
    if step.r >= |reqs| then o
    else
      var q := reqs[step.r];
      match step
      case Look(r) => if Refuses(o.users, q) then o else o.(read := o.read[r := o.users[q.target - 1]])
      case WriteBack(r) =>
        if r in o.read then Office(Put(o.users, q.target, o.read[r].(role := q.newRole)), o.read - {r}) else o
  }

  function RoleRun(reqs: seq<RoleRequest>, o: Office, steps: seq<RoleStep>): Office {
    if steps == [] then o else RoleNext(reqs, RoleRun(reqs, o, steps[..|steps| - 1]), steps[|steps| - 1])
  }

  /** With nothing in between, the two steps are the handler. */
  lemma TogetherAtomic(s: Store, q: RoleRequest)
    ensures RoleNext([q], RoleNext([q], Office(s.users, map[]), Look(0)), WriteBack(0)).users
         == Step(s, ChangeRole(q.target, q.newRole)).store.users
  {}

  /** This write takes the last active admin away: it is the guard's own test, made at the time of the write. */
  predicate LastOneOut(reqs: seq<RoleRequest>, o: Office, step: RoleStep) {
    && step.WriteBack? && step.r < |reqs| && step.r in o.read && Exists(o.users, reqs[step.r].target)
    && ActiveAdmin(o.users[reqs[step.r].target - 1])
    && !ActiveAdmin(o.read[step.r].(role := reqs[step.r].newRole))
    && AdminCount(o.users) <= 1
  }

  /** Some step between count and write leaves an active admin exactly when it is not such a write. */
  lemma RoleStepKeepsAdminIff(reqs: seq<RoleRequest>, o: Office, step: RoleStep)
    requires HasActiveAdmin(o.users)
    ensures HasActiveAdmin(RoleNext(reqs, o, step).users) <==> !LastOneOut(reqs, o, step)
  {
    var users' := RoleNext(reqs, o, step).users;
    CountedAdminExists(o.users);
    CountedAdminExists(users');
    if step.WriteBack? && step.r < |reqs| && step.r in o.read {
      var q := reqs[step.r];
      var u := o.read[step.r].(role := q.newRole);
      if Exists(o.users, q.target) {
        CountUpdate(o.users, q.target - 1, u);
      } else if users' != o.users {
        assert users'[..|o.users|] == o.users;
      }
    }
  }

  /** The guard needs count and write to be one step: of two admins, each may be demoted, and if both
      requests count before either writes, none is left. */
  lemma RacingDemotions(s: Store, first: nat, second: nat, newRole: int)
    requires Exists(s.users, first) && Exists(s.users, second) && first != second && newRole != ROLE_ADMIN
    requires ActiveAdmin(s.users[first - 1]) && ActiveAdmin(s.users[second - 1]) && AdminCount(s.users) == 2
    ensures Step(s, ChangeRole(first, newRole)).status == ERR_OK
    ensures Step(s, ChangeRole(second, newRole)).status == ERR_OK
    ensures var reqs := [RoleRequest(first, newRole), RoleRequest(second, newRole)];
      var steps := [Look(0), Look(1), WriteBack(0), WriteBack(1)];
      !HasActiveAdmin(RoleRun(reqs, Office(s.users, map[]), steps).users)
  {
    hide RoleRun, HasActiveAdmin;
    RaceEnds(s.users, first, second, newRole);
    BothDemoted(s.users, first, second, newRole);
  }

  lemma BothDemoted(users: seq<User>, first: nat, second: nat, newRole: int)
    requires Exists(users, first) && Exists(users, second) && first != second && newRole != ROLE_ADMIN
    requires ActiveAdmin(users[first - 1]) && ActiveAdmin(users[second - 1]) && AdminCount(users) == 2
    ensures !HasActiveAdmin(users[first - 1 := users[first - 1].(role := newRole)]
                                 [second - 1 := users[second - 1].(role := newRole)])
  {
    hide AdminCount, HasActiveAdmin;
    var u, v := users[first - 1], users[second - 1];
    CountUpdate(users, first - 1, u.(role := newRole));
    CountUpdate(users[first - 1 := u.(role := newRole)], second - 1, v.(role := newRole));
    CountedAdminExists(users[first - 1 := u.(role := newRole)][second - 1 := v.(role := newRole)]);
  }

  lemma FourSteps(reqs: seq<RoleRequest>, o: Office, a: RoleStep, b: RoleStep, c: RoleStep, d: RoleStep)
    ensures RoleRun(reqs, o, [a, b, c, d]) == RoleNext(reqs, RoleNext(reqs, RoleNext(reqs, RoleNext(reqs, o, a), b), c), d)
  {
    hide RoleNext;
    assert [a, b, c, d][..3] == [a, b, c] && [a, b, c][..2] == [a, b] && [a, b][..1] == [a] && [a][..0] == [];
    assert RoleRun(reqs, o, [a]) == RoleNext(reqs, o, a);
    assert RoleRun(reqs, o, [a, b]) == RoleNext(reqs, RoleRun(reqs, o, [a]), b);
    assert RoleRun(reqs, o, [a, b, c]) == RoleNext(reqs, RoleRun(reqs, o, [a, b]), c);
  }

  lemma RaceEnds(users: seq<User>, first: nat, second: nat, newRole: int)
    requires Exists(users, first) && Exists(users, second) && first != second && AdminCount(users) == 2
    ensures var reqs := [RoleRequest(first, newRole), RoleRequest(second, newRole)];
      RoleRun(reqs, Office(users, map[]), [Look(0), Look(1), WriteBack(0), WriteBack(1)]).users
        == users[first - 1 := users[first - 1].(role := newRole)][second - 1 := users[second - 1].(role := newRole)]
  {
    var reqs := [RoleRequest(first, newRole), RoleRequest(second, newRole)];
    var u, v := users[first - 1], users[second - 1];
    FourSteps(reqs, Office(users, map[]), Look(0), Look(1), WriteBack(0), WriteBack(1));
    assert RoleNext(reqs, Office(users, map[]), Look(0)) == Office(users, map[0 := u]);
    assert RoleNext(reqs, Office(users, map[0 := u]), Look(1)) == Office(users, map[0 := u, 1 := v]);
  }

  // ---------- user names ----------

  /** No two accounts in use share a name. */
  ghost predicate NamesUnique(users: seq<User>) {
    forall i, j :: 0 <= i < j < |users| && !users[i].deleted && !users[j].deleted ==>
      users[i].username != users[j].username
  }

  /** The name fills the whole field, and what is left of it after clipping is already in use. */
  predicate ClipsOntoAnother(s: Store, e: Event) {
    e.AddUser? && |e.username| >= MAX_USERNAME && Taken(s.users, Stored(e.username))
    && !Taken(s.users, Compared(e.username))
  }

  lemma AddUserNames(s: Store, e: Event)
    requires NamesUnique(s.users) && e.AddUser?
    ensures NamesUnique(Step(s, e).store.users) <==> !ClipsOntoAnother(s, e)
  {
    var t := Step(s, e).store;
    assert |e.username| < MAX_USERNAME ==> Stored(e.username) == Compared(e.username);
    if t != s {
      var n := |s.users|;
      assert t.users[n].username == Stored(e.username);
      if Taken(s.users, Stored(e.username)) {
        var i :| 0 <= i < n && !s.users[i].deleted && s.users[i].username == Stored(e.username);
        assert !t.users[i].deleted && t.users[i].username == t.users[n].username;
      }
    }
  }

  /** One event keeps the names apart exactly when it is not such a clipped name. */
  lemma StepKeepsNamesIff(s: Store, e: Event)
    requires NamesUnique(s.users)
    ensures NamesUnique(Step(s, e).store.users) <==> !ClipsOntoAnother(s, e)
  {
    if e.AddUser? {
      AddUserNames(s, e);
    } else if !Administrative(e) && Served(s, e) {
      TradeKeepsAccounts(s, e);
    }
  }

  /** Shorter names stay unique over every run. */
  lemma {:induction false} NamesStayUnique(s: Store, es: seq<Event>)
    requires NamesUnique(s.users)
    requires forall k :: 0 <= k < |es| && es[k].AddUser? ==> |es[k].username| < MAX_USERNAME
    ensures NamesUnique(Exec(s, es).users)
  {
    if es != [] {
      NamesStayUnique(s, es[..|es| - 1]);
      StepKeepsNamesIff(Exec(s, es[..|es| - 1]), es[|es| - 1]);
    }
  }
}
