/** Sessions, the notification registry, and the connections that drive them. */
module Sessions {
  import opened Records

  const MAX_SESSIONS := 64
  const MAX_REGISTRY := 128

  /** A slot of sessions.dat and an entry of the notification registry have the same shape. */
  datatype Entry = Entry(user: nat, fd: int, active: bool)

  const EMPTY := Entry(0, 0, false)

  function FirstWhere(xs: seq<Entry>, p: Entry -> bool, from: nat): (r: Option<nat>)
    requires from <= |xs|
    ensures r.Some? ==> from <= r.value < |xs| && p(xs[r.value])
    ensures forall k :: from <= k < (if r.Some? then r.value else |xs|) ==> !p(xs[k])
    decreases |xs| - from
  {
    if from == |xs| then None
    else if p(xs[from]) then Some(from)
    else FirstWhere(xs, p, from + 1)
  }

  function ActiveFor(user: nat): Entry -> bool {
    (e: Entry) => e.active && e.user == user
  }

  function Inactive(): Entry -> bool {
    (e: Entry) => !e.active
  }

  /** find_session_slot, and the search of notify_unregister and lookup_fd. */
  function SlotOf(xs: seq<Entry>, user: nat): Option<nat> {
    FirstWhere(xs, ActiveFor(user), 0)
  }

  /** find_free_slot: a cleared slot, or a new one at the end of a file that is not full. */
  function FreeSlot(slots: seq<Entry>): Option<nat> {
    match FirstWhere(slots, Inactive(), 0)
    case Some(i) => if i < MAX_SESSIONS then Some(i) else None
    case None => if |slots| < MAX_SESSIONS then Some(|slots|) else None
  }

  function LookupFd(xs: seq<Entry>, user: nat): int {
    match SlotOf(xs, user)
    case Some(i) => xs[i].fd
    case None => -1
  }

  function Register(registry: seq<Entry>, user: nat, fd: int): seq<Entry> {
    match FirstWhere(registry, Inactive(), 0)
    case Some(i) => registry[i := Entry(user, fd, true)]
    case None => registry
  }

  function Unregister(registry: seq<Entry>, user: nat): seq<Entry> {
    match SlotOf(registry, user)
    case Some(i) => registry[i := Entry(registry[i].user, -1, false)]
    case None => registry
  }

  function ClearSession(slots: seq<Entry>, user: nat): seq<Entry> {
    match SlotOf(slots, user)
    case Some(i) => slots[i := EMPTY]
    case None => slots
  }

  /** What one connection's loop remembers: `user` is current_user, 0 before the first login. A loop that
      stopped running has its cleanup still before it. */
  datatype Conn = Conn(running: bool, authenticated: bool, user: nat)

  datatype Presence = Presence(slots: seq<Entry>, registry: seq<Entry>, conns: map<int, Conn>)

  datatype Event =
    | Connect(fd: int)
    | Login(fd: int, user: nat, credentialsOk: bool)
    | Logout(fd: int)
    | Disconnect(fd: int)

  function DoLogin(p: Presence, fd: int, user: nat): (Presence, int) {
    if SlotOf(p.slots, user).Some? then (p, ERR_ALREADY_LOGGED)
    else
      match FreeSlot(p.slots)
      case None => (p, ERR_INTERNAL)
      case Some(i) =>
        (p.(slots := Put(p.slots, i + 1, Entry(user, fd, true)), registry := Register(p.registry, user, fd)), ERR_OK)
  }

  function Leave(p: Presence, user: nat): Presence {
    p.(slots := ClearSession(p.slots, user), registry := Unregister(p.registry, user))
  }

  /** A failed login leaves the connection unauthenticated but keeps its remembered user. A logout ends
      the loop; the cleanup that follows clears the user's session again. */
  function Step(p: Presence, e: Event): Presence {
    match e
    case Connect(fd) => if fd in p.conns || fd <= 0 then p else p.(conns := p.conns[fd := Conn(true, false, 0)])
    case Login(fd, user, credentialsOk) =>
      if fd !in p.conns || !p.conns[fd].running || user == 0 then p
      else
        var (q, status) := if credentialsOk then DoLogin(p, fd, user) else (p, ERR_AUTH_FAIL);
        q.(conns := q.conns[fd := if status == ERR_OK then Conn(true, true, user)
                                       else p.conns[fd].(authenticated := false)])
    case Logout(fd) =>
      if fd !in p.conns || !p.conns[fd].running || !p.conns[fd].authenticated then p
      else Leave(p, p.conns[fd].user).(conns := p.conns[fd := p.conns[fd].(running := false)])
    case Disconnect(fd) =>
      if fd !in p.conns then p
      else
        var q := if p.conns[fd].authenticated && p.conns[fd].user != 0 then Leave(p, p.conns[fd].user) else p;
        q.(conns := q.conns - {fd})
  }

  function Exec(p: Presence, es: seq<Event>): Presence {
    if es == [] then p else Step(Exec(p, es[..|es| - 1]), es[|es| - 1])
  }

  /** A fresh start: no sessions file, an empty registry, no connections. */
  const START := Presence([], seq(MAX_REGISTRY, _ => EMPTY), map[])

  // ---------- invariant ----------

  /** No user is active twice. */
  ghost predicate Single(xs: seq<Entry>) {
    forall i, j :: 0 <= i < j < |xs| && xs[i].active && xs[j].active ==> xs[i].user != xs[j].user
  }

  /** The session table and the registry list the same users with the same descriptors. */
  ghost predicate Agrees(p: Presence) {
    && |p.slots| <= MAX_SESSIONS && |p.registry| == MAX_REGISTRY
    && Single(p.slots) && Single(p.registry)
    && (forall u: nat :: SlotOf(p.slots, u).Some? <==> SlotOf(p.registry, u).Some?)
    && (forall u: nat :: LookupFd(p.slots, u) == LookupFd(p.registry, u))
  }

  function ActiveUsers(xs: seq<Entry>): set<nat> {
    set i | 0 <= i < |xs| && xs[i].active :: xs[i].user
  }

  lemma {:induction false} FewUsers(xs: seq<Entry>)
    ensures |ActiveUsers(xs)| <= |xs|
  {
    if xs != [] {
      var n := |xs| - 1;
      FewUsers(xs[..n]);
      var more := if xs[n].active then {xs[n].user} else {};
      assert ActiveUsers(xs) == ActiveUsers(xs[..n]) + more;
    }
  }

  lemma {:induction false} FullMeansMany(xs: seq<Entry>)
    requires Single(xs) && forall i :: 0 <= i < |xs| ==> xs[i].active
    ensures |ActiveUsers(xs)| == |xs|
  {
    if xs != [] {
      var n := |xs| - 1;
      FullMeansMany(xs[..n]);
      assert ActiveUsers(xs) == ActiveUsers(xs[..n]) + {xs[n].user};
      assert xs[n].user !in ActiveUsers(xs[..n]);
    }
  }

  lemma InActive(xs: seq<Entry>, user: nat)
    ensures user in ActiveUsers(xs) <==> SlotOf(xs, user).Some?
  {
    if user in ActiveUsers(xs) {
      var i :| 0 <= i < |xs| && xs[i].active && xs[i].user == user;
      assert ActiveFor(user)(xs[i]);
    }
    if SlotOf(xs, user).Some? {
      assert xs[SlotOf(xs, user).value].active;
    }
  }

  /** 128 entries always outnumber the at most 64 sessions, so registration finds a place. */
  lemma RegistryHasRoom(p: Presence)
    requires Agrees(p)
    ensures FirstWhere(p.registry, Inactive(), 0).Some?
  {
    forall u: nat ensures u in ActiveUsers(p.slots) <==> u in ActiveUsers(p.registry) {
      InActive(p.slots, u);
      InActive(p.registry, u);
    }
    assert ActiveUsers(p.slots) == ActiveUsers(p.registry);
    FewUsers(p.slots);
    if FirstWhere(p.registry, Inactive(), 0).None? {
      forall i | 0 <= i < |p.registry| ensures p.registry[i].active {
        assert !Inactive()(p.registry[i]);
      }
      FullMeansMany(p.registry);
    }
  }

  /** Where a user with one active entry is found, whatever else the table holds. */
  lemma FoundAt(xs: seq<Entry>, i: nat, user: nat)
    requires Single(xs) && i < |xs| && xs[i].active && xs[i].user == user
    ensures SlotOf(xs, user) == Some(i) && LookupFd(xs, user) == xs[i].fd
  {
    assert ActiveFor(user)(xs[i]);
    var k := SlotOf(xs, user).value;
    assert xs[k].active && xs[k].user == user;
  }

  lemma NotFound(xs: seq<Entry>, user: nat)
    requires forall i :: 0 <= i < |xs| && xs[i].active ==> xs[i].user != user
    ensures SlotOf(xs, user) == None && LookupFd(xs, user) == -1
  {}

  /** Two tables that differ in one place, which concerns neither before nor after the given user. */
  lemma OthersFound(xs: seq<Entry>, ys: seq<Entry>, user: nat)
    requires Single(xs) && Single(ys)
    requires forall i :: 0 <= i < |xs| && xs[i].active && xs[i].user == user ==> i < |ys| && ys[i] == xs[i]
    requires forall i :: 0 <= i < |ys| && ys[i].active && ys[i].user == user ==> i < |xs| && ys[i] == xs[i]
    ensures SlotOf(ys, user) == SlotOf(xs, user) && LookupFd(ys, user) == LookupFd(xs, user)
  {
    if SlotOf(xs, user).Some? {
      var i := SlotOf(xs, user).value;
      assert xs[i].active && xs[i].user == user;
      FoundAt(ys, i, user);
    } else {
      forall i | 0 <= i < |xs| && xs[i].active ensures xs[i].user != user {
        assert !ActiveFor(user)(xs[i]);
      }
      NotFound(ys, user);
    }
  }

  /** Filling a free place with a user who has none. */
  lemma Filled(xs: seq<Entry>, i: nat, user: nat, fd: int, other: nat)
    requires Single(xs) && i <= |xs| && (i < |xs| ==> !xs[i].active) && SlotOf(xs, user).None?
    ensures var ys := Put(xs, i + 1, Entry(user, fd, true));
      && Single(ys)
      && SlotOf(ys, user).Some? && LookupFd(ys, user) == fd
      && (other != user ==> SlotOf(ys, other) == SlotOf(xs, other) && LookupFd(ys, other) == LookupFd(xs, other))
  {
    var ys := Put(xs, i + 1, Entry(user, fd, true));
    forall k | 0 <= k < |xs| && xs[k].active ensures xs[k].user != user {
      assert !ActiveFor(user)(xs[k]);
    }
    assert Single(ys);
    FoundAt(ys, i, user);
    if other != user {
      OthersFound(xs, ys, other);
    }
  }

  /** Emptying a user's place. */
  lemma Emptied(xs: seq<Entry>, user: nat, e: Entry, other: nat)
    requires Single(xs) && !e.active && SlotOf(xs, user).Some?
    ensures var ys := xs[SlotOf(xs, user).value := e];
      && Single(ys)
      && SlotOf(ys, user).None? && LookupFd(ys, user) == -1
      && (other != user ==> SlotOf(ys, other) == SlotOf(xs, other) && LookupFd(ys, other) == LookupFd(xs, other))
  {
    var i := SlotOf(xs, user).value;
    assert xs[i].active && xs[i].user == user;
    var ys := xs[i := e];
    NotFound(ys, user);
    if other != user {
      OthersFound(xs, ys, other);
    }
  }

  lemma LoginAgrees(p: Presence, fd: int, user: nat)
    requires Agrees(p)
    ensures Agrees(DoLogin(p, fd, user).0)
  {
    var (q, status) := DoLogin(p, fd, user);
    if status == ERR_OK {
      RegistryHasRoom(p);
      var i := FreeSlot(p.slots).value;
      var k := FirstWhere(p.registry, Inactive(), 0).value;
      forall u: nat
        ensures Single(q.slots) && Single(q.registry)
        ensures SlotOf(q.slots, u).Some? <==> SlotOf(q.registry, u).Some?
        ensures LookupFd(q.slots, u) == LookupFd(q.registry, u)
      {
        Filled(p.slots, i, user, fd, u);
        Filled(p.registry, k, user, fd, u);
      }
    }
  }

  lemma LeaveAgrees(p: Presence, user: nat)
    requires Agrees(p)
    ensures Agrees(Leave(p, user))
    ensures SlotOf(Leave(p, user).slots, user).None?
  {
    var q := Leave(p, user);
    if SlotOf(p.slots, user).Some? {
      var k := SlotOf(p.registry, user).value;
      forall u: nat
        ensures Single(q.slots) && Single(q.registry)
        ensures SlotOf(q.slots, u).Some? <==> SlotOf(q.registry, u).Some?
        ensures LookupFd(q.slots, u) == LookupFd(q.registry, u)
      {
        Emptied(p.slots, user, EMPTY, u);
        Emptied(p.registry, user, Entry(p.registry[k].user, -1, false), u);
      }
    }
  }

  lemma StepAgrees(p: Presence, e: Event)
    requires Agrees(p)
    ensures Agrees(Step(p, e))
  {
    match e
    case Connect(_) =>
    case Login(fd, user, _) => LoginAgrees(p, fd, user);
    case Logout(fd) => if fd in p.conns { LeaveAgrees(p, p.conns[fd].user); }
    case Disconnect(fd) => if fd in p.conns { LeaveAgrees(p, p.conns[fd].user); }
  }

  /** Over all runs of logins, re-logins, logouts and disconnects: at most 64 slots, one session per
      user, and a registry that lists the same users with the same descriptors. */
  lemma {:induction false} AlwaysAgrees(es: seq<Event>)
    ensures Agrees(Exec(START, es))
  {
    if es == [] {
      forall u: nat ensures SlotOf(START.slots, u).None? && SlotOf(START.registry, u).None? {
        NotFound(START.slots, u);
        NotFound(START.registry, u);
      }
    } else {
      AlwaysAgrees(es[..|es| - 1]);
      StepAgrees(Exec(START, es[..|es| - 1]), es[|es| - 1]);
    }
  }

  // ---------- when a login is accepted ----------

  lemma {:induction false} OneShort(xs: seq<Entry>, i: nat)
    requires i < |xs| && !xs[i].active
    ensures |ActiveUsers(xs)| < |xs|
  {
    var n := |xs| - 1;
    if i == n {
      FewUsers(xs[..n]);
      assert ActiveUsers(xs) == ActiveUsers(xs[..n]);
    } else {
      OneShort(xs[..n], i);
      assert ActiveUsers(xs) == ActiveUsers(xs[..n]) + if xs[n].active then {xs[n].user} else {};
    }
  }

  /** There is a place for a session exactly while fewer than 64 users have one. */
  lemma RoomIff(p: Presence)
    requires Agrees(p)
    ensures FreeSlot(p.slots).Some? <==> |ActiveUsers(p.slots)| < 64
  {
    var hole := FirstWhere(p.slots, Inactive(), 0);
    if hole.Some? {
      OneShort(p.slots, hole.value);
    } else {
      forall i | 0 <= i < |p.slots| ensures p.slots[i].active {
        assert !Inactive()(p.slots[i]);
      }
      FullMeansMany(p.slots);
    }
  }

  /** Somebody has a session, with this descriptor. */
  predicate InSession(xs: seq<Entry>, user: nat, fd: int) {
    exists i :: 0 <= i < |xs| && xs[i] == Entry(user, fd, true)
  }

  lemma SessionAt(xs: seq<Entry>, user: nat, fd: int)
    requires Single(xs)
    ensures InSession(xs, user, fd) <==> SlotOf(xs, user).Some? && LookupFd(xs, user) == fd
  {
    if i :| 0 <= i < |xs| && xs[i] == Entry(user, fd, true) {
      FoundAt(xs, i, user);
    }
    if SlotOf(xs, user).Some? {
      assert xs[SlotOf(xs, user).value].active;
    }
  }

  /** With good credentials, on a running connection, a login is accepted if and only if its user has no session
      and fewer than 64 users have one. It then adds that session, and its registration, and no other; a refused
      one leaves both tables alone. Either way the connection is authenticated exactly when it was accepted. */
  lemma LoginAcceptedIff(p: Presence, fd: int, user: nat, other: nat, fd2: int)
    requires Agrees(p) && fd in p.conns && p.conns[fd].running && user != 0
    ensures var q := Step(p, Login(fd, user, true));
      var accepted := user !in ActiveUsers(p.slots) && |ActiveUsers(p.slots)| < 64;
      && q.conns == p.conns[fd := if accepted then Conn(true, true, user) else p.conns[fd].(authenticated := false)]
      && (!accepted ==> q.slots == p.slots && q.registry == p.registry)
      && (accepted ==>
            && (InSession(q.slots, other, fd2) <==> InSession(p.slots, other, fd2) || (other == user && fd2 == fd))
            && (InSession(q.registry, other, fd2) <==> InSession(p.registry, other, fd2) || (other == user && fd2 == fd)))
  {
    hide Agrees;
    InActive(p.slots, user);
    RoomIff(p);
    if user !in ActiveUsers(p.slots) && |ActiveUsers(p.slots)| < 64 {
      AddsOne(p, fd, user, other, fd2);
    }
  }

  lemma AddsOne(p: Presence, fd: int, user: nat, other: nat, fd2: int)
    requires Agrees(p) && SlotOf(p.slots, user).None? && FreeSlot(p.slots).Some?
    ensures var q := DoLogin(p, fd, user).0;
      && (InSession(q.slots, other, fd2) <==> InSession(p.slots, other, fd2) || (other == user && fd2 == fd))
      && (InSession(q.registry, other, fd2) <==> InSession(p.registry, other, fd2) || (other == user && fd2 == fd))
  {
    var q := DoLogin(p, fd, user).0;
    LoginAgrees(p, fd, user);
    RegistryHasRoom(p);
    Filled(p.slots, FreeSlot(p.slots).value, user, fd, other);
    Filled(p.registry, FirstWhere(p.registry, Inactive(), 0).value, user, fd, other);
    SessionAt(p.slots, other, fd2);
    SessionAt(q.slots, other, fd2);
    SessionAt(p.registry, other, fd2);
    SessionAt(q.registry, other, fd2);
  }

  /** The codes: 2 for a user who has a session, 99 when all 64 places are taken. */
  lemma LoginCodes(p: Presence, fd: int, user: nat)
    requires Agrees(p)
    ensures DoLogin(p, fd, user).1
         == if user in ActiveUsers(p.slots) then 2 else if |ActiveUsers(p.slots)| == 64 then 99 else 0
  {
    InActive(p.slots, user);
    RoomIff(p);
    FewUsers(p.slots);
  }

  /** Bad credentials change neither table, and the connection has to log in again. */
  lemma BadCredentials(p: Presence, fd: int, user: nat)
    requires fd in p.conns && p.conns[fd].running && user != 0
    ensures Step(p, Login(fd, user, false)) == p.(conns := p.conns[fd := p.conns[fd].(authenticated := false)])
  {}

  /** A new descriptor is served from then on, and nobody is logged in on it. */
  lemma ConnectStarts(p: Presence, fd: int)
    ensures Step(p, Connect(fd)) == if fd > 0 && fd !in p.conns then p.(conns := p.conns[fd := Conn(true, false, 0)]) else p
  {}

  /** A logout, and the cleanup of an authenticated connection, end the session and the registration of the user it
      remembers, whatever their descriptor, and no other; nothing else ends any. */
  lemma LeavingEnds(p: Presence, e: Event, other: nat, fd2: int)
    requires Agrees(p) && (e.Logout? || e.Disconnect?)
    ensures var q := Step(p, e);
      var leaves := e.fd in p.conns && p.conns[e.fd].authenticated
                    && (if e.Logout? then p.conns[e.fd].running else p.conns[e.fd].user != 0);
      && (InSession(q.slots, other, fd2)
          <==> InSession(p.slots, other, fd2) && !(leaves && other == p.conns[e.fd].user))
      && (InSession(q.registry, other, fd2)
          <==> InSession(p.registry, other, fd2) && !(leaves && other == p.conns[e.fd].user))
      && q.conns == (if e.Disconnect? then p.conns - {e.fd}
                     else if leaves then p.conns[e.fd := p.conns[e.fd].(running := false)]
                     else p.conns)
  {
    if e.fd in p.conns {
      EndsOne(p, p.conns[e.fd].user, other, fd2);
    } else {
      assert p.conns - {e.fd} == p.conns;
    }
  }

  lemma EndsOne(p: Presence, user: nat, other: nat, fd2: int)
    requires Agrees(p)
    ensures var q := Leave(p, user);
      && (InSession(q.slots, other, fd2) <==> InSession(p.slots, other, fd2) && other != user)
      && (InSession(q.registry, other, fd2) <==> InSession(p.registry, other, fd2) && other != user)
  {
    var q := Leave(p, user);
    LeaveAgrees(p, user);
    if SlotOf(p.slots, user).Some? {
      Emptied(p.slots, user, EMPTY, other);
      Emptied(p.registry, user, Entry(p.registry[SlotOf(p.registry, user).value].user, -1, false), other);
    }
    SessionAt(p.slots, other, fd2);
    SessionAt(q.slots, other, fd2);
    SessionAt(p.registry, other, fd2);
    SessionAt(q.registry, other, fd2);
  }

  /** The server starts without sessions and with 128 empty places in its registry. */
  lemma StartsEmpty()
    ensures |START.registry| == 128 && START.slots == [] && START.conns == map[]
    ensures forall user, fd :: !InSession(START.registry, user, fd)
  {}

  // ---------- one connection per user ----------

  /** This connection takes requests for the user. */
  predicate Serves(p: Presence, fd: int, user: nat) {
    fd in p.conns && p.conns[fd].running && p.conns[fd].authenticated && p.conns[fd].user == user
  }

  /** Every connection that takes requests owns its user's session. */
  ghost predicate OwnSessions(p: Presence) {
    forall fd, user: nat :: Serves(p, fd, user) ==> SlotOf(p.slots, user).Some? && LookupFd(p.slots, user) == fd
  }

  lemma OneConnectionPerUser(p: Presence, fd: int, fd2: int, user: nat)
    requires OwnSessions(p) && Serves(p, fd, user) && Serves(p, fd2, user)
    ensures fd == fd2
  {}

  /** The cleanup of a connection that logged out finds its user logged in again elsewhere, and takes
      that session for its own. */
  ghost predicate Evicts(p: Presence, e: Event) {
    && e.Disconnect? && e.fd in p.conns
    && !p.conns[e.fd].running && p.conns[e.fd].authenticated && p.conns[e.fd].user != 0
    && exists fd2 :: Serves(p, fd2, p.conns[e.fd].user)
  }

  /** Leaving takes away the user's session and no other. */
  lemma LeaveOthers(p: Presence, user: nat, other: nat)
    requires Agrees(p) && other != user
    ensures SlotOf(Leave(p, user).slots, other) == SlotOf(p.slots, other)
    ensures LookupFd(Leave(p, user).slots, other) == LookupFd(p.slots, other)
  {
    if SlotOf(p.slots, user).Some? {
      Emptied(p.slots, user, EMPTY, other);
    }
  }

  lemma LoginOwns(p: Presence, fd: int, user: nat, other: nat)
    requires Agrees(p) && DoLogin(p, fd, user).1 == ERR_OK
    ensures var q := DoLogin(p, fd, user).0;
      && SlotOf(q.slots, user).Some? && LookupFd(q.slots, user) == fd
      && (other != user ==> SlotOf(q.slots, other) == SlotOf(p.slots, other)
                            && LookupFd(q.slots, other) == LookupFd(p.slots, other))
  {
    Filled(p.slots, FreeSlot(p.slots).value, user, fd, other);
  }

  /** The two outcomes of a login request. */
  lemma LoginOutcome(p: Presence, fd: int, user: nat, credentialsOk: bool)
    requires fd in p.conns && p.conns[fd].running && user != 0
    ensures var q := Step(p, Login(fd, user, credentialsOk));
      if credentialsOk && DoLogin(p, fd, user).1 == ERR_OK then
        q.slots == DoLogin(p, fd, user).0.slots && q.conns == p.conns[fd := Conn(true, true, user)]
      else
        q.slots == p.slots && q.conns == p.conns[fd := p.conns[fd].(authenticated := false)]
  {}

  lemma LoginKeepsOwn(p: Presence, fd: int, user: nat, credentialsOk: bool)
    requires Agrees(p) && OwnSessions(p)
    ensures OwnSessions(Step(p, Login(fd, user, credentialsOk)))
  {
    var q := Step(p, Login(fd, user, credentialsOk));
    if fd in p.conns && p.conns[fd].running && user != 0 {
      hide Step, DoLogin, SlotOf, LookupFd;
      LoginOutcome(p, fd, user, credentialsOk);
      forall fd', user': nat | Serves(q, fd', user')
        ensures SlotOf(q.slots, user').Some? && LookupFd(q.slots, user') == fd'
      {
        if credentialsOk && DoLogin(p, fd, user).1 == ERR_OK {
          LoginOwns(p, fd, user, user');
          if fd' != fd { assert Serves(p, fd', user'); NotLoggedIn(p, fd, user); }
        } else {
          assert Serves(p, fd', user');
        }
      }
    }
  }

  lemma NotLoggedIn(p: Presence, fd: int, user: nat)
    requires DoLogin(p, fd, user).1 == ERR_OK
    ensures SlotOf(p.slots, user).None?
  {}

  lemma LogoutKeepsOwn(p: Presence, fd: int)
    requires Agrees(p) && OwnSessions(p)
    ensures OwnSessions(Step(p, Logout(fd)))
  {
    var q := Step(p, Logout(fd));
    if q != p {
      var u := p.conns[fd].user;
      forall fd', user': nat | Serves(q, fd', user')
        ensures SlotOf(q.slots, user').Some? && LookupFd(q.slots, user') == fd'
      {
        assert Serves(p, fd, u) && Serves(p, fd', user');
        LeaveOthers(p, u, user');
      }
    }
  }

  lemma DisconnectKeepsOwnIff(p: Presence, fd: int)
    requires Agrees(p) && OwnSessions(p)
    ensures OwnSessions(Step(p, Disconnect(fd))) <==> !Evicts(p, Disconnect(fd))
  {
    var q := Step(p, Disconnect(fd));
    if fd in p.conns {
      var u := p.conns[fd].user;
      if Evicts(p, Disconnect(fd)) {
        var fd2 :| Serves(p, fd2, u);
        LeaveAgrees(p, u);
        assert Serves(q, fd2, u);
      } else {
        forall fd', user': nat | Serves(q, fd', user')
          ensures SlotOf(q.slots, user').Some? && LookupFd(q.slots, user') == fd'
        {
          assert Serves(p, fd', user');
          if user' != u {
            LeaveOthers(p, u, user');
          } else if p.conns[fd].running && p.conns[fd].authenticated {
            assert Serves(p, fd, u);
          }
        }
      }
    }
  }

  /** One event leaves every serving connection its session exactly when it is not such a cleanup. */
  lemma StepKeepsOwnIff(p: Presence, e: Event)
    requires Agrees(p) && OwnSessions(p)
    ensures OwnSessions(Step(p, e)) <==> !Evicts(p, e)
  {
    match e
    case Connect(fd) =>
      forall fd', user: nat | Serves(Step(p, e), fd', user) ensures Serves(p, fd', user) {}
    case Login(fd, user, credentialsOk) => LoginKeepsOwn(p, fd, user, credentialsOk);
    case Logout(fd) => LogoutKeepsOwn(p, fd);
    case Disconnect(fd) => DisconnectKeepsOwnIff(p, fd);
  }

  /** So over every run without one, no two connections take requests for the same user. */
  lemma {:induction false} OneConnectionAlways(es: seq<Event>)
    requires forall k :: 0 <= k < |es| ==> !Evicts(Exec(START, es[..k]), es[k])
    ensures OwnSessions(Exec(START, es))
    ensures forall fd, fd2, user: nat ::
      Serves(Exec(START, es), fd, user) && Serves(Exec(START, es), fd2, user) ==> fd == fd2
  {
    if es != [] {
      var n := |es| - 1;
      forall k | 0 <= k < n ensures !Evicts(Exec(START, es[..n][..k]), es[..n][k]) {
        assert es[..n][..k] == es[..k];
      }
      OneConnectionAlways(es[..n]);
      AlwaysAgrees(es[..n]);
      assert !Evicts(Exec(START, es[..n]), es[n]);
      StepKeepsOwnIff(Exec(START, es[..n]), es[n]);
    }
    var p := Exec(START, es);
    forall fd, fd2, user: nat | Serves(p, fd, user) && Serves(p, fd2, user) ensures fd == fd2 {
      OneConnectionPerUser(p, fd, fd2, user);
    }
  }

  /** A user without a session logs in on a new connection. */
  function Arrive(p: Presence, fd: int, user: nat): Presence {
    Step(Step(p, Connect(fd)), Login(fd, user, true))
  }

  lemma ArriveServes(p: Presence, fd: int, user: nat)
    requires Agrees(p) && fd > 0 && fd !in p.conns && user != 0
    requires SlotOf(p.slots, user).None? && FreeSlot(p.slots).Some?
    ensures Agrees(Arrive(p, fd, user)) && SlotOf(Arrive(p, fd, user).slots, user).Some?
    ensures Arrive(p, fd, user).conns == p.conns[fd := Conn(true, true, user)]
  {
    var p1 := Step(p, Connect(fd));
    StepAgrees(p, Connect(fd));
    StepAgrees(p1, Login(fd, user, true));
    LoginOwns(p1, fd, user, user);
    LoginOutcome(p1, fd, user, true);
  }

  lemma LeaveFrees(p: Presence, user: nat)
    requires Agrees(p) && SlotOf(p.slots, user).Some?
    ensures Agrees(Leave(p, user)) && SlotOf(Leave(p, user).slots, user).None?
    ensures FreeSlot(Leave(p, user).slots).Some?
  {
    LeaveAgrees(p, user);
    assert Inactive()(Leave(p, user).slots[SlotOf(p.slots, user).value]);
  }

  /** A late cleanup makes room for a second connection: the user logs out, logs in elsewhere, the first
      connection's cleanup clears the new session, and a third login is accepted while the second
      connection still serves. */
  lemma LateCleanupEvicts(p: Presence, user: nat, fd: int, fd2: int, fd3: int)
    requires Agrees(p) && OwnSessions(p) && Serves(p, fd, user) && user != 0
    requires fd2 > 0 && fd3 > 0 && fd2 != fd3 && fd2 !in p.conns && fd3 !in p.conns
    ensures var back := Arrive(Step(p, Logout(fd)), fd2, user);
      var q := Arrive(Step(back, Disconnect(fd)), fd3, user);
      Serves(q, fd2, user) && Serves(q, fd3, user)
  {
    hide Agrees, SlotOf, FreeSlot, Leave, Arrive;
    LeaveFrees(p, user);
    var out := Step(p, Logout(fd));
    AgreesFrame(Leave(p, user), out);
    ArriveServes(out, fd2, user);
    var back := Arrive(out, fd2, user);
    LeaveFrees(back, user);
    var late := Step(back, Disconnect(fd));
    AgreesFrame(Leave(back, user), late);
    SameConns(p, user);
    SameConns(back, user);
    ArriveServes(late, fd3, user);
  }

  lemma AgreesFrame(p: Presence, q: Presence)
    requires Agrees(p) && q.slots == p.slots && q.registry == p.registry
    ensures Agrees(q)
  {}

  lemma SameConns(p: Presence, user: nat)
    ensures Leave(p, user).conns == p.conns
  {}

  // ---------- stranded sessions ----------

  /** A disconnect frees exactly the session of the user its authenticated connection remembers: whoever
      else had a session keeps it, users who logged in earlier on the same connection included. */
  lemma DisconnectFreesIff(p: Presence, fd: int, user: nat)
    requires Agrees(p) && fd in p.conns && user != 0
    ensures SlotOf(Step(p, Disconnect(fd)).slots, user).None?
       <==> SlotOf(p.slots, user).None? || (p.conns[fd].authenticated && p.conns[fd].user == user)
  {
    var u := p.conns[fd].user;
    LeaveAgrees(p, u);
    if user != u {
      LeaveOthers(p, u, user);
    }
  }

  /** Every session belongs to a connection that serves its user. */
  ghost predicate NoneStranded(p: Presence) {
    forall user: nat :: SlotOf(p.slots, user).Some? ==> user != 0 && Serves(p, LookupFd(p.slots, user), user)
  }

  /** A second login on a connection whose user has a session there, whether it succeeds or fails. */
  predicate Strands(p: Presence, e: Event) {
    && e.Login? && e.user != 0 && e.fd in p.conns && p.conns[e.fd].running && p.conns[e.fd].authenticated
    && SlotOf(p.slots, p.conns[e.fd].user).Some? && LookupFd(p.slots, p.conns[e.fd].user) == e.fd
  }

  lemma LoginStrandsIff(p: Presence, fd: int, user: nat, credentialsOk: bool)
    requires Agrees(p) && NoneStranded(p)
    ensures NoneStranded(Step(p, Login(fd, user, credentialsOk))) <==> !Strands(p, Login(fd, user, credentialsOk))
  {
    var q := Step(p, Login(fd, user, credentialsOk));
    if fd in p.conns && p.conns[fd].running && user != 0 {
      hide Step, DoLogin, SlotOf, LookupFd;
      LoginOutcome(p, fd, user, credentialsOk);
      var entered := credentialsOk && DoLogin(p, fd, user).1 == ERR_OK;
      if entered { NotLoggedIn(p, fd, user); }
      forall other: nat
        ensures (entered ==> other != user) ==>
          SlotOf(q.slots, other) == SlotOf(p.slots, other) && LookupFd(q.slots, other) == LookupFd(p.slots, other)
        ensures entered ==> SlotOf(q.slots, user).Some? && LookupFd(q.slots, user) == fd
      {
        if entered { LoginOwns(p, fd, user, other); }
      }
      if Strands(p, Login(fd, user, credentialsOk)) {
        assert !Serves(q, fd, p.conns[fd].user);
      } else {
        forall other: nat | SlotOf(q.slots, other).Some?
          ensures other != 0 && Serves(q, LookupFd(q.slots, other), other)
        {
          if !(entered && other == user) {
            assert Serves(p, LookupFd(p.slots, other), other);
          }
        }
      }
    }
  }

  lemma LeaveStrandsNobody(p: Presence, e: Event)
    requires Agrees(p) && NoneStranded(p) && (e.Logout? || e.Disconnect?)
    ensures NoneStranded(Step(p, e))
  {
    var q := Step(p, e);
    if e.fd in p.conns {
      var u := p.conns[e.fd].user;
      LeaveAgrees(p, u);
      forall user: nat | SlotOf(q.slots, user).Some? ensures user != 0 && Serves(q, LookupFd(q.slots, user), user) {
        if user != u { LeaveOthers(p, u, user); }
        assert SlotOf(p.slots, user).Some? && Serves(p, LookupFd(p.slots, user), user);
      }
    }
  }

  /** One event strands a session exactly when it is such a second login. */
  lemma StepStrandsIff(p: Presence, e: Event)
    requires Agrees(p) && NoneStranded(p)
    ensures NoneStranded(Step(p, e)) <==> !Strands(p, e)
  {
    match e
    case Connect(_) =>
      forall user: nat | SlotOf(p.slots, user).Some? ensures Serves(Step(p, e), LookupFd(p.slots, user), user) {
        assert Serves(p, LookupFd(p.slots, user), user);
      }
    case Login(fd, user, credentialsOk) => LoginStrandsIff(p, fd, user, credentialsOk);
    case Logout(_) => LeaveStrandsNobody(p, e);
    case Disconnect(_) => LeaveStrandsNobody(p, e);
  }

  /** So over every run without one, each session belongs to a connection that serves its user; when all
      connections are gone, so are all sessions. */
  lemma {:induction false} NobodyStranded(es: seq<Event>)
    requires forall k :: 0 <= k < |es| ==> !Strands(Exec(START, es[..k]), es[k])
    ensures NoneStranded(Exec(START, es))
    ensures Exec(START, es).conns == map[] ==> forall user: nat :: SlotOf(Exec(START, es).slots, user).None?
  {
    if es == [] {
      forall user: nat ensures SlotOf(START.slots, user).None? { NotFound(START.slots, user); }
    } else {
      var n := |es| - 1;
      forall k | 0 <= k < n ensures !Strands(Exec(START, es[..n][..k]), es[..n][k]) {
        assert es[..n][..k] == es[..k];
      }
      NobodyStranded(es[..n]);
      AlwaysAgrees(es[..n]);
      assert !Strands(Exec(START, es[..n]), es[n]);
      StepStrandsIff(Exec(START, es[..n]), es[n]);
    }
  }

  /** The user has a session, but no connection remembers the user. */
  predicate Stranded(p: Presence, user: nat) {
    user != 0 && SlotOf(p.slots, user).Some? && forall fd :: fd in p.conns ==> p.conns[fd].user != user
  }

  /** A stranded session is never cleared: no run frees it, and every login of its user is refused. */
  lemma {:induction false} StrandedForGood(p: Presence, es: seq<Event>, user: nat, fd: int)
    requires Agrees(p) && Stranded(p, user)
    ensures Agrees(Exec(p, es)) && Stranded(Exec(p, es), user)
    ensures DoLogin(Exec(p, es), fd, user) == (Exec(p, es), ERR_ALREADY_LOGGED)
  {
    if es != [] {
      var n := |es| - 1;
      StrandedForGood(p, es[..n], user, fd);
      StepAgrees(Exec(p, es[..n]), es[n]);
      StaysStranded(Exec(p, es[..n]), es[n], user);
    }
  }

  lemma StaysStranded(p: Presence, e: Event, user: nat)
    requires Agrees(p) && Stranded(p, user)
    ensures Stranded(Step(p, e), user)
  {
    match e
    case Connect(_) =>
    case Login(fd, other, credentialsOk) =>
      if fd in p.conns && p.conns[fd].running && other != 0 {
        hide Step, DoLogin;
        LoginOutcome(p, fd, other, credentialsOk);
        if credentialsOk && DoLogin(p, fd, other).1 == ERR_OK {
          NotLoggedIn(p, fd, other);
          LoginOwns(p, fd, other, user);
        }
      }
    case Logout(fd) => if fd in p.conns { LeaveOthers(p, p.conns[fd].user, user); }
    case Disconnect(fd) => if fd in p.conns { LeaveOthers(p, p.conns[fd].user, user); }
  }

  /** Failed or successful, a second login and a disconnect leave the session of the first user behind, for
      good. */
  lemma SecondLoginStrandsSession(p: Presence, fd: int, user: nat, other: nat, credentialsOk: bool)
    requires Agrees(p) && OwnSessions(p) && Serves(p, fd, user) && user != 0 && other != 0
    requires forall fd2 :: fd2 in p.conns && fd2 != fd ==> p.conns[fd2].user != user
    ensures var q := Step(Step(p, Login(fd, other, credentialsOk)), Disconnect(fd));
      Agrees(q) && Stranded(q, user)
  {
    var p1 := Step(p, Login(fd, other, credentialsOk));
    var q := Step(p1, Disconnect(fd));
    StepAgrees(p, Login(fd, other, credentialsOk));
    StepAgrees(p1, Disconnect(fd));
    SecondLoginKeepsSlot(p, fd, user, other, credentialsOk);
    DisconnectFreesIff(p1, fd, user);
  }

  lemma SecondLoginKeepsSlot(p: Presence, fd: int, user: nat, other: nat, credentialsOk: bool)
    requires Agrees(p) && OwnSessions(p) && Serves(p, fd, user) && other != 0
    ensures var p1 := Step(p, Login(fd, other, credentialsOk));
      && SlotOf(p1.slots, user).Some? && fd in p1.conns
      && !(p1.conns[fd].authenticated && p1.conns[fd].user == user)
  {
    hide Step, DoLogin, SlotOf;
    LoginOutcome(p, fd, other, credentialsOk);
    if credentialsOk && DoLogin(p, fd, other).1 == ERR_OK {
      NotLoggedIn(p, fd, other);
      LoginOwns(p, fd, other, user);
    }
  }

  /** The failed one in particular, whatever other connections there are. */
  lemma FailedReloginStrandsSession(p: Presence, fd: int, user: nat, other: nat, fd2: int)
    requires Agrees(p) && fd in p.conns && p.conns[fd] == Conn(true, true, user) && other != 0 && user != 0
    requires SlotOf(p.slots, user).Some?
    ensures var q := Step(Step(p, Login(fd, other, false)), Disconnect(fd));
      SlotOf(q.slots, user).Some? && DoLogin(q, fd2, user).1 == ERR_ALREADY_LOGGED
  {}

  /** From a fresh start: log in as user 1, then as user 2, and disconnect. */
  lemma SwitchingUsersStrands()
    ensures var es := [Connect(5), Login(5, 1, true), Login(5, 2, true), Disconnect(5)];
      Exec(START, es).conns == map[] && Stranded(Exec(START, es), 1)
  {
    var es := [Connect(5), Login(5, 1, true), Login(5, 2, true), Disconnect(5)];
    AlwaysAgrees([]);
    NotFound(START.slots, 1);
    NotFound(START.slots, 2);
    ArriveServes(START, 5, 1);
    var p := Arrive(START, 5, 1);
    assert Exec(START, es[..2]) == p by {
      assert es[..2][..1] == es[..1] && es[..1][..0] == [];
    }
    AlwaysAgrees(es[..2]);
    StepKeepsOwnIff(START, Connect(5));
    StepKeepsOwnIff(Step(START, Connect(5)), Login(5, 1, true));
    SecondLoginStrandsSession(p, 5, 1, 2, true);
    assert es[..3][..2] == es[..2] && es[..4] == es && es[..4][..3] == es[..3];
  }

  // ---------- the tables as the server updates them ----------

  class Tables {
    var slots: seq<Entry>
    const registry: array<Entry>

    constructor ()
      ensures slots == START.slots && registry[..] == START.registry && fresh(registry)
    {
      slots := [];
      registry := new Entry[MAX_REGISTRY](_ => EMPTY);
      new;
      assert registry[..] == START.registry;
    }

    method FindSessionSlot(user: nat) returns (r: Option<nat>)
      ensures r == SlotOf(slots, user)
    {
      var slot := 0;
      while slot < |slots|
        invariant 0 <= slot <= |slots|
        invariant SlotOf(slots, user) == FirstWhere(slots, ActiveFor(user), slot)
      {
        if slots[slot].active && slots[slot].user == user {
          return Some(slot);
        }
        slot := slot + 1;
      }
      return None;
    }

    method FindFreeSlot() returns (r: Option<nat>)
      ensures r == FreeSlot(slots)
      ensures r.None? <==> |slots| >= 64 && forall k :: 0 <= k < 64 ==> slots[k].active
      ensures r.Some? ==> r.value < 64 && (r.value == |slots| || (r.value < |slots| && !slots[r.value].active))
      ensures r.Some? ==> forall k :: 0 <= k < r.value ==> slots[k].active
    {
      var slot := 0;
      while slot < MAX_SESSIONS && slot < |slots|
        invariant 0 <= slot <= |slots| && slot <= MAX_SESSIONS
        invariant FirstWhere(slots, Inactive(), 0) == FirstWhere(slots, Inactive(), slot)
        invariant forall k :: 0 <= k < slot ==> slots[k].active
      {
        if !slots[slot].active {
          return Some(slot);
        }
        slot := slot + 1;
      }
      return if slot < MAX_SESSIONS then Some(slot) else None;
    }

    method NotifyRegister(user: nat, fd: int)
      modifies registry
      ensures registry[..] == Register(old(registry[..]), user, fd)
    {
      ghost var was := registry[..];
      var i := 0;
      while i < registry.Length
        invariant 0 <= i <= registry.Length && registry[..] == was
        invariant FirstWhere(was, Inactive(), 0) == FirstWhere(was, Inactive(), i)
      {
        assert was[i] == registry[i];
        if !registry[i].active {
          registry[i] := Entry(user, fd, true);
          assert registry[..] == was[i := Entry(user, fd, true)];
          return;
        }
        i := i + 1;
      }
    }

    method NotifyUnregister(user: nat)
      modifies registry
      ensures registry[..] == Unregister(old(registry[..]), user)
    {
      ghost var was := registry[..];
      var i := 0;
      while i < registry.Length
        invariant 0 <= i <= registry.Length && registry[..] == was
        invariant SlotOf(was, user) == FirstWhere(was, ActiveFor(user), i)
      {
        assert was[i] == registry[i];
        if registry[i].active && registry[i].user == user {
          registry[i] := Entry(registry[i].user, -1, false);
          assert registry[..] == was[i := Entry(was[i].user, -1, false)];
          return;
        }
        i := i + 1;
      }
    }

    method Lookup(user: nat) returns (fd: int)
      ensures fd == LookupFd(registry[..], user)
    {
      var i := 0;
      while i < registry.Length
        invariant 0 <= i <= registry.Length
        invariant SlotOf(registry[..], user) == FirstWhere(registry[..], ActiveFor(user), i)
      {
        assert registry[..][i] == registry[i];
        if registry[i].active && registry[i].user == user {
          return registry[i].fd;
        }
        i := i + 1;
      }
      return -1;
    }

    /** The part of handle_login after the credentials were accepted. */
    method OpenSession(fd: int, user: nat, ghost conns: map<int, Conn>) returns (status: int)
      modifies this`slots, registry
      ensures (Presence(slots, registry[..], conns), status)
           == DoLogin(Presence(old(slots), old(registry[..]), conns), fd, user)
    {
      var existing := FindSessionSlot(user);
      if existing.Some? {
        return ERR_ALREADY_LOGGED;
      }
      var slot := FindFreeSlot();
      if slot.None? {
        return ERR_INTERNAL;
      }
      slots := Put(slots, slot.value + 1, Entry(user, fd, true));
      NotifyRegister(user, fd);
      return ERR_OK;
    }

    /** handle_logout, and the cleanup when a connection ends. */
    method CloseSession(user: nat, ghost conns: map<int, Conn>)
      modifies this`slots, registry
      ensures Presence(slots, registry[..], conns) == Leave(Presence(old(slots), old(registry[..]), conns), user)
    {
      var slot := FindSessionSlot(user);
      if slot.Some? {
        slots := slots[slot.value := EMPTY];
      }
      NotifyUnregister(user);
    }
  }
}
