/** server/wallet.c: the guarded wallet update and the four operations built on it. */
module Wallets {
  import opened Records

  /** The new wallet, or None where the update is refused. A negative hold is clamped. */
  function Guarded(w: Wallet, balanceDelta: int, holdDelta: int): Option<Wallet> {
    var balance := w.balance + balanceDelta;
    var hold := if w.hold + holdDelta < 0 then 0 else w.hold + holdDelta;
    if balance < 0 || hold > balance then None else Some(Wallet(balance, hold))
  }

  /** No sanity guard fires: nothing is refused and nothing is clamped. */
  predicate Quiet(w: Wallet, balanceDelta: int, holdDelta: int) {
    && 0 <= w.balance + balanceDelta
    && 0 <= w.hold + holdDelta <= w.balance + balanceDelta
  }

  predicate Accepts(users: seq<User>, id: nat, balanceDelta: int, holdDelta: int) {
    Exists(users, id) && Guarded(users[id - 1].wallet, balanceDelta, holdDelta).Some?
  }

  function ApplyDelta(users: seq<User>, id: nat, balanceDelta: int, holdDelta: int): seq<User> {
    if Accepts(users, id, balanceDelta, holdDelta) then
      var u := users[id - 1];
      users[id - 1 := u.(wallet := Guarded(u.wallet, balanceDelta, holdDelta).value)]
    else
      users
  }

  /** The authoritative check fails without a log line; an update is logged even when refused. */
  function PlaceHold(s: Store, id: nat, amount: int): Store {
    if !Exists(s.users, id) || amount > s.users[id - 1].wallet.Available() then s
    else s.(users := ApplyDelta(s.users, id, 0, amount), log := s.log + [Hold(id, amount)])
  }

  function ReleaseHold(s: Store, id: nat, amount: int): Store {
    s.(users := ApplyDelta(s.users, id, 0, -amount), log := s.log + [Release(id, amount)])
  }

  function SettlePayment(s: Store, id: nat, amount: int): Store {
    s.(users := ApplyDelta(s.users, id, -amount, -amount), log := s.log + [Settle(id, amount)])
  }

  function CreditWallet(s: Store, id: nat, amount: int): Store {
    s.(users := ApplyDelta(s.users, id, amount, 0), log := s.log + [Credit(id, amount)])
  }

  /** One wallet of the table moved by a delta, everything else as it was. */
  function Moved(users: seq<User>, id: nat, balanceDelta: int, holdDelta: int): seq<User>
    requires Exists(users, id)
  {
    var u := users[id - 1];
    users[id - 1 := u.(wallet := Wallet(u.wallet.balance + balanceDelta, u.wallet.hold + holdDelta))]
  }

  /** A quiet update is exactly the requested move. */
  lemma QuietMoves(users: seq<User>, id: nat, balanceDelta: int, holdDelta: int)
    requires Exists(users, id) && Quiet(users[id - 1].wallet, balanceDelta, holdDelta)
    ensures ApplyDelta(users, id, balanceDelta, holdDelta) == Moved(users, id, balanceDelta, holdDelta)
  {}
}
