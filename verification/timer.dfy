/** The timer's bounded batch: which auctions one tick closes, and how many ticks empty the backlog. */
module Timer {
  import opened Records
  import opened Sums
  import opened Wallets
  import opened Events
  import opened Escrow
  import Disputes

  const BATCH := 64

  predicate Expired(a: Auction, now: int) {
    a.status == Open && a.endTime <= now
  }

  /** The ids of all expired open auctions, lowest first. */
  function ExpiredIds(auctions: seq<Auction>, now: int): seq<nat> {
    if auctions == [] then []
    else
      var a := auctions[|auctions| - 1];
      var earlier := ExpiredIds(auctions[..|auctions| - 1], now);
      if Expired(a, now) then earlier + [a.id] else earlier
  }

  function Min(a: nat, b: nat): nat { if a < b then a else b }

  /** What the scan loop collects before its array is full. */
  function Batch(auctions: seq<Auction>, now: int): seq<nat> {
    var ids := ExpiredIds(auctions, now);
    ids[..Min(BATCH, |ids|)]
  }

  /** The closing loop as events. */
  function Expiries(ids: seq<nat>): seq<Event> {
    if ids == [] then [] else Expiries(ids[..|ids| - 1]) + [Expire(ids[|ids| - 1])]
  }

  function Tick(s: Store, now: int): Store {
    Exec(s, Expiries(Batch(s.auctions, now)))
  }

  /** Ticks at these instants, with nothing in between. */
  function Ticks(s: Store, nows: seq<int>): Store {
    if nows == [] then s else Tick(Ticks(s, nows[..|nows| - 1]), nows[|nows| - 1])
  }

  predicate DenseIds(auctions: seq<Auction>) {
    forall i :: 0 <= i < |auctions| ==> auctions[i].id == i + 1
  }

  /** The list holds exactly the expired open auctions, in increasing order. */
  ghost predicate ListsExpired(auctions: seq<Auction>, now: int, ids: seq<nat>) {
    && (forall k :: 0 <= k < |ids| ==> Exists(auctions, ids[k]) && Expired(auctions[ids[k] - 1], now))
    && (forall j, k :: 0 <= j < k < |ids| ==> ids[j] < ids[k])
    && (forall i :: 0 <= i < |auctions| && Expired(auctions[i], now) ==> i + 1 in ids)
  }

  lemma {:induction false} ExpiredIdsExact(auctions: seq<Auction>, now: int)
    requires DenseIds(auctions)
    ensures ListsExpired(auctions, now, ExpiredIds(auctions, now))
    decreases |auctions|
  {
    if auctions != [] {
      var n := |auctions| - 1;
      var earlier := ExpiredIds(auctions[..n], now);
      ExpiredIdsExact(auctions[..n], now);
      assert auctions == auctions[..n] + [auctions[n]];
      if Expired(auctions[n], now) {
        ListsOneMore(auctions[..n], auctions[n], now, earlier);
      } else {
        ListsTheSame(auctions[..n], auctions[n], now, earlier);
      }
    }
  }

  lemma ListsOneMore(front: seq<Auction>, a: Auction, now: int, earlier: seq<nat>)
    requires ListsExpired(front, now, earlier) && a.id == |front| + 1 && Expired(a, now)
    ensures ListsExpired(front + [a], now, earlier + [a.id])
  {
    hide Expired;
    var auctions, ids := front + [a], earlier + [a.id];
    forall k | 0 <= k < |ids| ensures Exists(auctions, ids[k]) && Expired(auctions[ids[k] - 1], now) {
      if k < |earlier| { assert ids[k] == earlier[k] && auctions[earlier[k] - 1] == front[earlier[k] - 1]; }
    }
    forall j, k | 0 <= j < k < |ids| ensures ids[j] < ids[k] {
      assert ids[j] == earlier[j];
    }
    forall i | 0 <= i < |auctions| && Expired(auctions[i], now) ensures i + 1 in ids {
      if i < |front| { assert auctions[i] == front[i] && i + 1 in earlier; } else { assert ids[|earlier|] == i + 1; }
    }
  }

  lemma ListsTheSame(front: seq<Auction>, a: Auction, now: int, earlier: seq<nat>)
    requires ListsExpired(front, now, earlier) && !Expired(a, now)
    ensures ListsExpired(front + [a], now, earlier)
  {
    hide Expired;
    var auctions := front + [a];
    forall k | 0 <= k < |earlier| ensures Exists(auctions, earlier[k]) && Expired(auctions[earlier[k] - 1], now) {
      assert auctions[earlier[k] - 1] == front[earlier[k] - 1];
    }
    forall i | 0 <= i < |auctions| && Expired(auctions[i], now) ensures i + 1 in earlier {
      assert i < |front| && auctions[i] == front[i];
    }
  }

  /** Some auctions of the table are closed, the others are as they were. */
  ghost predicate ClosedExactly(before: seq<Auction>, after: seq<Auction>, ids: seq<nat>) {
    && |after| == |before|
    && forall i :: 0 <= i < |before| ==>
      after[i] == if i + 1 in ids then before[i].(status := Closed) else before[i]
  }

  lemma ExpireCloses(s: Store, auction: nat)
    requires Sound(s) && Exists(s.auctions, auction) && s.auctions[auction - 1].status == Open
    ensures Step(s, Expire(auction)).store.auctions
         == s.auctions[auction - 1 := s.auctions[auction - 1].(status := Closed)]
  {
    CloseReady(s, auction);
    CloseEffect(s, s.auctions[auction - 1]);
  }

  lemma ClosesOneMore(before: seq<Auction>, mid: seq<Auction>, after: seq<Auction>, ids: seq<nat>)
    requires ids != [] && var x := ids[|ids| - 1];
      && ClosedExactly(before, mid, ids[..|ids| - 1]) && Exists(before, x) && x !in ids[..|ids| - 1]
      && after == mid[x - 1 := mid[x - 1].(status := Closed)]
    ensures ClosedExactly(before, after, ids)
  {
    var n := |ids| - 1;
    assert ids == ids[..n] + [ids[n]];
  }

  lemma ExpiriesSnoc(s: Store, ids: seq<nat>)
    requires ids != []
    ensures Exec(s, Expiries(ids)) == Step(Exec(s, Expiries(ids[..|ids| - 1])), Expire(ids[|ids| - 1])).store
  {
    assert Expiries(ids)[..|Expiries(ids)| - 1] == Expiries(ids[..|ids| - 1]);
  }

  /** Distinct ids of open auctions. */
  ghost predicate AllOpen(auctions: seq<Auction>, ids: seq<nat>) {
    && (forall k :: 0 <= k < |ids| ==> Exists(auctions, ids[k]) && auctions[ids[k] - 1].status == Open)
    && (forall j, k :: 0 <= j < k < |ids| ==> ids[j] != ids[k])
  }

  /** Closing a list of distinct open auctions closes exactly those. */
  lemma {:induction false} ExpiriesClose(s: Store, ids: seq<nat>)
    requires Sound(s) && Disputes.Reviewed(s)
    requires AllOpen(s.auctions, ids)
    ensures ClosedExactly(s.auctions, Exec(s, Expiries(ids)).auctions, ids)
    ensures Sound(Exec(s, Expiries(ids))) && Disputes.Reviewed(Exec(s, Expiries(ids)))
  {
    hide Step, Sound, Disputes.Reviewed;
    RunKeepsSound(s, Expiries(ids));
    if ids != [] {
      var n := |ids| - 1;
      ExpiriesClose(s, ids[..n]);
      var t := Exec(s, Expiries(ids[..n]));
      ExpiriesSnoc(s, ids);
      assert ids[n] !in ids[..n];
      assert t.auctions[ids[n] - 1] == s.auctions[ids[n] - 1];
      ExpireCloses(t, ids[n]);
      ClosesOneMore(s.auctions, t.auctions, Exec(s, Expiries(ids)).auctions, ids);
    }
  }

  lemma SoundIsDense(s: Store)
    requires Sound(s)
    ensures DenseIds(s.auctions)
  {
    forall i | 0 <= i < |s.auctions| ensures s.auctions[i].id == i + 1 {
      assert GoodAuction(s, i);
    }
  }

  /** One tick closes exactly min(64, n) of the n expired open auctions, the lowest ids first, and
      leaves every other auction alone. */
  lemma TickClosesBatch(s: Store, now: int)
    requires Sound(s) && Disputes.Reviewed(s)
    ensures var ids := ExpiredIds(s.auctions, now);
      && |Batch(s.auctions, now)| == Min(BATCH, |ids|)
      && ClosedExactly(s.auctions, Tick(s, now).auctions, ids[..Min(BATCH, |ids|)])
    ensures Sound(Tick(s, now)) && Disputes.Reviewed(Tick(s, now))
  {
    SoundIsDense(s);
    ExpiredIdsExact(s.auctions, now);
    var ids := ExpiredIds(s.auctions, now);
    var batch := Batch(s.auctions, now);
    ExpiriesClose(s, batch);
  }

  /** Scanning part of the file finds a prefix of the expired ids. */
  lemma {:induction false} ScanPrefix(auctions: seq<Auction>, now: int, n: nat)
    requires n <= |auctions|
    ensures ExpiredIds(auctions[..n], now) <= ExpiredIds(auctions, now)
  {
    if n == |auctions| {
      assert auctions[..n] == auctions;
    } else {
      var m := |auctions| - 1;
      assert auctions[..m][..n] == auctions[..n];
      ScanPrefix(auctions[..m], now, n);
    }
  }

  /** How many of the first `n` auctions are open and have run out. */
  function DueBefore(auctions: seq<Auction>, now: int, n: nat): nat
    requires n <= |auctions|
  {
    if n == 0 then 0
    else DueBefore(auctions, now, n - 1) + if auctions[n - 1].status == Open && auctions[n - 1].endTime <= now then 1 else 0
  }

  lemma {:induction false} DueAreListed(auctions: seq<Auction>, now: int, n: nat)
    requires n <= |auctions|
    ensures |ExpiredIds(auctions[..n], now)| == DueBefore(auctions, now, n)
  {
    if n > 0 {
      assert auctions[..n][..n - 1] == auctions[..n - 1];
      DueAreListed(auctions, now, n - 1);
    }
  }

  /** One tick closes exactly those open auctions that have run out and have fewer than 64 such auctions before
      them. */
  lemma TickClosesIff(s: Store, now: int, i: nat)
    requires Sound(s) && Disputes.Reviewed(s) && i < |s.auctions|
    ensures var a := s.auctions[i];
      var t := Tick(s, now);
      && |t.auctions| == |s.auctions|
      && t.auctions[i] == if a.status == Open && a.endTime <= now && DueBefore(s.auctions, now, i) < 64 then
                            a.(status := Closed)
                          else a
  {
    hide Tick;
    TickClosesBatch(s, now);
    SoundIsDense(s);
    ListedAt(s.auctions, now, i);
  }

  /** An auction is in the batch exactly when it is due and fewer than 64 are due before it. */
  lemma ListedAt(auctions: seq<Auction>, now: int, i: nat)
    requires DenseIds(auctions) && i < |auctions|
    ensures var ids := ExpiredIds(auctions, now);
      i + 1 in ids[..Min(BATCH, |ids|)]
      <==> auctions[i].status == Open && auctions[i].endTime <= now && DueBefore(auctions, now, i) < 64
  {
    var ids := ExpiredIds(auctions, now);
    var m := Min(BATCH, |ids|);
    ExpiredIdsExact(auctions, now);
    if Expired(auctions[i], now) {
      var d := DueBefore(auctions, now, i);
      DueAreListed(auctions, now, i);
      assert auctions[..i + 1][..i] == auctions[..i];
      ScanPrefix(auctions, now, i + 1);
      assert ids[d] == i + 1;
      if d < m { assert ids[..m][d] == i + 1; }
    }
  }

  /** Leaving the last auction out of a partial closing. */
  lemma ClosedButLast(before: seq<Auction>, after: seq<Auction>, now: int, m: nat)
    requires before != [] && DenseIds(before) && m <= |ExpiredIds(before, now)|
    requires ClosedExactly(before, after, ExpiredIds(before, now)[..m])
    ensures var n := |before| - 1;
      var earlier := ExpiredIds(before[..n], now);
      && ClosedExactly(before[..n], after[..n], earlier[..Min(m, |earlier|)])
      && after[n] == (if m > |earlier| then before[n].(status := Closed) else before[n])
  {
    var n := |before| - 1;
    var earlier := ExpiredIds(before[..n], now);
    var ids := ExpiredIds(before, now);
    ExpiredIdsExact(before[..n], now);
    if m <= |earlier| {
      assert ids[..m] == earlier[..m];
    } else {
      assert ids[..m] == earlier + [n + 1];
      assert earlier[..|earlier|] == earlier;
      assert ids[..m][|earlier|] == n + 1;
    }
  }

  /** Closing the first `m` of the expired ids leaves exactly the rest. */
  lemma {:induction false} RestRemains(before: seq<Auction>, after: seq<Auction>, now: int, m: nat)
    requires DenseIds(before) && m <= |ExpiredIds(before, now)|
    requires ClosedExactly(before, after, ExpiredIds(before, now)[..m])
    ensures ExpiredIds(after, now) == ExpiredIds(before, now)[m..]
  {
    if before != [] {
      hide ClosedExactly;
      var n := |before| - 1;
      var ids := ExpiredIds(before, now);
      var earlier := ExpiredIds(before[..n], now);
      ClosedButLast(before, after, now, m);
      RestRemains(before[..n], after[..n], now, Min(m, |earlier|));
      SameLength(before, after, ids[..m]);
      if m <= |earlier| {
        assert ids[m..] == earlier[m..] + ids[|earlier|..];
      } else {
        assert ids[m..] == [] && earlier[|earlier|..] == [];
      }
    }
  }

  lemma SameLength(before: seq<Auction>, after: seq<Auction>, ids: seq<nat>)
    requires ClosedExactly(before, after, ids)
    ensures |after| == |before|
  {}

  /** No auction expires between these instants: each finds the same backlog. */
  predicate SameBacklog(auctions: seq<Auction>, nows: seq<int>, now: int) {
    forall k :: 0 <= k < |nows| ==> ExpiredIds(auctions, nows[k]) == ExpiredIds(auctions, now)
  }

  /** Closing the first `m` ids, and then the next ones, closes the first of both together. */
  lemma ClosedFurther(before: seq<Auction>, mid: seq<Auction>, after: seq<Auction>, ids: seq<nat>, m: nat, n: nat)
    requires m <= n <= |ids|
    requires ClosedExactly(before, mid, ids[..m]) && ClosedExactly(mid, after, ids[m..n])
    ensures ClosedExactly(before, after, ids[..n])
  {
    assert ids[..n] == ids[..m] + ids[m..n];
  }

  lemma NextBatch(ids: seq<nat>, k: nat)
    ensures var m := Min(k * BATCH, |ids|);
      var rest := ids[m..];
      var n := Min((k + 1) * BATCH, |ids|);
      m <= n && rest[..Min(BATCH, |rest|)] == ids[m..n]
  {}

  /** Ticks with nothing in between drain the backlog in file order: while no further auction expires, the
      first 64 * k are closed after k ticks, and exactly the rest wait. */
  lemma {:induction false} TicksDrain(s: Store, nows: seq<int>, now: int)
    requires Sound(s) && Disputes.Reviewed(s) && SameBacklog(s.auctions, nows, now)
    ensures Sound(Ticks(s, nows)) && Disputes.Reviewed(Ticks(s, nows))
    ensures var ids := ExpiredIds(s.auctions, now);
      var t := Ticks(s, nows);
      var m := Min(|nows| * BATCH, |ids|);
      ClosedExactly(s.auctions, t.auctions, ids[..m]) && ExpiredIds(t.auctions, now) == ids[m..]
    decreases |nows|
  {
    hide Sound, Disputes.Reviewed, Tick, ClosedExactly;
    var ids := ExpiredIds(s.auctions, now);
    SoundIsDense(s);
    if nows == [] {
      NothingClosed(s.auctions);
    } else {
      var k := |nows| - 1;
      TicksDrain(s, nows[..k], now);
      var t := Ticks(s, nows[..k]);
      var m := Min(k * BATCH, |ids|);
      RestRemains(s.auctions, t.auctions, nows[k], m);
      TickClosesBatch(t, nows[k]);
      NextBatch(ids, k);
      ClosedFurther(s.auctions, t.auctions, Tick(t, nows[k]).auctions, ids, m, Min((k + 1) * BATCH, |ids|));
    }
    RestRemains(s.auctions, Ticks(s, nows).auctions, now, Min(|nows| * BATCH, |ids|));
  }

  lemma NothingClosed(auctions: seq<Auction>)
    ensures forall ids: seq<nat> :: ClosedExactly(auctions, auctions, ids[..0])
  {}

  /** So a backlog of n is empty after k such ticks exactly when n <= 64 * k. */
  lemma BacklogEmpties(s: Store, nows: seq<int>, now: int)
    requires Sound(s) && Disputes.Reviewed(s) && SameBacklog(s.auctions, nows, now)
    ensures ExpiredIds(Ticks(s, nows).auctions, now) == [] <==> |ExpiredIds(s.auctions, now)| <= |nows| * BATCH
  {
    TicksDrain(s, nows, now);
  }

  // ---------- ticks while the server works ----------

  /** A second of the server's life: some requests, the timer's scan at `now`, and then the closing loop, with
      further requests between its rounds. */
  datatype Round = Round(before: seq<Event>, now: int, closing: seq<Event>)

  function Scanned(s: Store, r: Round): Store {
    Exec(s, r.before)
  }

  function AfterRound(s: Store, r: Round): Store {
    Exec(Scanned(s, r), r.closing)
  }

  function AfterRounds(s: Store, rounds: seq<Round>): Store {
    if rounds == [] then s else AfterRound(AfterRounds(s, rounds[..|rounds| - 1]), rounds[|rounds| - 1])
  }

  /** The closing loop comes to every auction that the scan collected. */
  ghost predicate ClosesBatch(s: Store, r: Round) {
    var batch := Batch(Scanned(s, r).auctions, r.now);
    forall k :: 0 <= k < |batch| ==> Expire(batch[k]) in r.closing
  }

  ghost predicate TimerRuns(s: Store, rounds: seq<Round>) {
    forall k :: 0 <= k < |rounds| ==> ClosesBatch(AfterRounds(s, rounds[..k]), rounds[k])
  }

  /** Auctions stay, keep their end times, and never open again. */
  predicate Onward(before: seq<Auction>, after: seq<Auction>) {
    && |before| <= |after|
    && forall i :: 0 <= i < |before| ==>
      after[i].endTime == before[i].endTime && (after[i].status == Open ==> before[i].status == Open)
  }

  lemma CloseOnward(s: Store, e: Event)
    requires DenseIds(s.auctions) && (e.CloseAuction? || e.Expire?)
    ensures Onward(s.auctions, Handle(s, e).store.auctions)
  {
    hide CloseInternal;
    if Exists(s.auctions, e.auction) {
      Disputes.CloseTables(s, s.auctions[e.auction - 1]);
    }
  }

  lemma ResolveOnward(s: Store, e: Event)
    requires e.ResolveDispute?
    ensures Onward(s.auctions, Handle(s, e).store.auctions)
  {
    hide Refund;
    if Disputes.Decides(s, e.dispute, e.verdict) && Exists(s.auctions, s.disputes[e.dispute - 1].auction) {
      var d := s.disputes[e.dispute - 1];
      var s1 := s.(disputes := Put(s.disputes, e.dispute, d.(status := e.verdict, resolvedBy := e.moderator)));
      Disputes.RefundShape(s1, e.dispute, s.auctions[d.auction - 1]);
    }
  }

  lemma TradeOnward(s: Store, e: Event)
    requires e.PlaceBid? || e.CreateAuction? || e.FileDispute?
    ensures Onward(s.auctions, Handle(s, e).store.auctions)
  {
    hide ApplyDelta;
  }

  lemma AccountOnward(s: Store, e: Event)
    requires e.AddUser? || e.ChangeRole? || e.ToggleAccount? || e.DeleteUser? || e.Deposit?
    ensures Onward(s.auctions, Handle(s, e).store.auctions)
  {
    hide ApplyDelta, AdminCount, Taken;
  }

  lemma StepOnward(s: Store, e: Event)
    requires DenseIds(s.auctions)
    ensures Onward(s.auctions, Step(s, e).store.auctions)
  {
    hide Handle;
    match e
    case CloseAuction(_, _, _) => CloseOnward(s, e);
    case Expire(_) => CloseOnward(s, e);
    case ResolveDispute(_, _, _) => ResolveOnward(s, e);
    case PlaceBid(_, _, _) => TradeOnward(s, e);
    case CreateAuction(_, _, _, _, _) => TradeOnward(s, e);
    case FileDispute(_, _) => TradeOnward(s, e);
    case _ => AccountOnward(s, e);
  }

  lemma {:induction false} RunOnward(s: Store, es: seq<Event>)
    requires Sound(s) && Disputes.Reviewed(s)
    ensures Onward(s.auctions, Exec(s, es).auctions)
  {
    if es != [] {
      hide Step, Sound, Disputes.Reviewed;
      var init := es[..|es| - 1];
      RunOnward(s, init);
      RunKeepsSound(s, init);
      SoundIsDense(Exec(s, init));
      StepOnward(Exec(s, init), es[|es| - 1]);
    }
  }

  /** Wherever in a run its close comes, an auction is not open at the end. */
  lemma {:induction false} ExpiredInRun(s: Store, es: seq<Event>, auction: nat)
    requires Sound(s) && Disputes.Reviewed(s) && Exists(s.auctions, auction) && Expire(auction) in es
    ensures var t := Exec(s, es); Exists(t.auctions, auction) && t.auctions[auction - 1].status != Open
  {
    hide Step, Sound, Disputes.Reviewed;
    var init, last := es[..|es| - 1], es[|es| - 1];
    var t := Exec(s, init);
    assert es == init + [last];
    RunKeepsSound(s, init);
    RunOnward(s, init);
    if last == Expire(auction) {
      ExpireShuts(t, auction);
    } else {
      ExpiredInRun(s, init, auction);
      SoundIsDense(t);
      StepOnward(t, last);
    }
  }

  lemma ExpireShuts(s: Store, auction: nat)
    requires Sound(s) && Exists(s.auctions, auction)
    ensures var t := Step(s, Expire(auction)).store;
      Exists(t.auctions, auction) && t.auctions[auction - 1].status != Open
  {
    if s.auctions[auction - 1].status == Open {
      ExpireCloses(s, auction);
    }
  }

  // ---------- counting the auctions that are still in the way ----------

  function IsOpen(): Auction -> int {
    (a: Auction) => if a.status == Open then 1 else 0
  }

  /** How many of the first `n` auctions are open. */
  function OpenUpTo(auctions: seq<Auction>, n: nat): int
    requires n <= |auctions|
  {
    SumOf(auctions[..n], IsOpen())
  }

  lemma {:induction false} OpenOnward(before: seq<Auction>, after: seq<Auction>)
    requires |before| == |after| && Onward(before, after)
    ensures SumOf(after, IsOpen()) <= SumOf(before, IsOpen())
  {
    if before != [] {
      OpenOnward(before[..|before| - 1], after[..|after| - 1]);
    }
  }

  /** The first `n` auctions lose at least as many as are known to be closed. */
  lemma {:induction false} OpenDrops(before: seq<Auction>, after: seq<Auction>, ids: seq<nat>)
    requires |before| == |after| && Onward(before, after) && AllOpen(before, ids)
    requires forall k :: 0 <= k < |ids| ==> after[ids[k] - 1].status != Open
    ensures SumOf(after, IsOpen()) <= SumOf(before, IsOpen()) - |ids|
    decreases |ids|
  {
    if ids == [] {
      OpenOnward(before, after);
    } else {
      var k := |ids| - 1;
      var x := ids[k] - 1;
      var mid := before[x := before[x].(status := Closed)];
      SumOfUpdate(before, x, mid[x], IsOpen());
      OpenDrops(mid, after, ids[..k]);
    }
  }

  /** What a round does about the first `n` auctions, of which the last has run out. */
  lemma RoundProgress(s: Store, r: Round, n: nat)
    requires Sound(s) && Disputes.Reviewed(s) && ClosesBatch(s, r)
    requires Exists(s.auctions, n) && s.auctions[n - 1].endTime <= r.now
    ensures Sound(AfterRound(s, r)) && Disputes.Reviewed(AfterRound(s, r))
    ensures Onward(s.auctions, AfterRound(s, r).auctions)
    ensures AfterRound(s, r).auctions[n - 1].status == Open ==>
      OpenUpTo(AfterRound(s, r).auctions, n) <= OpenUpTo(s.auctions, n) - BATCH
  {
    hide Sound, Disputes.Reviewed, Exec;
    var u := Scanned(s, r);
    var t := AfterRound(s, r);
    RunKeepsSound(s, r.before);
    RunKeepsSound(u, r.closing);
    RunOnward(s, r.before);
    RunOnward(u, r.closing);
    if t.auctions[n - 1].status == Open {
      SoundIsDense(u);
      var batch := Batch(u.auctions, r.now);
      FullBatchBelow(u.auctions, r.now, n);
      assert n !in batch by {
        if n in batch { ExpiredInRun(u, r.closing, n); }
      }
      forall k | 0 <= k < |batch| ensures t.auctions[batch[k] - 1].status != Open {
        ExpiredInRun(u, r.closing, batch[k]);
      }
      OpenOnward(s.auctions[..n], u.auctions[..n]);
      OpenDrops(u.auctions[..n], t.auctions[..n], batch);
    }
  }

  /** If an expired auction is not in the batch, the batch is full of auctions before it. */
  lemma FullBatchBelow(auctions: seq<Auction>, now: int, n: nat)
    requires DenseIds(auctions) && Exists(auctions, n) && Expired(auctions[n - 1], now)
    ensures var batch := Batch(auctions, now);
      n !in batch ==> |batch| == BATCH && AllOpen(auctions[..n], batch)
  {
    ExpiredIdsExact(auctions, now);
    var ids := ExpiredIds(auctions, now);
    var k :| 0 <= k < |ids| && ids[k] == n;
    var batch := Batch(auctions, now);
    if k < |batch| {
      assert batch[k] == n;
    }
  }

  /** As long as an auction that has run out stays open, each round closes 64 before it. */
  lemma {:induction false} RoundsClose(s: Store, rounds: seq<Round>, n: nat)
    requires Sound(s) && Disputes.Reviewed(s) && TimerRuns(s, rounds) && Exists(s.auctions, n)
    requires forall k :: 0 <= k < |rounds| ==> s.auctions[n - 1].endTime <= rounds[k].now
    ensures var t := AfterRounds(s, rounds);
      && Sound(t) && Disputes.Reviewed(t) && Onward(s.auctions, t.auctions)
      && (t.auctions[n - 1].status == Open ==> OpenUpTo(t.auctions, n) <= OpenUpTo(s.auctions, n) - BATCH * |rounds|)
    decreases |rounds|
  {
    hide Sound, Disputes.Reviewed, ClosesBatch, AfterRound;
    if rounds != [] {
      var m := |rounds| - 1;
      var init := rounds[..m];
      assert forall k :: 0 <= k < m ==> init[..k] == rounds[..k];
      RoundsClose(s, init, n);
      RoundProgress(AfterRounds(s, init), rounds[m], n);
    }
  }

  lemma {:induction false} OpenAtMost(auctions: seq<Auction>)
    ensures 0 <= SumOf(auctions, IsOpen()) <= |auctions|
  {
    if auctions != [] {
      OpenAtMost(auctions[..|auctions| - 1]);
    }
  }

  /** However many requests run between the ticks and inside their closing loops, and whatever they are: an
      auction that has run out is not open any more after one round for each 64 auctions that were open up to
      its id, and so after one for each 64 ids. */
  lemma NoAuctionStarves(s: Store, rounds: seq<Round>, n: nat)
    requires Sound(s) && Disputes.Reviewed(s) && TimerRuns(s, rounds) && Exists(s.auctions, n)
    requires forall k :: 0 <= k < |rounds| ==> s.auctions[n - 1].endTime <= rounds[k].now
    ensures OpenUpTo(s.auctions, n) <= n
    ensures var t := AfterRounds(s, rounds);
      && Exists(t.auctions, n)
      && (OpenUpTo(s.auctions, n) <= BATCH * |rounds| ==> t.auctions[n - 1].status != Open)
  {
    hide AfterRounds, TimerRuns, Sound, Disputes.Reviewed;
    var t := AfterRounds(s, rounds);
    RoundsClose(s, rounds, n);
    OpenAtMost(s.auctions[..n]);
    OpenAtMost(t.auctions[..n - 1]);
    assert t.auctions[..n][..n - 1] == t.auctions[..n - 1];
  }

  /** A tick by itself is such a round. */
  lemma TickIsRound(s: Store, now: int)
    ensures var r := Round([], now, Expiries(Batch(s.auctions, now)));
      ClosesBatch(s, r) && AfterRound(s, r) == Tick(s, now)
  {
    var batch := Batch(s.auctions, now);
    forall k | 0 <= k < |batch| ensures Expire(batch[k]) in Expiries(batch) {
      ExpiryOfEach(batch, k);
    }
  }

  lemma {:induction false} ExpiryOfEach(ids: seq<nat>, k: nat)
    requires k < |ids|
    ensures |Expiries(ids)| == |ids| && Expiries(ids)[k] == Expire(ids[k])
  {
    if k < |ids| - 1 {
      ExpiryOfEach(ids[..|ids| - 1], k);
    } else if k > 0 {
      ExpiryOfEach(ids[..k], 0);
    }
  }

  /** A new auction runs for its duration, which is at least ten seconds: no tick before then may close it. */
  lemma NewAuctionRuns(s: Store, e: Event, now: int)
    requires e.CreateAuction? && Step(s, e).status == ERR_OK
    ensures |Step(s, e).store.auctions| == |s.auctions| + 1
    ensures var a := Step(s, e).store.auctions[|s.auctions|];
      && a.status == Open && (Expired(a, now) <==> now >= e.now + e.duration)
      && (now < e.now + 10 ==> !Expired(a, now))
  {}
}
