/** The results about whole executions: interleaved bids are atomic, the optimistic wallet check never
    goes stale, and holds and escrow agree in every intermediate state. */
module Linearization {
  import opened Records
  import opened Sums
  import opened Wallets
  import opened Events
  import opened Escrow
  import opened Protocol
  import opened Exclusion
  import opened Refinement
  import opened Commits
  import opened Environment
  import Disputes

  // ---------- the invariant over executions ----------

  /** No request yet. */
  function Start(db: Store): System {
    System(db, [], map[], map[])
  }

  function Fresh(db: Store): History {
    History([db], [], [])
  }

  lemma StartInv(db: Store)
    requires Sound(db) && Disputes.Reviewed(db)
    ensures Inv(Start(db), Fresh(db))
  {
    var y := Start(db);
    forall i | 0 <= i < |db.users| ensures UserMatches(db.users, y.threads, db.users, i) {}
    forall i | 0 <= i < |db.auctions| ensures AuctionMatches(y, db.auctions, i) {}
    forall a: nat ensures BidMatches(y, db.bids, a) {}
  }

  function EnvOfItems(items: seq<Item>): seq<Event> {
    if items == [] then []
    else
      var last := items[|items| - 1];
      EnvOfItems(items[..|items| - 1]) + if last.OfEnv? then [last.e] else []
  }

  function EnvOfActions(acts: seq<Action>): seq<Event>
    decreases |acts|
  {
    if acts == [] then [] else EnvOfAction(acts[0]) + EnvOfActions(acts[1..])
  }

  lemma EnvOfAppend(items: seq<Item>, i: Item)
    ensures EnvOfItems(items + [i]) == EnvOfItems(items) + if i.OfEnv? then [i.e] else []
  {
    assert (items + [i])[..|items|] == items;
  }

  function EnvOfAction(a: Action): seq<Event> {
    if a.Env? then [a.e] else []
  }

  /** The system after the first `k` actions of an execution. */
  function After(y: System, acts: seq<Action>, k: nat): System
    requires k <= |acts|
    decreases k
  {
    if k == 0 then y else After(Next(y, acts[0]), acts[1..], k - 1)
  }

  /** The order grew by these events of the rest of the server, and by bids. */
  ghost predicate Follows(y: System, h: History, z: System, h': History, env: seq<Event>) {
    Later(y, h, z, h') && EnvOfItems(h'.items) == EnvOfItems(h.items) + env
  }

  lemma FollowsOn(y: System, h: History, y1: System, h1: History, z: System, h2: History,
                  env: seq<Event>, more: seq<Event>)
    requires Follows(y, h, y1, h1, env) && Follows(y1, h1, z, h2, more)
    ensures Follows(y, h, z, h2, env + more)
  {
    LaterStill(y, h, y1, h1, z, h2);
    assert EnvOfItems(h.items) + env + more == EnvOfItems(h.items) + (env + more);
  }

  lemma OneMarkEach(y: System, h: History)
    requires Inv(y, h)
    ensures |h.marks| == |y.threads|
  {}

  lemma ActionKeepsInv(y: System, h: History, a: Action, z: System) returns (h': History)
    requires Inv(y, h) && Allowed(y, a) && z == Next(y, a)
    ensures Inv(z, h') && Follows(y, h, z, h', EnvOfAction(a))
  {
    hide Step, Inv, ThreadStep;
    if a.Run? {
      h' := ThreadStepKeepsInv(y, h, a.t);
      OneMarkEach(y, h);
      RunIsLater(y, h, a.t, h');
      EnvOfAppend(h.items, OfThread(a.t));
    } else {
      h' := NextKeepsInv(y, h, a);
      if a.Env? { EnvOfAppend(h.items, OfEnv(a.e)); }
    }
  }

  lemma RunIsLater(y: System, h: History, t: nat, h': History)
    requires Enabled(y, t) && Grows(h, h', t) && |h.marks| == |y.threads|
    ensures Later(y, h, ThreadStep(y, t), h')
  {}

  lemma FollowsSelf(y: System, h: History)
    requires |h.marks| == |y.threads|
    ensures Follows(y, h, y, h, [])
  {}

  /** Every state of an execution has a history, and later histories extend earlier ones. */
  lemma {:induction false} ExecutionKeepsInv(y: System, h: History, acts: seq<Action>, z: System)
    returns (hs: seq<History>)
    requires Inv(y, h) && Execution(y, acts, z)
    ensures |hs| == |acts| + 1 && hs[0] == h
    ensures forall k :: 0 <= k <= |acts| ==> Inv(After(y, acts, k), hs[k])
    ensures forall k :: 0 <= k <= |acts| ==>
      Follows(After(y, acts, k), hs[k], z, hs[|acts|], EnvOfActions(acts[k..]))
    ensures After(y, acts, |acts|) == z
    decreases |acts|
  {
    hide Step, Inv, Follows, Next, Allowed, EnvOfAction, EnvOfItems;
    if acts == [] {
      hs := [h];
      assert acts[0..] == [];
      OneMarkEach(y, h);
      FollowsSelf(y, h);
    } else {
      var y1 := Next(y, acts[0]);
      var h1 := ActionKeepsInv(y, h, acts[0], y1);
      var rest := ExecutionKeepsInv(y1, h1, acts[1..], z);
      hs := [h] + rest;
      FollowsOn(y, h, y1, h1, z, hs[|acts|], EnvOfAction(acts[0]), EnvOfActions(acts[1..]));
      forall k | 0 <= k <= |acts|
        ensures Inv(After(y, acts, k), hs[k])
        ensures Follows(After(y, acts, k), hs[k], z, hs[|acts|], EnvOfActions(acts[k..]))
      {
        if k == 0 {
          assert acts[0..] == acts;
        } else {
          assert acts[k..] == acts[1..][k - 1..];
        }
      }
    }
  }

  lemma ReachableInv(db: Store, acts: seq<Action>, z: System) returns (h: History)
    requires Sound(db) && Disputes.Reviewed(db) && Execution(Start(db), acts, z)
    ensures Inv(z, h)
  {
    hide Inv, Execution;
    StartInv(db);
    var hs := ExecutionKeepsInv(Start(db), Fresh(db), acts, z);
    h := hs[|acts|];
  }

  // ---------- the sequential order ----------

  /** Running the order one atomic handler after another. */
  function RunItems(s: Store, threads: seq<Thread>, items: seq<Item>): Store {
    if items == [] then s
    else Step(RunItems(s, threads, items[..|items| - 1]), EventOf(threads, items[|items| - 1])).store
  }

  /** The atomic bid on this store gets the reply the thread got. */
  predicate Answered(s: Store, threads: seq<Thread>, t: nat) {
    t < |threads| && Step(s, Request(threads[t])).status == threads[t].status
  }

  /** Each bid in the order is answered there as its thread was answered. */
  ghost predicate Replies(s: Store, threads: seq<Thread>, items: seq<Item>) {
    items == [] ||
    var init := items[..|items| - 1];
    var last := items[|items| - 1];
    && Replies(s, threads, init)
    && (last.OfThread? ==> Answered(RunItems(s, threads, init), threads, last.t))
  }

  lemma RunSnoc(s: Store, threads: seq<Thread>, items: seq<Item>, i: Item)
    ensures RunItems(s, threads, items + [i]) == Step(RunItems(s, threads, items), EventOf(threads, i)).store
    ensures Replies(s, threads, items + [i]) <==>
      && Replies(s, threads, items)
      && (i.OfThread? ==> Answered(RunItems(s, threads, items), threads, i.t))
  {
    assert (items + [i])[..|items|] == items;
  }

  predicate RejectedAt(th: Thread, m: Mark, k: nat) {
    Finished(th) && th.status != ERR_OK && m.linAt == k
  }

  /** The rejected bids, among the first `n` threads, whose reply is justified at position `k`. */
  function Rejects(threads: seq<Thread>, marks: seq<Mark>, k: nat, n: nat): seq<Item>
    requires n <= |threads| == |marks|
  {
    if n == 0 then []
    else Rejects(threads, marks, k, n - 1) + if RejectedAt(threads[n - 1], marks[n - 1], k) then [OfThread(n - 1)] else []
  }

  /** The first `k` items with the rejected bids put in where they belong; at position `k` itself, only
      those of the first `n` threads. */
  function Weave(threads: seq<Thread>, h: History, k: nat, n: nat): seq<Item>
    requires k <= |h.items| && n <= |threads| == |h.marks|
  {
    (if k == 0 then [] else Weave(threads, h, k - 1, |threads|) + [h.items[k - 1]]) + Rejects(threads, h.marks, k, n)
  }

  /** A rejected bid put in where its reply is justified changes nothing. */
  lemma RejectIdle(s: Store, threads: seq<Thread>, h: History, order: seq<Item>, k: nat, t: nat)
    requires t < |threads| == |h.marks| && k < |h.trace| && RejectedAt(threads[t], h.marks[t], k)
    requires RunItems(s, threads, order) == h.trace[k] && Replies(s, threads, order)
    requires ReplyStands(h, t, threads[t])
    ensures RunItems(s, threads, order + [OfThread(t)]) == h.trace[k]
    ensures Replies(s, threads, order + [OfThread(t)])
  {
    hide Step, RunItems, Replies;
    RunSnoc(s, threads, order, OfThread(t));
    BidReply(h.trace[k], Request(threads[t]));
  }

  lemma {:induction false} RejectsIdle(s: Store, threads: seq<Thread>, h: History, order: seq<Item>, k: nat, n: nat)
    requires n <= |threads| == |h.marks| && k < |h.trace|
    requires RunItems(s, threads, order) == h.trace[k] && Replies(s, threads, order)
    requires forall t :: 0 <= t < |threads| ==> ReplyStands(h, t, threads[t])
    ensures RunItems(s, threads, order + Rejects(threads, h.marks, k, n)) == h.trace[k]
    ensures Replies(s, threads, order + Rejects(threads, h.marks, k, n))
  {
    hide RunItems, Replies, ReplyStands, RejectedAt;
    if n == 0 {
      assert order + [] == order;
    } else {
      RejectsIdle(s, threads, h, order, k, n - 1);
      var before := order + Rejects(threads, h.marks, k, n - 1);
      if RejectedAt(threads[n - 1], h.marks[n - 1], k) {
        RejectIdle(s, threads, h, before, k, n - 1);
        assert order + Rejects(threads, h.marks, k, n) == before + [OfThread(n - 1)];
      } else {
        assert order + Rejects(threads, h.marks, k, n) == before;
      }
    }
  }

  lemma {:induction false} WeaveRuns(threads: seq<Thread>, h: History, k: nat)
    requires Chronicle(threads, h) && k <= |h.items|
    requires forall t :: 0 <= t < |threads| ==> Finished(threads[t]) && ReplyStands(h, t, threads[t])
    ensures RunItems(h.trace[0], threads, Weave(threads, h, k, |threads|)) == h.trace[k]
    ensures Replies(h.trace[0], threads, Weave(threads, h, k, |threads|))
  {
    hide Step;
    if k == 0 {
      RejectsIdle(h.trace[0], threads, h, [], 0, |threads|);
    } else {
      WeaveRuns(threads, h, k - 1);
      var before := Weave(threads, h, k - 1, |threads|);
      var item := h.items[k - 1];
      RunSnoc(h.trace[0], threads, before, item);
      assert StepAt(threads, h, k - 1) && OwnerAt(threads, h, k - 1);
      RejectsIdle(h.trace[0], threads, h, before + [item], k, |threads|);
    }
  }

  // ---------- each bid is in the order exactly once ----------

  function Times(items: seq<Item>, x: Item): nat {
    if items == [] then 0
    else Times(items[..|items| - 1], x) + if items[|items| - 1] == x then 1 else 0
  }

  lemma {:induction false} TimesConcat(xs: seq<Item>, ys: seq<Item>, x: Item)
    ensures Times(xs + ys, x) == Times(xs, x) + Times(ys, x)
  {
    if ys == [] {
      assert xs + ys == xs;
    } else {
      var n := |ys| - 1;
      assert (xs + ys)[..|xs + ys| - 1] == xs + ys[..n];
      TimesConcat(xs, ys[..n], x);
    }
  }

  lemma {:induction false} RejectsCount(threads: seq<Thread>, marks: seq<Mark>, k: nat, n: nat, t: nat)
    requires n <= |threads| == |marks|
    ensures Times(Rejects(threads, marks, k, n), OfThread(t))
         == if t < n && RejectedAt(threads[t], marks[t], k) then 1 else 0
  {
    if n > 0 {
      RejectsCount(threads, marks, k, n - 1, t);
      var more := if RejectedAt(threads[n - 1], marks[n - 1], k) then [OfThread(n - 1)] else [];
      TimesConcat(Rejects(threads, marks, k, n - 1), more, OfThread(t));
    }
  }

  lemma {:induction false} ItemsCount(items: seq<Item>, x: Item, p: nat)
    requires forall k :: 0 <= k < |items| ==> (items[k] == x <==> k == p)
    ensures Times(items, x) == if p < |items| then 1 else 0
  {
    if items != [] {
      var n := |items| - 1;
      ItemsCount(items[..n], x, p);
    }
  }

  /** A rejected bid of this thread is woven in by position `k`, or there if among the first `n`. */
  predicate WovenBy(threads: seq<Thread>, marks: seq<Mark>, k: nat, n: nat, t: nat)
    requires |threads| == |marks|
  {
    && t < |threads| && Finished(threads[t]) && threads[t].status != ERR_OK
    && (marks[t].linAt < k || (marks[t].linAt == k && t < n))
  }

  lemma WovenNext(threads: seq<Thread>, marks: seq<Mark>, k: nat, n: nat, t: nat)
    requires |threads| == |marks| && n <= |threads| && k > 0
    ensures (if WovenBy(threads, marks, k, n, t) then 1 else 0)
         == (if WovenBy(threads, marks, k - 1, |threads|, t) then 1 else 0)
            + (if t < n && RejectedAt(threads[t], marks[t], k) then 1 else 0)
  {}

  lemma {:induction false} WeaveCount(threads: seq<Thread>, h: History, k: nat, n: nat, t: nat)
    requires k <= |h.items| && n <= |threads| == |h.marks|
    ensures Times(Weave(threads, h, k, n), OfThread(t))
         == Times(h.items[..k], OfThread(t)) + if WovenBy(threads, h.marks, k, n, t) then 1 else 0
    decreases k
  {
    hide Rejects;
    RejectsCount(threads, h.marks, k, n, t);
    var here := Rejects(threads, h.marks, k, n);
    if k == 0 {
      TimesConcat([], here, OfThread(t));
    } else {
      hide Times, WovenBy, RejectedAt;
      WovenNext(threads, h.marks, k, n, t);
      WeaveCount(threads, h, k - 1, |threads|, t);
      var before := Weave(threads, h, k - 1, |threads|);
      var item := [h.items[k - 1]];
      assert h.items[..k] == h.items[..k - 1] + item;
      TimesConcat(h.items[..k - 1], item, OfThread(t));
      TimesConcat(before, item, OfThread(t));
      TimesConcat(before + item, here, OfThread(t));
      assert Weave(threads, h, k, n) == before + item + here;
    }
  }

  lemma OnceEach(threads: seq<Thread>, h: History, t: nat)
    requires Chronicle(threads, h)
    requires forall u :: 0 <= u < |threads| ==> threads[u].pc == AtDone && ReplyStands(h, u, threads[u])
    ensures Times(Weave(threads, h, |h.items|, |threads|), OfThread(t)) == if t < |threads| then 1 else 0
  {
    hide Step;
    WeaveCount(threads, h, |h.items|, |threads|, t);
    assert h.items[..|h.items|] == h.items;
    var p := if t < |threads| && threads[t].status == ERR_OK then h.marks[t].linAt else |h.items|;
    forall k | 0 <= k < |h.items| ensures h.items[k] == OfThread(t) <==> k == p {
      assert OwnerAt(threads, h, k);
      if t < |threads| { assert ReplyStands(h, t, threads[t]); }
    }
    ItemsCount(h.items, OfThread(t), p);
    if t < |threads| { assert ReplyStands(h, t, threads[t]); }
  }

  lemma {:induction false} RejectsEnv(threads: seq<Thread>, h: History, order: seq<Item>, k: nat, n: nat)
    requires n <= |threads| == |h.marks|
    ensures EnvOfItems(order + Rejects(threads, h.marks, k, n)) == EnvOfItems(order)
  {
    if n == 0 {
      assert order + [] == order;
    } else {
      RejectsEnv(threads, h, order, k, n - 1);
      var before := order + Rejects(threads, h.marks, k, n - 1);
      if RejectedAt(threads[n - 1], h.marks[n - 1], k) {
        assert order + Rejects(threads, h.marks, k, n) == before + [OfThread(n - 1)];
        EnvOfAppend(before, OfThread(n - 1));
      } else {
        assert order + Rejects(threads, h.marks, k, n) == before;
      }
    }
  }

  lemma {:induction false} WeaveEnv(threads: seq<Thread>, h: History, k: nat, n: nat)
    requires k <= |h.items| && n <= |threads| == |h.marks|
    ensures EnvOfItems(Weave(threads, h, k, n)) == EnvOfItems(h.items[..k])
  {
    if k == 0 {
      RejectsEnv(threads, h, [], 0, n);
    } else {
      var before := Weave(threads, h, k - 1, |threads|);
      WeaveEnv(threads, h, k - 1, |threads|);
      EnvOfAppend(before, h.items[k - 1]);
      EnvOfAppend(h.items[..k - 1], h.items[k - 1]);
      assert h.items[..k] == h.items[..k - 1] + [h.items[k - 1]];
      RejectsEnv(threads, h, before + [h.items[k - 1]], k, n);
    }
  }

  // ---------- the order respects real time ----------

  /** The order can be cut where a moment of the run lies: before the cut are the events up to then and
      every bid that was over, behind it every bid that had not begun. */
  ghost predicate Cut(order: seq<Item>, p: nat, moment: System, env: seq<Event>) {
    && p <= |order| && EnvOfItems(order[..p]) == env
    && (forall t: nat :: t < |moment.threads| && moment.threads[t].pc == AtDone ==> OfThread(t) in order[..p])
    && (forall u: nat :: u >= |moment.threads| ==> OfThread(u) !in order[..p])
  }

  ghost predicate Cuttable(order: seq<Item>, moment: System, env: seq<Event>) {
    exists p :: Cut(order, p, moment, env)
  }

  lemma {:induction false} RejectsPrefix(threads: seq<Thread>, marks: seq<Mark>, k: nat, n: nat, m: nat)
    requires n <= m <= |threads| == |marks|
    ensures Rejects(threads, marks, k, n) <= Rejects(threads, marks, k, m)
  {
    if n < m {
      RejectsPrefix(threads, marks, k, n, m - 1);
    }
  }

  lemma {:induction false} WeavePrefix(threads: seq<Thread>, h: History, k: nat, n: nat, m: nat)
    requires k <= m <= |h.items| && n <= |threads| == |h.marks|
    ensures Weave(threads, h, k, n) <= Weave(threads, h, m, |threads|)
  {
    if k == m {
      RejectsPrefix(threads, h.marks, k, n, |threads|);
    } else {
      WeavePrefix(threads, h, k, n, m - 1);
    }
  }

  lemma {:induction false} TimesIn(items: seq<Item>, x: Item)
    ensures Times(items, x) > 0 <==> x in items
  {
    if items != [] {
      var n := |items| - 1;
      TimesIn(items[..n], x);
      assert items == items[..n] + [items[n]];
    }
  }

  lemma {:induction false} EnvOfSplit(acts: seq<Action>, k: nat)
    requires k <= |acts|
    ensures EnvOfActions(acts) == EnvOfActions(acts[..k]) + EnvOfActions(acts[k..])
    decreases k
  {
    if k == 0 {
      assert acts[0..] == acts;
    } else {
      EnvOfSplit(acts[1..], k - 1);
      assert acts[..k][1..] == acts[1..][..k - 1] && acts[k..] == acts[1..][k - 1..];
    }
  }

  lemma SameFront<T>(a: seq<T>, b: seq<T>, c: seq<T>)
    requires a + c == b + c
    ensures a == b
  {
    assert |a + c| == |b + c|;
    assert a == (a + c)[..|a|] && b == (b + c)[..|b|];
  }

  /** A bid that was over at moment `m` is in front of the cut. */
  lemma OverBefore(m: System, hm: History, z: System, h: History, t: nat)
    requires Inv(m, hm) && Inv(z, h) && Later(m, hm, z, h) && t < |m.threads| && m.threads[t].pc == AtDone
    ensures OfThread(t) in Weave(z.threads, h, |hm.items|, |m.threads|)
  {
    hide Step, Exclusive, Matches, Sound, Disputes.Reviewed;
    var n := |hm.items|;
    assert ThreadOk(m, hm, t);
    WeaveCount(z.threads, h, n, |m.threads|, t);
    if m.threads[t].status == ERR_OK {
      var j := hm.marks[t].linAt;
      assert h.items[..n][j] == OfThread(t);
      TimesIn(h.items[..n], OfThread(t));
    }
    TimesIn(Weave(z.threads, h, n, |m.threads|), OfThread(t));
  }

  /** A bid that had not begun at moment `m` is behind it. */
  lemma YetToBegin(m: System, hm: History, z: System, h: History, u: nat)
    requires Inv(m, hm) && Inv(z, h) && Later(m, hm, z, h) && u >= |m.threads|
    ensures OfThread(u) !in Weave(z.threads, h, |hm.items|, |m.threads|)
  {
    hide Step, Exclusive, Matches, Sound, Disputes.Reviewed;
    var n := |hm.items|;
    WeaveCount(z.threads, h, n, |m.threads|, u);
    forall j | 0 <= j < n ensures h.items[..n][j] != OfThread(u) {
      assert OwnerAt(z.threads, h, j);
    }
    TimesIn(h.items[..n], OfThread(u));
    TimesIn(Weave(z.threads, h, n, |m.threads|), OfThread(u));
  }

  lemma CutAt(m: System, hm: History, z: System, h: History, env: seq<Event>, more: seq<Event>)
    requires Inv(m, hm) && Inv(z, h) && Follows(m, hm, z, h, more) && EnvOfItems(h.items) == env + more
    ensures Cuttable(Weave(z.threads, h, |h.items|, |z.threads|), m, env)
  {
    hide Step, Inv;
    var order := Weave(z.threads, h, |h.items|, |z.threads|);
    var front := Weave(z.threads, h, |hm.items|, |m.threads|);
    WeavePrefix(z.threads, h, |hm.items|, |m.threads|, |h.items|);
    assert order[..|front|] == front;
    WeaveEnv(z.threads, h, |hm.items|, |m.threads|);
    assert h.items[..|hm.items|] == hm.items;
    SameFront(EnvOfItems(hm.items), env, more);
    forall t: nat | t < |m.threads| && m.threads[t].pc == AtDone ensures OfThread(t) in front {
      OverBefore(m, hm, z, h, t);
    }
    forall u: nat | u >= |m.threads| ensures OfThread(u) !in front {
      YetToBegin(m, hm, z, h, u);
    }
    assert Cut(order, |front|, m, env);
  }

  // ---------- interleaved bids are atomic ----------

  /** The tables agree, up to the numbering of the bid log. */
  ghost predicate SameTables(s: Store, t: Store) {
    && s.users == t.users && s.auctions == t.auctions && s.disputes == t.disputes
    && forall a: nat :: OffersOn(s.bids, a) == OffersOn(t.bids, a)
  }

  lemma {:induction false} DoneOwesNothing(threads: seq<Thread>, u: nat)
    requires forall t :: 0 <= t < |threads| ==> threads[t].pc == AtDone
    ensures Debt(threads, u) == 0
  {
    SumOfZero(threads, OwedBy(u));
  }

  /** With no bid in flight the stored tables are the sequential ones. */
  lemma QuiescentTables(z: System, h: History)
    requires Inv(z, h) && Quiescent(z)
    ensures SameTables(z.db, Last(h))
  {
    QuiescentIsFree(z);
    forall i | 0 <= i < |z.db.users| ensures z.db.users[i] == Last(h).users[i] {
      assert UserMatches(z.db.users, z.threads, Last(h).users, i);
      DoneOwesNothing(z.threads, i + 1);
    }
    forall i | 0 <= i < |z.db.auctions| ensures z.db.auctions[i] == Last(h).auctions[i] {
      assert AuctionMatches(z, Last(h).auctions, i);
    }
    forall a: nat ensures OffersOn(z.db.bids, a) == OffersOn(Last(h).bids, a) {
      assert BidMatches(z, Last(h).bids, a);
    }
  }

  /** The order answers every bid as its thread was answered and ends in the stored tables. */
  lemma OrderAgrees(z: System, h: History)
    requires Inv(z, h) && Quiescent(z)
    ensures var order := Weave(z.threads, h, |h.items|, |z.threads|);
      && (forall t: nat :: Times(order, OfThread(t)) == if t < |z.threads| then 1 else 0)
      && SameTables(z.db, RunItems(h.trace[0], z.threads, order))
      && Replies(h.trace[0], z.threads, order)
  {
    hide Step;
    forall t | 0 <= t < |z.threads| ensures ReplyStands(h, t, z.threads[t]) {
      assert ThreadOk(z, h, t);
    }
    WeaveRuns(z.threads, h, |h.items|);
    QuiescentTables(z, h);
    forall t: nat
      ensures Times(Weave(z.threads, h, |h.items|, |z.threads|), OfThread(t)) == if t < |z.threads| then 1 else 0
    {
      OnceEach(z.threads, h, t);
    }
  }

  /** The order holds each of `n` bids exactly once, and the other events as they happened. */
  ghost predicate Complete(order: seq<Item>, acts: seq<Action>, n: nat) {
    && (forall t: nat :: Times(order, OfThread(t)) == if t < n then 1 else 0)
    && EnvOfItems(order) == EnvOfActions(acts)
  }

  /** Run one atomic handler after another, the order ends in the stored tables and gives every bid the
      reply it got. */
  ghost predicate Explains(db: Store, order: seq<Item>, z: System) {
    SameTables(z.db, RunItems(db, z.threads, order)) && Replies(db, z.threads, order)
  }

  /** The order can be cut at every moment of the execution. */
  ghost predicate InRealTime(db: Store, acts: seq<Action>, order: seq<Item>) {
    forall k :: 0 <= k <= |acts| ==> Cuttable(order, After(Start(db), acts, k), EnvOfActions(acts[..k]))
  }

  /** For any number of bids and any interleaving of their steps with each other and with the rest of the
      server: once no bid is in flight there is a sequential order of atomic handlers that explains it. */
  lemma InterleavedBidsAreAtomic(db: Store, acts: seq<Action>, z: System) returns (order: seq<Item>)
    requires Sound(db) && Disputes.Reviewed(db)
    requires Execution(Start(db), acts, z) && Quiescent(z)
    ensures Complete(order, acts, |z.threads|)
    ensures Explains(db, order, z)
    ensures InRealTime(db, acts, order)
  {
    hide Step, Inv, Execution, Follows, Sound, Disputes.Reviewed, Quiescent;
    hide Cuttable, SameTables, Weave, RunItems, Replies, Times;
    StartInv(db);
    var hs := ExecutionKeepsInv(Start(db), Fresh(db), acts, z);
    var h := hs[|acts|];
    OneMarkEach(z, h);
    order := Weave(z.threads, h, |h.items|, |z.threads|);
    OrderAgrees(z, h);
    WholeRun(Start(db), hs[0], acts, z, h);
    assert h.trace[0] == Fresh(db).trace[0];
    WeaveEnv(z.threads, h, |h.items|, |z.threads|);
    assert h.items[..|h.items|] == h.items;
    forall k | 0 <= k <= |acts|
      ensures Cuttable(order, After(Start(db), acts, k), EnvOfActions(acts[..k]))
    {
      EnvOfSplit(acts, k);
      CutAt(After(Start(db), acts, k), hs[k], z, h, EnvOfActions(acts[..k]), EnvOfActions(acts[k..]));
    }
  }

  lemma WholeRun(y: System, h0: History, acts: seq<Action>, z: System, h: History)
    requires Follows(After(y, acts, 0), h0, z, h, EnvOfActions(acts[0..])) && h0.items == []
    ensures EnvOfItems(h.items) == EnvOfActions(acts) && h0.trace <= h.trace
  {
    assert acts[0..] == acts;
  }

  // ---------- the ignored result of place_hold ----------

  /** In every reachable state a thread about to place its hold passes the authoritative check, and its
      guarded write goes through: place_hold never fails, although nobody looks at its result. */
  lemma HoldNeverFails(db: Store, acts: seq<Action>, z: System, t: nat)
    requires Sound(db) && Disputes.Reviewed(db)
    requires Execution(Start(db), acts, z) && t < |z.threads|
    ensures z.threads[t].pc in {AtHoldCheck, AtHoldRead, AtHoldWrite} ==>
      && Exists(z.db.users, z.threads[t].bidder)
      && z.threads[t].amount <= Avail(z.db.users, z.threads[t].bidder)
    ensures z.threads[t].pc == AtHoldWrite ==>
      Touch(z.db, z.threads[t]).users == Wallets.Moved(z.db.users, z.threads[t].bidder, 0, z.threads[t].amount)
    ensures z.threads[t].pc == AtRelWrite ==>
      Exists(z.db.users, z.threads[t].rec.leader) &&
      Touch(z.db, z.threads[t]).users
        == Wallets.Moved(z.db.users, z.threads[t].rec.leader, 0, -z.threads[t].rec.currentBid)
  {
    hide Step;
    var h := ReachableInv(db, acts, z);
    assert ThreadOk(z, h, t);
    if z.threads[t].pc == AtHoldWrite { HoldWrites(z, h, t); }
    if z.threads[t].pc == AtRelWrite { ReleaseWrites(z, h, t); }
  }

  /** Between its re-read and its write, a thread's copy of the auction is the stored record, even when
      other auctions share its semaphore. */
  lemma CopyIsCurrent(db: Store, acts: seq<Action>, z: System, t: nat)
    requires Sound(db) && Disputes.Reviewed(db)
    requires Execution(Start(db), acts, z) && t < |z.threads| && 4 <= Rank(z.threads[t].pc) <= 13
    ensures var th := z.threads[t];
      Exists(z.db.auctions, th.auction) && th.rec == z.db.auctions[th.auction - 1] && th.rec.status == Open
  {
    hide Step, Execution, Matches, Sound, Disputes.Reviewed;
    var h := ReachableInv(db, acts, z);
    assert ThreadOk(z, h, t);
  }

  // ---------- holds and escrow in intermediate states ----------

  /** What one thread's unfinished swap adds to a user's hold beyond the stored auctions. */
  function Transit(th: Thread, u: nat): int {
    (if 12 <= Rank(th.pc) <= 13 && th.bidder == u then th.amount else 0)
    - (if 7 <= Rank(th.pc) <= 13 && th.rec.leader == u then th.rec.currentBid else 0)
  }

  function TransitOf(u: nat): Thread -> int {
    (th: Thread) => Transit(th, u)
  }

  /** What replacing a thread's record would add to a user's escrow. */
  function Gain(th: Thread, u: nat): int {
    if Unwritten(th) then Share(Raised(th.rec, th.bidder, th.amount), u) - Share(th.rec, u) else 0
  }

  function GainOf(u: nat): Thread -> int {
    (th: Thread) => Gain(th, u)
  }

  /** The stored auctions with the pending records of the first `n` threads written. */
  function Written(auctions: seq<Auction>, threads: seq<Thread>, n: nat): (r: seq<Auction>)
    requires n <= |threads|
    ensures |r| == |auctions|
  {
    if n == 0 then auctions
    else
      var before := Written(auctions, threads, n - 1);
      var th := threads[n - 1];
      if Unwritten(th) && Exists(auctions, th.auction) then
        before[th.auction - 1 := Raised(th.rec, th.bidder, th.amount)]
      else before
  }

  /** The threads write different auctions, each starting from the stored record. */
  ghost predicate Disjoint(auctions: seq<Auction>, threads: seq<Thread>) {
    && (forall t :: 0 <= t < |threads| && Unwritten(threads[t]) ==>
          Exists(auctions, threads[t].auction) && threads[t].rec == auctions[threads[t].auction - 1])
    && (forall t, u :: 0 <= t < u < |threads| && Unwritten(threads[t]) && Unwritten(threads[u]) ==>
          threads[t].auction != threads[u].auction)
  }

  lemma {:induction false} WrittenAt(auctions: seq<Auction>, threads: seq<Thread>, n: nat, i: nat)
    requires Disjoint(auctions, threads) && n <= |threads| && i < |auctions|
    ensures (forall t :: 0 <= t < n && Unwritten(threads[t]) ==> threads[t].auction != i + 1) ==>
      Written(auctions, threads, n)[i] == auctions[i]
    ensures forall t :: 0 <= t < n && Unwritten(threads[t]) && threads[t].auction == i + 1 ==>
      Written(auctions, threads, n)[i] == Raised(threads[t].rec, threads[t].bidder, threads[t].amount)
  {
    if n > 0 {
      WrittenAt(auctions, threads, n - 1, i);
    }
  }

  lemma {:induction false} WrittenEscrow(auctions: seq<Auction>, threads: seq<Thread>, n: nat, u: nat)
    requires Disjoint(auctions, threads) && n <= |threads|
    ensures Escrowed(Written(auctions, threads, n), u) == Escrowed(auctions, u) + SumOf(threads[..n], GainOf(u))
  {
    if n > 0 {
      WrittenEscrow(auctions, threads, n - 1, u);
      var th := threads[n - 1];
      assert threads[..n] == threads[..n - 1] + [th];
      SumOfAppend(threads[..n - 1], th, GainOf(u));
      if Unwritten(th) {
        WrittenAt(auctions, threads, n - 1, th.auction - 1);
        EscrowedUpdate(Written(auctions, threads, n - 1), th.auction - 1, Raised(th.rec, th.bidder, th.amount), u);
      }
    }
  }

  lemma ThreadsDisjoint(y: System, h: History)
    requires Inv(y, h)
    ensures Disjoint(y.db.auctions, y.threads)
  {
    forall t | 0 <= t < |y.threads| && Unwritten(y.threads[t])
      ensures Exists(y.db.auctions, y.threads[t].auction) && y.threads[t].rec == y.db.auctions[y.threads[t].auction - 1]
    {
      assert ThreadOk(y, h, t);
    }
    forall t, u | 0 <= t < u < |y.threads| && Unwritten(y.threads[t]) && Unwritten(y.threads[u])
      ensures y.threads[t].auction != y.threads[u].auction
    {
      if y.threads[t].auction == y.threads[u].auction { OneInCritical(y, t, u); }
    }
  }

  lemma WrittenRecord(y: System, i: nat)
    requires Exclusive(y) && Disjoint(y.db.auctions, y.threads) && i < |y.db.auctions|
    ensures Written(y.db.auctions, y.threads, |y.threads|)[i] == Shown(y, i)
  {
    hide Written;
    WrittenAt(y.db.auctions, y.threads, |y.threads|, i);
    forall t | 0 <= t < |y.threads| && Unwritten(y.threads[t]) && y.threads[t].auction == i + 1
      ensures Holder(y, i + 1) == Some(t)
    {
      assert InCritical(y.threads[t]);
    }
  }

  lemma WrittenIsShown(y: System, h: History)
    requires Inv(y, h)
    ensures Written(y.db.auctions, y.threads, |y.threads|) == Last(h).auctions
  {
    hide Step, Written, Shown, Exclusive, Sound, Disputes.Reviewed, Disjoint, UsersMatch, BidsMatch;
    ThreadsDisjoint(y, h);
    var all := Written(y.db.auctions, y.threads, |y.threads|);
    forall i | 0 <= i < |y.db.auctions| ensures |Last(h).auctions| == |all| && all[i] == Last(h).auctions[i] {
      assert AuctionMatches(y, Last(h).auctions, i);
      WrittenRecord(y, i);
    }
  }

  lemma {:induction false} GainLessDebt(threads: seq<Thread>, u: nat)
    requires u >= 1
    requires forall t :: 0 <= t < |threads| && Unwritten(threads[t]) ==> threads[t].rec.status == Open
    ensures SumOf(threads, GainOf(u)) - Debt(threads, u) == SumOf(threads, TransitOf(u))
  {
    if threads != [] {
      GainLessDebt(threads[..|threads| - 1], u);
    }
  }

  /** In every reachable intermediate state a user's hold is the escrow of the stored auctions, less the
      bids already released by a thread that has yet to write its auction, plus the holds already placed
      by such a thread. */
  lemma HoldsInTransit(db: Store, acts: seq<Action>, z: System, u: nat)
    requires Sound(db) && Disputes.Reviewed(db)
    requires Execution(Start(db), acts, z) && Exists(z.db.users, u)
    ensures z.db.users[u - 1].wallet.hold == Escrowed(z.db.auctions, u) + SumOf(z.threads, TransitOf(u))
    ensures Solvent(z.db.users[u - 1].wallet)
  {
    hide Step;
    var h := ReachableInv(db, acts, z);
    StoredSolvent(z, h, u);
    ThreadsDisjoint(z, h);
    WrittenIsShown(z, h);
    WrittenEscrow(z.db.auctions, z.threads, |z.threads|, u);
    assert z.threads[..|z.threads|] == z.threads;
    forall t | 0 <= t < |z.threads| && Unwritten(z.threads[t]) ensures z.threads[t].rec.status == Open {
      assert ThreadOk(z, h, t);
    }
    GainLessDebt(z.threads, u);
  }
}
