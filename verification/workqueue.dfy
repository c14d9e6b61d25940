/** The circular work queue and the condition-variable protocol around it. */
module WorkQueue {
  const SIZE := 64

  // ---------- the buffer ----------

  class Queue {
    const fds: array<int>
    var front: nat
    var rear: nat
    var count: nat

    ghost predicate Valid()
      reads this
    {
      && fds.Length == SIZE && front < SIZE && count <= SIZE
      && rear == (front + count) % SIZE
    }

    /** The waiting descriptors, the oldest first. */
    ghost function Waiting(): seq<int>
      requires Valid()
      reads this, fds
    {
      seq(count, i requires 0 <= i < count reads this, fds requires Valid() => fds[(front + i) % SIZE])
    }

    constructor ()
      ensures Valid() && Waiting() == [] && fresh(fds)
    {
      fds := new int[SIZE](_ => -1);
      front, rear, count := 0, 0, 0;
    }

    /** Refuses when full; otherwise appends. */
    method Enqueue(fd: int) returns (accepted: bool)
      requires Valid()
      modifies this, fds
      ensures Valid()
      ensures accepted <==> |old(Waiting())| < 64
      ensures Waiting() == if accepted then old(Waiting()) + [fd] else old(Waiting())
    {
      if count == SIZE {
        return false;
      }
      ghost var was := Waiting();
      fds[rear] := fd;
      rear := (rear + 1) % SIZE;
      count := count + 1;
      forall i | 0 <= i < |was| ensures Waiting()[i] == was[i] {
        SlotsDiffer(front, i, |was|);
      }
      assert Waiting() == was + [fd];
      return true;
    }

    /** Takes the oldest; the caller has waited until the queue is not empty. */
    method Dequeue() returns (fd: int)
      requires Valid() && Waiting() != []
      modifies this
      ensures Valid()
      ensures old(Waiting()) == [fd] + Waiting()
    {
      ghost var was := Waiting();
      fd := fds[front];
      front := (front + 1) % SIZE;
      count := count - 1;
      forall i | 0 <= i < count ensures Waiting()[i] == was[i + 1] {
        NextSlot(old(front), i);
      }
      assert was[1..] == Waiting();
      assert was == [fd] + Waiting();
    }
  }

  /** The slot at the rear holds no waiting descriptor. */
  lemma SlotsDiffer(front: nat, i: nat, count: nat)
    requires front < SIZE && i < count < SIZE
    ensures (front + i) % SIZE != (front + count) % SIZE
  {}

  /** Behind an advanced front the same slots follow. */
  lemma NextSlot(front: nat, i: nat)
    requires front < SIZE
    ensures ((front + 1) % SIZE + i) % SIZE == (front + (i + 1)) % SIZE
  {}

  // ---------- the protocol ----------

  /** Where a worker thread is: serving a client, inside dequeue and about to take the lock, or
      blocked on the condition variable. */
  datatype Worker = Serving | Contending | Sleeping

  /** `queue` is the abstract queue; `accepted` and `taken` are the histories of both ends. */
  datatype Pool = Pool(queue: seq<int>, workers: seq<Worker>, accepted: seq<int>, taken: seq<int>)

  /** Arrive: the accept loop enqueues and signals, waking worker `wake` if anyone sleeps.
      Call: a worker that finished a client enters dequeue.
      Check: a contending worker gets the lock and tests the count.
      Spurious: a sleeper wakes without a signal. */
  datatype Move = Arrive(fd: int, wake: nat) | Call(w: nat) | Check(w: nat) | Spurious(w: nat)

  predicate Allowed(p: Pool, m: Move) {
    match m
    case Arrive(_, wake) =>
      |p.queue| != SIZE && Sleeping in p.workers ==> wake < |p.workers| && p.workers[wake] == Sleeping
    case Call(w) => w < |p.workers| && p.workers[w] == Serving
    case Check(w) => w < |p.workers| && p.workers[w] == Contending
    case Spurious(w) => w < |p.workers| && p.workers[w] == Sleeping
  }

  function Next(p: Pool, m: Move): Pool
    requires Allowed(p, m)
  {
    match m
    case Arrive(fd, wake) =>
      if |p.queue| == SIZE then p
      else
        var woken := if Sleeping in p.workers then p.workers[wake := Contending] else p.workers;
        p.(queue := p.queue + [fd], accepted := p.accepted + [fd], workers := woken)
    case Call(w) => p.(workers := p.workers[w := Contending])
    case Check(w) =>
      if p.queue == [] then p.(workers := p.workers[w := Sleeping])
      else p.(queue := p.queue[1..], taken := p.taken + [p.queue[0]], workers := p.workers[w := Serving])
    case Spurious(w) => p.(workers := p.workers[w := Contending])
  }

  function Awake(workers: seq<Worker>): nat {
    if workers == [] then 0
    else Awake(workers[..|workers| - 1]) + if workers[|workers| - 1] == Contending then 1 else 0
  }

  lemma {:induction false} AwakeUpdate(workers: seq<Worker>, w: nat, to: Worker)
    requires w < |workers|
    ensures Awake(workers[w := to]) == Awake(workers)
      - (if workers[w] == Contending then 1 else 0) + (if to == Contending then 1 else 0)
  {
    var n := |workers| - 1;
    if w == n {
      assert workers[w := to][..n] == workers[..n];
    } else {
      assert workers[w := to][..n] == workers[..n][w := to];
      AwakeUpdate(workers[..n], w, to);
    }
  }

  /** If anyone sleeps, the workers awake inside dequeue cover the queue; and what was accepted is
      what was taken followed by what waits. */
  ghost predicate Sane(p: Pool) {
    && |p.queue| <= SIZE
    && (Sleeping in p.workers ==> Awake(p.workers) >= |p.queue|)
    && p.accepted == p.taken + p.queue
  }

  lemma StepSane(p: Pool, m: Move)
    requires Sane(p) && Allowed(p, m)
    ensures Sane(Next(p, m))
  {
    var q := Next(p, m);
    match m
    case Arrive(fd, wake) =>
      if |p.queue| != SIZE && Sleeping in p.workers {
        AwakeUpdate(p.workers, wake, Contending);
      }
    case Call(w) =>
      AwakeUpdate(p.workers, w, Contending);
      assert Sleeping in q.workers ==> Sleeping in p.workers;
    case Check(w) =>
      if p.queue == [] {
        AwakeUpdate(p.workers, w, Sleeping);
      } else {
        AwakeUpdate(p.workers, w, Serving);
        assert Sleeping in q.workers ==> Sleeping in p.workers;
        assert p.queue == [p.queue[0]] + p.queue[1..];
      }
    case Spurious(w) =>
      AwakeUpdate(p.workers, w, Contending);
  }

  /** A new connection is queued, last, exactly when fewer than 64 wait; otherwise it is dropped. */
  lemma ArriveQueuesIff(p: Pool, fd: int, wake: nat)
    requires Sane(p) && Allowed(p, Arrive(fd, wake))
    ensures |p.queue| <= 64
    ensures Next(p, Arrive(fd, wake)).queue == if |p.queue| < 64 then p.queue + [fd] else p.queue
    ensures Next(p, Arrive(fd, wake)).accepted == if |p.queue| < 64 then p.accepted + [fd] else p.accepted
  {}

  predicate Run(p: Pool, ms: seq<Move>, q: Pool)
    decreases |ms|
  {
    if ms == [] then q == p else Allowed(p, ms[0]) && Run(Next(p, ms[0]), ms[1..], q)
  }

  lemma {:induction false} RunSane(p: Pool, ms: seq<Move>, q: Pool)
    requires Sane(p) && Run(p, ms, q)
    ensures Sane(q)
    decreases |ms|
  {
    if ms != [] {
      StepSane(p, ms[0]);
      RunSane(Next(p, ms[0]), ms[1..], q);
    }
  }

  /** Over every interleaving, spurious wake-ups included: descriptors leave once and in order, and a
      job never waits while everyone who could take it sleeps. */
  lemma NoJobStranded(workers: seq<Worker>, ms: seq<Move>, q: Pool)
    requires forall i :: 0 <= i < |workers| ==> workers[i] == Contending
    requires Run(Pool([], workers, [], []), ms, q)
    ensures q.taken <= q.accepted && q.accepted == q.taken + q.queue && |q.queue| <= SIZE
    ensures Sleeping in q.workers ==> Awake(q.workers) >= |q.queue|
    ensures q.queue != [] && Sleeping in q.workers ==> exists w :: Allowed(q, Check(w))
  {
    RunSane(Pool([], workers, [], []), ms, q);
    if q.queue != [] && Sleeping in q.workers {
      var w := SomeoneAwake(q.workers);
      assert Allowed(q, Check(w));
    }
  }

  lemma {:induction false} SomeoneAwake(workers: seq<Worker>) returns (w: nat)
    requires Awake(workers) > 0
    ensures w < |workers| && workers[w] == Contending
  {
    var n := |workers| - 1;
    if workers[n] == Contending {
      w := n;
    } else {
      w := SomeoneAwake(workers[..n]);
    }
  }
}
