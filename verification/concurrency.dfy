/**
 * The bounded job queue of src/concurrency.py. Every lock-protected block of
 * `JobQueue` is one atomic transition on an immutable `Pool`; handing a job
 * to the thread pool is an observable "started" event instead of a call.
 */
module JobQueue {
  import opened Wrappers
  import opened Seqs

  type JobId = string

  /** MAX_QUEUE_DEPTH: the most jobs that may wait in one pool's overflow queue. */
  const MaxQueueDepth: nat := 50

  /** One pool: jobs handed to workers, the pool's size, and the overflow FIFO, oldest first. */
  datatype Pool = Pool(active: nat, maxWorkers: nat, queue: seq<JobId>)

  /** What `submit` answers: run now, queued at a 1-based position, or turned away. */
  datatype SubmitStatus = Running | Queued(position: nat) | Rejected

  /** A fresh pool: nothing running, nothing queued. */
  function Empty(maxWorkers: nat): Pool {
    Pool(0, maxWorkers, [])
  }

  /**
   * Utilisation below 0.8, stated over integers (active/max < 4/5); a pool
   * with no workers counts as utilisation 1.0 and never runs a job.
   */
  predicate BelowThreshold(p: Pool) {
    p.maxWorkers != 0 && 5 * p.active < 4 * p.maxWorkers
  }

  /** The `utilization` property: active/max, or 0.0 for a pool with no workers. */
  function Utilization(p: Pool): real {
    if p.maxWorkers == 0 then 0.0 else p.active as real / p.maxWorkers as real
  }

  /** `submit`: run at once below the threshold, else queue while there is room, else reject. */
  function Submit(p: Pool, id: JobId): (r: (Pool, SubmitStatus))
    ensures r.1 == Running <==> BelowThreshold(p)
    ensures r.1 == Running ==> r.0 == p.(active := p.active + 1)
    ensures r.1.Queued? <==> !BelowThreshold(p) && |p.queue| < MaxQueueDepth
    ensures r.1.Queued? ==> r.0.active == p.active && r.0.maxWorkers == p.maxWorkers
    ensures r.1.Queued? ==> r.1.position == |r.0.queue| && id in r.0.queue
    ensures r.1.Queued? && id !in p.queue ==> r.0.queue == p.queue + [id]
    ensures r.1.Queued? && id in p.queue ==> r.0.queue == p.queue
    ensures r.1 == Rejected ==> r.0 == p
  {
    if BelowThreshold(p) then
      (p.(active := p.active + 1), Running)
    else if |p.queue| < MaxQueueDepth then
      // The queue is keyed by job id: re-submitting a queued id replaces its
      // task in place and keeps its position.
      var q := if id in p.queue then p.queue else p.queue + [id];
      (p.(queue := q), Queued(|q|))
    else
      (p, Rejected)
  }

  /**
   * `_on_complete`, run from the `finally` of every dispatched job: one
   * worker frees up, and the oldest queued job, if any, takes it over.
   * Only a dispatched job completes, so some job is active.
   */
  function Complete(p: Pool): (r: (Pool, Option<JobId>))
    requires p.active > 0
    ensures |p.queue| == 0 ==> r.1 == None && r.0 == p.(active := p.active - 1)
    ensures |p.queue| > 0 ==> r.1 == Some(p.queue[0]) && r.0 == p.(queue := p.queue[1..])
  {
    if |p.queue| == 0 then (p.(active := p.active - 1), None)
    else (p.(queue := p.queue[1..]), Some(p.queue[0]))
  }

  /** `get_position`: the 1-based place of `id` in the queue, or None if it is not queued. */
  function Position(q: seq<JobId>, id: JobId): (r: Option<nat>)
    ensures r.None? <==> id !in q
    ensures r.Some? ==> 1 <= r.value <= |q| && q[r.value - 1] == id && id !in q[..r.value - 1]
  {
    if |q| == 0 then None
    else if q[0] == id then Some(1)
    else
      match Position(q[1..], id)
      case None => None
      case Some(k) =>
        assert q[1..][..k - 1] == q[1..k];
        assert q[..k] == [q[0]] + q[1..k];
        Some(k + 1)
  }

  /** `cancel`: drop a queued job; running jobs cannot be cancelled. */
  function Cancel(p: Pool, id: JobId): (r: (Pool, bool))
    ensures r.1 <==> id in p.queue
    ensures r.0.active == p.active && r.0.maxWorkers == p.maxWorkers
    ensures !r.1 ==> r.0 == p
  {
    if id in p.queue then (p.(queue := RemoveFirst(p.queue, id)), true) else (p, false)
  }

  /**
   * What holds of every reachable pool: no more jobs run than there are
   * workers, the queue is bounded and duplicate-free, and a non-empty queue
   * means utilisation is at or above the threshold.
   */
  predicate Inv(p: Pool) {
    && p.active <= p.maxWorkers
    && |p.queue| <= MaxQueueDepth
    && Distinct(p.queue)
    && (|p.queue| > 0 ==> !BelowThreshold(p))
  }

  /** The integer threshold is the source's floating comparison `active / max_workers < 0.8`. */
  lemma ThresholdIsUtilization(p: Pool)
    ensures p.maxWorkers > 0 ==> (BelowThreshold(p) <==> Utilization(p) < 0.8)
    ensures p.maxWorkers == 0 ==> !BelowThreshold(p) && Utilization(p) == 0.0
  {
    if p.maxWorkers > 0 {
      var a, m, u := p.active as real, p.maxWorkers as real, Utilization(p);
      assert a == u * m;
      if 5 * p.active < 4 * p.maxWorkers {
        assert (0.8 - u) * m == 0.8 * m - a;
        assert 0.8 * m - a > 0.0;
        ProductSign(0.8 - u, m);
      } else {
        assert (u - 0.8) * m == a - 0.8 * m;
        assert a - 0.8 * m >= 0.0;
        ProductSign(u - 0.8, m);
      }
    }
  }

  lemma ProductSign(x: real, m: real)
    requires m > 0.0
    ensures x * m > 0.0 ==> x > 0.0
    ensures x * m >= 0.0 ==> x >= 0.0
  {
    if x < 0.0 {
      assert x * m < 0.0;
    }
  }

  /** Each transition keeps the pool invariant. */
  lemma SubmitKeepsInv(p: Pool, id: JobId)
    requires Inv(p)
    ensures Inv(Submit(p, id).0)
  {
    var r := Submit(p, id);
    if r.1.Queued? && id !in p.queue {
      var q := r.0.queue;
      assert forall i :: 0 <= i < |p.queue| ==> q[i] == p.queue[i];
    }
  }

  lemma CompleteKeepsInv(p: Pool)
    requires Inv(p) && p.active > 0
    ensures Inv(Complete(p).0)
  {
  }

  lemma CancelKeepsInv(p: Pool, id: JobId)
    requires Inv(p)
    ensures Inv(Cancel(p, id).0)
  {
    RemoveFirstSpec(p.queue, id);
  }

  /**
   * No overtaking: while anyone waits in the queue a newly submitted job is
   * never started ahead of them, and a completion hands the freed worker
   * to the oldest waiting job.
   */
  lemma QueuedJobsGoFirst(p: Pool, id: JobId)
    requires Inv(p) && |p.queue| > 0
    ensures Submit(p, id).1 != Running
    ensures p.active > 0 ==> Complete(p).1 == Some(p.queue[0])
  {
  }

  /** Submitting a new id answers the position that `get_position` then reports. */
  lemma SubmitPositionAgrees(p: Pool, id: JobId)
    requires id !in p.queue
    ensures Submit(p, id).1.Queued? ==> Position(Submit(p, id).0.queue, id) == Some(Submit(p, id).1.position)
  {
    var r := Submit(p, id);
    if r.1.Queued? {
      var q := r.0.queue;
      assert q[..|q| - 1] == p.queue;
      PositionUnique(q, id, |q| - 1);
    }
  }

  lemma PositionUnique(q: seq<JobId>, id: JobId, i: nat)
    requires i < |q| && q[i] == id && id !in q[..i]
    ensures Position(q, id) == Some(i + 1)
  {
  }

  /**
   * `cancel` shifts every job behind the cancelled one forward by one place
   * and leaves the jobs ahead of it where they were.
   */
  lemma {:induction false} CancelShiftsPositions(q: seq<JobId>, id: JobId, x: JobId)
    requires id in q && x != id
    ensures Position(RemoveFirst(q, id), x) ==
      match Position(q, x)
      case None => None
      case Some(k) => if k > Position(q, id).value then Some(k - 1) else Some(k)
  {
    if q[0] != id {
      if q[0] == x {
      } else {
        CancelShiftsPositions(q[1..], id, x);
      }
    }
  }

  /** The events a pool sees: a submission, the completion of some running job, a cancellation. */
  datatype Event = Submitted(id: JobId) | Completed | Cancelled(id: JobId)

  /** What the caller or the pool observes in each step. */
  datatype Note = Started(id: JobId) | Enqueued(id: JobId) | Replaced(id: JobId)
                | Turned(id: JobId) | Dispatched(id: JobId) | Idle | Removed(id: JobId) | Missed(id: JobId)

  /** One event as one atomic step; a completion with nothing running cannot happen. */
  function Step(p: Pool, e: Event): (r: Option<(Pool, Note)>)
    ensures r.None? <==> e.Completed? && p.active == 0
  {
    match e
    case Submitted(id) =>
      var (p', s) := Submit(p, id);
      Some((p', if s.Running? then Started(id)
                else if s.Rejected? then Turned(id)
                else if id in p.queue then Replaced(id)
                else Enqueued(id)))
    case Completed =>
      if p.active == 0 then None
      else
        var (p', d) := Complete(p);
        Some((p', if d.Some? then Dispatched(d.value) else Idle))
    case Cancelled(id) =>
      var (p', ok) := Cancel(p, id);
      Some((p', if ok then Removed(id) else Missed(id)))
  }

  /** A sequence of events from `p`: the final pool and the notes, or None if a completion had nothing to complete. */
  function Run(p: Pool, es: seq<Event>): Option<(Pool, seq<Note>)>
    decreases |es|
  {
    if |es| == 0 then Some((p, []))
    else
      var s := Step(p, es[0]);
      if s.None? then None
      else
        var rest := Run(s.value.0, es[1..]);
        if rest.None? then None else Some((rest.value.0, [s.value.1] + rest.value.1))
  }

  /** Over any interleaving of submissions, completions and cancellations the invariant holds; in particular active <= max_workers. */
  lemma {:induction false} RunKeepsInv(p: Pool, es: seq<Event>)
    requires Inv(p)
    ensures Run(p, es).Some? ==> Inv(Run(p, es).value.0) && Run(p, es).value.0.active <= p.maxWorkers
    ensures Run(p, es).Some? ==> Run(p, es).value.0.maxWorkers == p.maxWorkers
    decreases |es|
  {
    if |es| > 0 && Step(p, es[0]).Some? {
      var p' := Step(p, es[0]).value.0;
      match es[0] {
        case Submitted(id) => SubmitKeepsInv(p, id);
        case Completed => CompleteKeepsInv(p);
        case Cancelled(id) => CancelKeepsInv(p, id);
      }
      RunKeepsInv(p', es[1..]);
    }
  }

  /** The job a note shows joining the back of the queue, if any. */
  function Joined(n: Note): seq<JobId> {
    if n.Enqueued? then [n.id] else []
  }

  /** The job a note shows leaving the front of the queue for a worker, if any. */
  function Left(n: Note): seq<JobId> {
    if n.Dispatched? then [n.id] else []
  }

  function EnqueuedIds(ns: seq<Note>): seq<JobId> {
    if |ns| == 0 then [] else Joined(ns[0]) + EnqueuedIds(ns[1..])
  }

  function DispatchedIds(ns: seq<Note>): seq<JobId> {
    if |ns| == 0 then [] else Left(ns[0]) + DispatchedIds(ns[1..])
  }

  predicate NoCancel(es: seq<Event>) {
    forall i :: 0 <= i < |es| ==> !es[i].Cancelled?
  }

  /** A submission only appends at the back, a completion only takes from the front. */
  lemma StepIsFifo(p: Pool, e: Event)
    requires !e.Cancelled? && Step(p, e).Some?
    ensures var (p', n) := Step(p, e).value;
            p.queue + Joined(n) == Left(n) + p'.queue
  {
  }

  /**
   * FIFO: without cancellations, the jobs handed over from the queue are
   * exactly the oldest of those that were waiting or were enqueued, in
   * enqueue order, and the rest are still waiting in that order.
   */
  lemma {:induction false} DispatchIsFifo(p: Pool, es: seq<Event>)
    requires NoCancel(es)
    ensures Run(p, es).Some? ==>
      p.queue + EnqueuedIds(Run(p, es).value.1) == DispatchedIds(Run(p, es).value.1) + Run(p, es).value.0.queue
    decreases |es|
  {
    if |es| > 0 && Run(p, es).Some? {
      var p', n := Step(p, es[0]).value.0, Step(p, es[0]).value.1;
      var pf, ns := Run(p', es[1..]).value.0, Run(p', es[1..]).value.1;
      assert NoCancel(es[1..]) by {
        forall i | 0 <= i < |es[1..]| ensures !es[1..][i].Cancelled? {
          assert es[1..][i] == es[i + 1];
        }
      }
      DispatchIsFifo(p', es[1..]);
      StepIsFifo(p, es[0]);
      assert Run(p, es).value == (pf, [n] + ns);
      FifoCompose(p.queue, p'.queue, pf.queue, n, ns);
    }
  }

  /** One FIFO step followed by a FIFO run is a FIFO run. */
  lemma FifoCompose(q: seq<JobId>, q': seq<JobId>, qf: seq<JobId>, n: Note, ns: seq<Note>)
    requires q + Joined(n) == Left(n) + q'
    requires q' + EnqueuedIds(ns) == DispatchedIds(ns) + qf
    ensures q + EnqueuedIds([n] + ns) == DispatchedIds([n] + ns) + qf
  {
    assert ([n] + ns)[1..] == ns;
    assert EnqueuedIds([n] + ns) == Joined(n) + EnqueuedIds(ns);
    assert DispatchedIds([n] + ns) == Left(n) + DispatchedIds(ns);
    ChainQueues(q, Joined(n), Left(n), q', EnqueuedIds(ns), DispatchedIds(ns), qf);
  }

  /** Two queue steps, each appending at the back and taking from the front, chain into one. */
  lemma ChainQueues<T>(q: seq<T>, a: seq<T>, l: seq<T>, q': seq<T>, b: seq<T>, d: seq<T>, qf: seq<T>)
    requires q + a == l + q' && q' + b == d + qf
    ensures q + (a + b) == (l + d) + qf
  {
    calc {
      q + (a + b);
      (q + a) + b;
      l + (q' + b);
      l + (d + qf);
    }
  }

  /** Scenario: two workers, five submissions; two run, three wait at positions 1, 2, 3, and the first completion starts the third job. */
  lemma TwoWorkersFiveJobs()
    ensures var s1 := Submit(Empty(2), "j1");
            var s2 := Submit(s1.0, "j2");
            var s3 := Submit(s2.0, "j3");
            var s4 := Submit(s3.0, "j4");
            var s5 := Submit(s4.0, "j5");
            && s1.1 == Running && s2.1 == Running
            && s3.1 == Queued(1) && s4.1 == Queued(2) && s5.1 == Queued(3)
            && Complete(s5.0).1 == Some("j3")
            && Complete(s5.0).0.active == 2
  {
  }
}

/**
 * The per-IP concurrency limits of src/concurrency.py: a shared table of
 * counters per IP and an `IPLimitContext` that remembers whether it holds
 * a slot, so that releasing twice has no effect.
 */
module IpLimit {
  import opened Wrappers

  /** MAX_SSE_PER_IP and MAX_INGEST_PER_IP. */
  const MaxSsePerIp: int := 3
  const MaxIngestPerIp: int := 2

  /** The shared `ip -> count` table; an IP with no entry holds nothing. */
  type Counts = map<string, int>

  /** `IPLimitContext`: the IP it counts against, the cap, and whether it holds a slot. */
  datatype Slot = Slot(ip: string, max: int, acquired: bool)

  function Count(c: Counts, ip: string): int {
    if ip in c then c[ip] else 0
  }

  /** `try_acquire`: take a slot iff the IP is below the cap. */
  function TryAcquire(c: Counts, s: Slot): (r: (Counts, Slot, bool))
    ensures r.2 <==> Count(c, s.ip) < s.max
    ensures r.2 ==> r.0 == c[s.ip := Count(c, s.ip) + 1] && r.1 == s.(acquired := true)
    ensures !r.2 ==> r.0 == c && r.1 == s
  {
    var current := Count(c, s.ip);
    if current >= s.max then (c, s, false)
    else (c[s.ip := current + 1], s.(acquired := true), true)
  }

  /** `release`: give the slot back if held; the entry goes once it would reach zero. */
  function Release(c: Counts, s: Slot): (r: (Counts, Slot))
    ensures !r.1.acquired
    ensures !s.acquired ==> r.0 == c
    ensures s.acquired && s.ip in c && c[s.ip] > 1 ==> r.0 == c[s.ip := c[s.ip] - 1]
    ensures s.acquired && (s.ip !in c || c[s.ip] <= 1) ==> r.0 == c - {s.ip}
  {
    if !s.acquired then (c, s)
    else
      var current := if s.ip in c then c[s.ip] else 1;
      if current <= 1 then (c - {s.ip}, s.(acquired := false))
      else (c[s.ip := current - 1], s.(acquired := false))
  }

  /** `acquire_sse` / `acquire_ingest`: a held context, or None when the IP is at its cap. */
  function Acquire(c: Counts, ip: string, max: int): (r: (Counts, Option<Slot>))
    ensures r.1.Some? <==> Count(c, ip) < max
    ensures r.1.Some? ==> r.1.value == Slot(ip, max, true) && Count(r.0, ip) == Count(c, ip) + 1
    ensures r.1.None? ==> r.0 == c
  {
    var (c', s, ok) := TryAcquire(c, Slot(ip, max, false));
    if ok then (c', Some(s)) else (c', None)
  }

  function AcquireSse(c: Counts, ip: string): (Counts, Option<Slot>) {
    Acquire(c, ip, MaxSsePerIp)
  }

  function AcquireIngest(c: Counts, ip: string): (Counts, Option<Slot>) {
    Acquire(c, ip, MaxIngestPerIp)
  }

  /** Every stored counter lies between 1 and the cap. */
  predicate Valid(c: Counts, max: int) {
    forall ip :: ip in c ==> 1 <= c[ip] <= max
  }

  /** Acquiring and releasing keep every counter within [1, cap]: the count never exceeds the cap. */
  lemma AcquireReleaseKeepValid(c: Counts, s: Slot)
    requires Valid(c, s.max)
    ensures Valid(TryAcquire(c, s).0, s.max)
    ensures Valid(Release(c, s).0, s.max)
  {
  }

  /** Releasing the slot just acquired restores the table exactly, entry deletion included. */
  lemma ReleaseUndoesAcquire(c: Counts, ip: string, max: int)
    requires Valid(c, max)
    ensures var (c1, s) := Acquire(c, ip, max);
            s.Some? ==> Release(c1, s.value).0 == c
  {
    var (c1, s) := Acquire(c, ip, max);
    if s.Some? && ip !in c {
      assert c1 - {ip} == c;
    }
  }

  /** A second `release` of the same context changes nothing. */
  lemma ReleaseIsIdempotent(c: Counts, s: Slot)
    ensures var (c1, s1) := Release(c, s);
            Release(c1, s1) == (c1, s1)
  {
  }

  /** Scenario, cap 2 for one IP: acquire, acquire, refused; after one release the next acquire succeeds. */
  lemma IngestCapScenario(ip: string)
    ensures var (c1, a1) := AcquireIngest(map[], ip);
            var (c2, a2) := AcquireIngest(c1, ip);
            var (c3, a3) := AcquireIngest(c2, ip);
            && a1.Some? && a2.Some? && a3.None?
            && AcquireIngest(Release(c3, a1.value).0, ip).1.Some?
  {
  }
}
