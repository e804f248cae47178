/**
 * The admission path of `add_repo` (src/routes/repo.py): rate limit, URL
 * admission, the ready-cache short cut, the per-IP ingest slot, the token
 * charge, the job row, the placeholder repo entry and the submission to the
 * ingest queue, and the `finally` of the submitted task that gives the slot
 * back. The server state is the product of the tables the handler touches.
 */
module Admission {
  import opened Wrappers
  import RepoUrl
  import IpLimit
  import Accounts
  import JobStatus
  import JobQueue
  import TtlStore

  /** `TOKEN_COSTS["ingest"]` */
  const IngestCost: int := 1

  /** A `state.repos` value; only its status and message are modelled. */
  datatype Entry = Entry(status: string, message: string)

  /**
   * Everything `add_repo` reads or writes. `holders` maps each submitted
   * ingest job to the per-IP slot its task releases when it finishes.
   */
  datatype Server = Server(
    counts: IpLimit.Counts,
    users: Accounts.Users,
    ledger: seq<Accounts.Txn>,
    jobs: JobStatus.Jobs,
    repos: TtlStore.Store<Entry>,
    pool: JobQueue.Pool,
    holders: map<string, IpLimit.Slot>)

  /** The request as the handler sees it: the rate limiter's verdict, the body's "url", the client IP and the signed-in user. */
  datatype Request = Request(rateLimited: bool, raw: string, ip: string, user: Option<int>)

  /** The JSON answers: an error status, a cache hit, or a new job with its cost and queue position. */
  datatype Response =
    | Refused(code: int)
    | CacheHit(repoId: string)
    | Accepted(repoId: string, tokenCost: int, queuePosition: Option<nat>)

  /** The job ids whose tasks hold a slot of `ip`. */
  function HoldersOf(h: map<string, IpLimit.Slot>, ip: string): set<string> {
    set id | id in h && h[id].ip == ip
  }

  /**
   * Slot accounting: every counter is within the ingest cap, every holder
   * holds an ingest slot, and each IP's counter is the number of tasks
   * holding one of its slots.
   */
  ghost predicate SlotsAgree(c: IpLimit.Counts, h: map<string, IpLimit.Slot>) {
    && IpLimit.Valid(c, IpLimit.MaxIngestPerIp)
    && (forall id :: id in h ==> h[id].acquired && h[id].max == IpLimit.MaxIngestPerIp)
    && (forall ip :: IpLimit.Count(c, ip) == |HoldersOf(h, ip)|)
  }

  ghost predicate Inv(s: Server) {
    SlotsAgree(s.counts, s.holders)
  }

  /**
   * From the per-IP slot on: refuse with 429 when the IP is at its cap,
   * release and refuse with 402 when a signed-in user cannot pay, otherwise
   * charge, create the job row and the placeholder entry and submit; a
   * rejected submit releases the slot and answers 503.
   */
  function StartIngest(s: Server, ip: string, user: Option<int>, newId: string, now: int): (r: (Server, Response))
    ensures r.1.Refused? ==> r.1.code == 429 || r.1.code == 402 || r.1.code == 503
    ensures !r.1.CacheHit?
  {
    var acq := IpLimit.AcquireIngest(s.counts, ip);
    if acq.1.None? then (s, Refused(429))
    else
      var slot := acq.1.value;
      if user.Some? && Accounts.GetTokenBalance(s.users, user.value) < IngestCost then
        (s.(counts := IpLimit.Release(acq.0, slot).0), Refused(402))
      else
        var spent := if user.Some? then Accounts.SpendTokens(s.users, s.ledger, user.value, IngestCost, "Ingest repo")
                     else (s.users, s.ledger, true);
        var jobs := JobStatus.CreateJob(s.jobs, newId, "ingest", Some(newId), "queued", "Starting...", now);
        var repos := TtlStore.Set(s.repos, newId, Entry("queued", "Starting..."), None, now);
        var sub := JobQueue.Submit(s.pool, newId);
        var s1 := s.(users := spent.0, ledger := spent.1, jobs := jobs, repos := repos, pool := sub.0);
        match sub.1
        case Rejected => (s1.(counts := IpLimit.Release(acq.0, slot).0), Refused(503))
        case Running => (s1.(counts := acq.0, holders := s.holders[newId := slot]), Accepted(newId, IngestCost, None))
        case Queued(pos) => (s1.(counts := acq.0, holders := s.holders[newId := slot]), Accepted(newId, IngestCost, Some(pos)))
  }

  /**
   * `add_repo`. `readyCache` maps a normalised URL to the id of a cached
   * repo whose status is "ready"; `newId` is the fresh job id.
   */
  function AddRepo(s: Server, req: Request, readyCache: map<string, string>, newId: string, now: int): (r: (Server, Response))
    ensures r.1.Refused? ==> r.1.code in {400, 402, 429, 503}
  {
    if req.rateLimited then (s, Refused(429))
    else match RepoUrl.Admit(req.raw)
      case Failure(code) => (s, Refused(code))
      case Success(url) =>
        if url in readyCache then (s, CacheHit(readyCache[url]))
        else StartIngest(s, req.ip, req.user, newId, now)
  }

  /**
   * The end of a submitted ingest task: the `finally` of its wrapper releases
   * its slot, then the queue's completion hook frees the worker.
   */
  function FinishIngest(s: Server, id: string): (r: Server)
    requires s.pool.active > 0
    ensures id !in r.holders && r.holders == s.holders - {id}
    ensures id !in s.holders ==> r.counts == s.counts
    ensures r.pool == JobQueue.Complete(s.pool).0
  {
    var counts := if id in s.holders then IpLimit.Release(s.counts, s.holders[id]).0 else s.counts;
    s.(counts := counts, holders := s.holders - {id}, pool := JobQueue.Complete(s.pool).0)
  }

  // ---------------------------------------------------------------------
  // Slot accounting
  // ---------------------------------------------------------------------

  lemma HoldersAdd(h: map<string, IpLimit.Slot>, id: string, slot: IpLimit.Slot, ip: string)
    requires id !in h
    ensures HoldersOf(h[id := slot], ip) == if slot.ip == ip then HoldersOf(h, ip) + {id} else HoldersOf(h, ip)
  {
  }

  lemma HoldersRemove(h: map<string, IpLimit.Slot>, id: string, ip: string)
    ensures HoldersOf(h - {id}, ip) == HoldersOf(h, ip) - {id}
  {
  }

  /** A refusal at the slot or at the balance check leaves the server exactly as it was. */
  lemma SlotRefusalsChangeNothing(s: Server, ip: string, user: Option<int>, newId: string, now: int)
    requires Inv(s)
    ensures var r := StartIngest(s, ip, user, newId, now);
      r.1 == Refused(429) || r.1 == Refused(402) ==> r.0 == s
    ensures StartIngest(s, ip, user, newId, now).1 == Refused(429) <==> IpLimit.Count(s.counts, ip) >= IpLimit.MaxIngestPerIp
  {
    IpLimit.ReleaseUndoesAcquire(s.counts, ip, IpLimit.MaxIngestPerIp);
  }

  /** A rejected submit gives the slot back: counts and holders are as before, though the charge, job row and entry stay. */
  lemma RejectedSubmitReleases(s: Server, ip: string, user: Option<int>, newId: string, now: int)
    requires Inv(s)
    ensures var r := StartIngest(s, ip, user, newId, now);
      r.1 == Refused(503) ==>
        && r.0.counts == s.counts && r.0.holders == s.holders && r.0.pool == s.pool
        && newId in r.0.jobs && r.0.jobs[newId].status == "queued"
  {
    IpLimit.ReleaseUndoesAcquire(s.counts, ip, IpLimit.MaxIngestPerIp);
  }

  /**
   * An accepted ingest holds one more slot of its IP, recorded against its
   * job; a signed-in user pays exactly the ingest cost, with one ledger row;
   * and a queue position is reported exactly when the job was queued.
   */
  lemma AcceptedHoldsSlot(s: Server, ip: string, user: Option<int>, newId: string, now: int)
    ensures var r := StartIngest(s, ip, user, newId, now);
      r.1.Accepted? ==>
        && r.1.repoId == newId && r.1.tokenCost == IngestCost
        && r.0.holders == s.holders[newId := IpLimit.Slot(ip, IpLimit.MaxIngestPerIp, true)]
        && IpLimit.Count(r.0.counts, ip) == IpLimit.Count(s.counts, ip) + 1
        && (user.Some? ==> Accounts.GetTokenBalance(r.0.users, user.value) == Accounts.GetTokenBalance(s.users, user.value) - IngestCost)
        && (user.Some? ==> r.0.ledger == s.ledger + [Accounts.Txn(user.value, -IngestCost, "spend", "Ingest repo")])
        && (user.None? ==> r.0.users == s.users && r.0.ledger == s.ledger)
        && (r.1.queuePosition.Some? <==> !JobQueue.BelowThreshold(s.pool))
  {
  }

  /** Taking a fresh ingest slot for a new job keeps the accounting. */
  lemma AcquireKeepsAgree(c: IpLimit.Counts, h: map<string, IpLimit.Slot>, ip: string, newId: string)
    requires SlotsAgree(c, h) && newId !in h
    ensures var acq := IpLimit.AcquireIngest(c, ip);
      acq.1.Some? ==> SlotsAgree(acq.0, h[newId := acq.1.value])
  {
    var acq := IpLimit.AcquireIngest(c, ip);
    if acq.1.Some? {
      var slot := acq.1.value;
      IpLimit.AcquireReleaseKeepValid(c, IpLimit.Slot(ip, IpLimit.MaxIngestPerIp, false));
      forall ip2 ensures IpLimit.Count(acq.0, ip2) == |HoldersOf(h[newId := slot], ip2)| {
        HoldersAdd(h, newId, slot, ip2);
      }
    }
  }

  /** Admission keeps the slot accounting, provided the new job id is fresh. */
  lemma StartIngestKeepsInv(s: Server, ip: string, user: Option<int>, newId: string, now: int)
    requires Inv(s) && newId !in s.holders
    ensures Inv(StartIngest(s, ip, user, newId, now).0)
  {
    var r := StartIngest(s, ip, user, newId, now);
    var acq := IpLimit.AcquireIngest(s.counts, ip);
    if r.1.Accepted? {
      AcquireKeepsAgree(s.counts, s.holders, ip, newId);
      assert r.0.counts == acq.0 && r.0.holders == s.holders[newId := acq.1.value];
    } else {
      IpLimit.ReleaseUndoesAcquire(s.counts, ip, IpLimit.MaxIngestPerIp);
      assert r.0.counts == s.counts && r.0.holders == s.holders;
    }
  }

  lemma AddRepoKeepsInv(s: Server, req: Request, readyCache: map<string, string>, newId: string, now: int)
    requires Inv(s) && newId !in s.holders
    ensures Inv(AddRepo(s, req, readyCache, newId, now).0)
  {
    AddRepoStartsOrStays(s, req, readyCache, newId, now);
    StartIngestKeepsInv(s, req.ip, req.user, newId, now);
  }

  /** The handler either leaves the server alone or runs the admission from the slot on. */
  lemma AddRepoStartsOrStays(s: Server, req: Request, readyCache: map<string, string>, newId: string, now: int)
    ensures var r := AddRepo(s, req, readyCache, newId, now);
      r.0 == s || r == StartIngest(s, req.ip, req.user, newId, now)
  {
  }

  /** Every answer but an accepted job leaves the slot table and the holders as they were. */
  lemma OnlyAcceptedHoldsSlots(s: Server, req: Request, readyCache: map<string, string>, newId: string, now: int)
    requires Inv(s)
    ensures var r := AddRepo(s, req, readyCache, newId, now);
      !r.1.Accepted? ==> r.0.counts == s.counts && r.0.holders == s.holders
  {
    SlotRefusalsChangeNothing(s, req.ip, req.user, newId, now);
    RejectedSubmitReleases(s, req.ip, req.user, newId, now);
  }

  /** A cache hit costs nothing and changes nothing. */
  lemma CacheHitIsFree(s: Server, req: Request, readyCache: map<string, string>, newId: string, now: int)
    ensures var r := AddRepo(s, req, readyCache, newId, now);
      r.1.CacheHit? ==> r.0 == s && r.1.repoId in readyCache.Values
  {
  }

  /** Finishing a task releases its slot once: its IP's counter drops by one and the job no longer holds a slot. */
  lemma FinishReleasesOnce(s: Server, id: string)
    requires Inv(s) && s.pool.active > 0 && id in s.holders
    ensures var ip := s.holders[id].ip;
      IpLimit.Count(FinishIngest(s, id).counts, ip) == IpLimit.Count(s.counts, ip) - 1
    ensures forall ip :: ip != s.holders[id].ip ==> IpLimit.Count(FinishIngest(s, id).counts, ip) == IpLimit.Count(s.counts, ip)
  {
    assert id in HoldersOf(s.holders, s.holders[id].ip);
  }

  lemma FinishKeepsInv(s: Server, id: string)
    requires Inv(s) && s.pool.active > 0
    ensures Inv(FinishIngest(s, id))
  {
    var r := FinishIngest(s, id);
    if id in s.holders {
      var slot := s.holders[id];
      assert id in HoldersOf(s.holders, slot.ip);
      IpLimit.AcquireReleaseKeepValid(s.counts, slot);
      FinishReleasesOnce(s, id);
    }
    forall ip ensures IpLimit.Count(r.counts, ip) == |HoldersOf(r.holders, ip)| {
      HoldersRemove(s.holders, id, ip);
    }
  }

  lemma HolderRoundTrip(c: IpLimit.Counts, h: map<string, IpLimit.Slot>, ip: string, newId: string)
    requires IpLimit.Valid(c, IpLimit.MaxIngestPerIp) && newId !in h
    ensures var acq := IpLimit.AcquireIngest(c, ip);
      acq.1.Some? ==>
        && IpLimit.Release(acq.0, h[newId := acq.1.value][newId]).0 == c
        && h[newId := acq.1.value] - {newId} == h
  {
    IpLimit.ReleaseUndoesAcquire(c, ip, IpLimit.MaxIngestPerIp);
  }

  /**
   * Admitting a job and then finishing it gives the IP's slot back: the slot
   * table and the holders are what they were before the request.
   */
  lemma AcceptThenFinishRestoresSlots(s: Server, ip: string, user: Option<int>, newId: string, now: int)
    requires Inv(s) && newId !in s.holders
    ensures var r := StartIngest(s, ip, user, newId, now);
      r.1.Accepted? && r.0.pool.active > 0 ==>
        FinishIngest(r.0, newId).counts == s.counts && FinishIngest(r.0, newId).holders == s.holders
  {
    var r := StartIngest(s, ip, user, newId, now);
    if r.1.Accepted? && r.0.pool.active > 0 {
      var acq := IpLimit.AcquireIngest(s.counts, ip);
      HolderRoundTrip(s.counts, s.holders, ip, newId);
      assert r.0.counts == acq.0 && r.0.holders == s.holders[newId := acq.1.value];
    }
  }

  /** With the accounting kept, no IP ever has more than two ingest tasks holding slots. */
  lemma AtMostTwoPerIp(s: Server, ip: string)
    requires Inv(s)
    ensures |HoldersOf(s.holders, ip)| <= IpLimit.MaxIngestPerIp
  {
    assert IpLimit.Count(s.counts, ip) == |HoldersOf(s.holders, ip)|;
  }
}
