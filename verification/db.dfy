/**
 * The durable tables behind job progress, rate limiting, token balances
 * and quotas. Each table is a map keyed by its primary key and each
 * function is one transaction; the clock reading (`now`, whole seconds) and
 * the calendar strings (`today` as "YYYY-MM-DD", `month` as "YYYY-MM") are
 * parameters. Integer columns declared `DEFAULT 0` are modelled as plain
 * integers because none of the modelled statements ever stores NULL in them.
 */
module JobStatus {
  import opened Wrappers

  /** One row of `job_status`. */
  datatype Job = Job(kind: string, status: string, message: string, repoId: Option<string>,
                     result: Option<string>, createdAt: int, updatedAt: int)

  type Jobs = map<string, Job>

  /**
   * `create_job`: an upsert. A new id gets a fresh row; an existing one has
   * kind, status, message and repo id overwritten and keeps its creation
   * time and result.
   */
  function CreateJob(jobs: Jobs, id: string, kind: string, repoId: Option<string>,
                     status: string, message: string, now: int): (r: Jobs)
    ensures r.Keys == jobs.Keys + {id}
    ensures r[id].kind == kind && r[id].status == status && r[id].message == message
    ensures r[id].repoId == repoId && r[id].updatedAt == now
    ensures id !in jobs ==> r[id].createdAt == now && r[id].result == None
    ensures id in jobs ==> r[id].createdAt == jobs[id].createdAt && r[id].result == jobs[id].result
    ensures forall other :: other in jobs && other != id ==> r[other] == jobs[other]
  {
    if id in jobs then
      jobs[id := jobs[id].(kind := kind, status := status, message := message, repoId := repoId, updatedAt := now)]
    else
      jobs[id := Job(kind, status, message, repoId, None, now, now)]
  }

  /** `update_job`: writes the fields that are given, always stamps the time, ignores unknown ids. */
  function UpdateJob(jobs: Jobs, id: string, status: Option<string>, message: Option<string>,
                     result: Option<string>, now: int): (r: Jobs)
    ensures r.Keys == jobs.Keys
    ensures forall other :: other in jobs && other != id ==> r[other] == jobs[other]
    ensures id in jobs ==> r[id] == Job(
      jobs[id].kind,
      status.GetOr(jobs[id].status),
      message.GetOr(jobs[id].message),
      jobs[id].repoId,
      if result.Some? then result else jobs[id].result,
      jobs[id].createdAt,
      now)
    ensures id !in jobs ==> r == jobs
  {
    if id !in jobs then jobs
    else
      var j := jobs[id];
      var j1 := if status.Some? then j.(status := status.value) else j;
      var j2 := if message.Some? then j1.(message := message.value) else j1;
      var j3 := if result.Some? then j2.(result := result) else j2;
      jobs[id := j3.(updatedAt := now)]
  }

  /** `get_job` */
  function GetJob(jobs: Jobs, id: string): (r: Option<Job>)
    ensures r.Some? <==> id in jobs
    ensures r.Some? ==> r.value == jobs[id]
  {
    if id in jobs then Some(jobs[id]) else None
  }

  /** `cleanup_old_jobs`: deletes the rows created before `now - maxAgeHours` hours. */
  function CleanupOldJobs(jobs: Jobs, maxAgeHours: int, now: int): (r: Jobs)
    ensures forall id :: id in r <==> id in jobs && jobs[id].createdAt >= now - maxAgeHours * 3600
    ensures forall id :: id in r ==> r[id] == jobs[id]
  {
    var cutoff := now - maxAgeHours * 3600;
    map id | id in jobs && jobs[id].createdAt >= cutoff :: jobs[id]
  }

  const DefaultMaxAgeHours := 24

  /** A job created and then advanced reads back with the latest fields and its first timestamp. */
  lemma CreateUpdateGet(jobs: Jobs, id: string, kind: string, repoId: Option<string>, t0: int, t1: int)
    ensures var j1 := CreateJob(jobs, id, kind, repoId, "queued", "Starting...", t0);
      var j2 := UpdateJob(j1, id, Some("done"), None, Some("ok"), t1);
      var got := GetJob(j2, id);
      && got.Some?
      && got.value.status == "done" && got.value.message == "Starting..."
      && got.value.result == Some("ok") && got.value.kind == kind
      && got.value.updatedAt == t1
      && got.value.createdAt == (if id in jobs then jobs[id].createdAt else t0)
  {
  }

  /** Re-creating an existing job is a reset of its progress fields that keeps its history. */
  lemma RecreateKeepsResult(jobs: Jobs, id: string, result: string, t0: int, t1: int, t2: int)
    ensures var j1 := CreateJob(jobs, id, "ingest", None, "queued", "Starting...", t0);
      var j2 := UpdateJob(j1, id, Some("ready"), None, Some(result), t1);
      var j3 := CreateJob(j2, id, "ingest", None, "queued", "Starting...", t2);
      j3[id].result == Some(result) && j3[id].status == "queued" && j3[id].createdAt == j1[id].createdAt
  {
  }

  /** A cleanup at a fixed instant leaves nothing for a second one to delete. */
  lemma CleanupIdempotent(jobs: Jobs, maxAgeHours: int, now: int)
    ensures CleanupOldJobs(CleanupOldJobs(jobs, maxAgeHours, now), maxAgeHours, now)
         == CleanupOldJobs(jobs, maxAgeHours, now)
  {
  }
}

/** The `rate_limits` table: a sliding window of request instants per key. */
module RateLimits {
  import opened Seqs

  type Table = map<string, seq<int>>

  function Stamps(t: Table, key: string): seq<int> {
    if key in t then t[key] else []
  }

  function InWindow(stamps: seq<int>, window: int, now: int): (r: seq<int>)
    ensures forall x :: x in r <==> x in stamps && now - x < window
  {
    Filter(stamps, x => now - x < window)
  }

  /**
   * `check_rate_limit_db`: answers true when the caller is limited. The
   * stamps older than the window are dropped; if at least `max` remain the
   * call is limited and nothing is written; otherwise `now` is appended
   * and stored.
   */
  function CheckRateLimitDb(t: Table, key: string, max: int, window: int, now: int): (r: (Table, bool))
    ensures var kept := InWindow(Stamps(t, key), window, now);
      && (r.1 <==> |kept| >= max)
      && (r.1 ==> r.0 == t)
      && (!r.1 ==> r.0 == t[key := kept + [now]])
  {
    var kept := InWindow(Stamps(t, key), window, now);
    if |kept| >= max then (t, true) else (t[key := kept + [now]], false)
  }

  /** After an admitted call the stored list holds at most `max` stamps, all inside the window. */
  lemma AdmittedListBounded(t: Table, key: string, max: int, window: int, now: int)
    requires window > 0
    ensures var (t', limited) := CheckRateLimitDb(t, key, max, window, now);
      !limited ==> |t'[key]| <= max && forall x :: x in t'[key] ==> now - x < window
  {
  }

  /** The number of calls admitted among `n` calls arriving at the same instant. */
  function Burst(t: Table, key: string, max: int, window: int, now: int, n: nat): (r: (Table, nat))
    decreases n
  {
    if n == 0 then (t, 0)
    else
      var (t1, limited) := CheckRateLimitDb(t, key, max, window, now);
      var (t2, k) := Burst(t1, key, max, window, now, n - 1);
      (t2, if limited then k else k + 1)
  }

  /**
   * Of `n` calls arriving together, exactly as many are admitted as fit
   * between the stamps already inside the window and `max`.
   */
  lemma {:induction false} BurstAdmitsUpToMax(t: Table, key: string, max: int, window: int, now: int, n: nat)
    requires window > 0
    ensures var room := max - |InWindow(Stamps(t, key), window, now)|;
      Burst(t, key, max, window, now, n).1 == if room <= 0 then 0 else if n < room then n else room
    decreases n
  {
    if n > 0 {
      var r := CheckRateLimitDb(t, key, max, window, now);
      BurstAdmitsUpToMax(r.0, key, max, window, now, n - 1);
      if !r.1 {
        AdmitFillsWindow(t, key, max, window, now);
      }
    }
  }

  /** An admitted call adds exactly one stamp to the window. */
  lemma AdmitFillsWindow(t: Table, key: string, max: int, window: int, now: int)
    requires window > 0
    ensures var r := CheckRateLimitDb(t, key, max, window, now);
      !r.1 ==> |InWindow(Stamps(r.0, key), window, now)| == |InWindow(Stamps(t, key), window, now)| + 1
  {
    var kept := InWindow(Stamps(t, key), window, now);
    if |kept| < max {
      FilterConcat(kept, [now], x => now - x < window);
      FilterKeepsAll(kept, x => now - x < window);
      assert InWindow([now], window, now) == [now];
    }
  }
}

/** The quota and balance columns of `users`, and the `token_transactions` ledger. */
module Accounts {
  import opened Wrappers

  datatype User = User(
    tokens: Option<int>,
    plan: string,
    subscriptionStatus: string,
    reposThisMonth: int,
    monthReset: Option<string>,
    apiCallsToday: int,
    apiCallsDate: Option<string>)

  type Users = map<int, User>

  datatype Txn = Txn(userId: int, amount: int, action: string, description: string)

  /** Free-plan repos per calendar month. */
  const FreeReposPerMonth := 3

  /** `get_token_balance`: a missing user or an empty balance reads as 0. */
  function GetTokenBalance(users: Users, uid: int): (r: int)
    ensures uid !in users || users[uid].tokens.None? ==> r == 0
    ensures uid in users && users[uid].tokens.Some? ==> r == users[uid].tokens.value
  {
    if uid in users && users[uid].tokens.Some? then users[uid].tokens.value else 0
  }

  /**
   * `spend_tokens`: refuses a missing user, an empty balance or one below
   * `amount`; otherwise takes `amount` off and appends one "spend" row.
   */
  function SpendTokens(users: Users, ledger: seq<Txn>, uid: int, amount: int, description: string)
    : (r: (Users, seq<Txn>, bool))
    ensures r.2 <==> uid in users && users[uid].tokens.Some? && users[uid].tokens.value >= amount
    ensures !r.2 ==> r.0 == users && r.1 == ledger
    ensures r.2 ==> r.0 == users[uid := users[uid].(tokens := Some(users[uid].tokens.value - amount))]
    ensures r.2 ==> r.1 == ledger + [Txn(uid, -amount, "spend", description)]
    ensures r.2 ==> GetTokenBalance(r.0, uid) >= 0
  {
    if uid !in users || users[uid].tokens.None? || users[uid].tokens.value < amount then
      (users, ledger, false)
    else
      var u := users[uid];
      (users[uid := u.(tokens := Some(u.tokens.value - amount))],
       ledger + [Txn(uid, -amount, "spend", description)], true)
  }

  /** The net of a user's ledger rows. */
  function Net(ledger: seq<Txn>, uid: int): int {
    if |ledger| == 0 then 0
    else Net(ledger[..|ledger| - 1], uid)
         + (if ledger[|ledger| - 1].userId == uid then ledger[|ledger| - 1].amount else 0)
  }

  datatype Spend = Spend(uid: int, amount: int, description: string)

  function SpendAll(users: Users, ledger: seq<Txn>, reqs: seq<Spend>): (Users, seq<Txn>)
    decreases |reqs|
  {
    if |reqs| == 0 then (users, ledger)
    else
      var r := SpendTokens(users, ledger, reqs[0].uid, reqs[0].amount, reqs[0].description);
      SpendAll(r.0, r.1, reqs[1..])
  }

  predicate HasBalance(users: Users, uid: int) {
    uid in users && users[uid].tokens.Some?
  }

  /**
   * Over any run of spends, every balance moves by exactly the net of the
   * ledger rows written for it, and a non-negative balance stays so.
   */
  lemma {:induction false} LedgerAccountsForBalance(users: Users, ledger: seq<Txn>, reqs: seq<Spend>, uid: int)
    ensures var (u', l') := SpendAll(users, ledger, reqs);
      GetTokenBalance(u', uid) - Net(l', uid) == GetTokenBalance(users, uid) - Net(ledger, uid)
    ensures GetTokenBalance(users, uid) >= 0 ==> GetTokenBalance(SpendAll(users, ledger, reqs).0, uid) >= 0
    decreases |reqs|
  {
    if |reqs| > 0 {
      var r := SpendTokens(users, ledger, reqs[0].uid, reqs[0].amount, reqs[0].description);
      if r.2 {
        assert r.1[..|r.1| - 1] == ledger;
      }
      LedgerAccountsForBalance(r.0, r.1, reqs[1..], uid);
    }
  }

  /**
   * `check_api_rate_limit`: an unknown user is refused; the first call of a
   * new day resets the counter to 1 and is allowed; on the same day the
   * call is allowed and counted while the counter is below the limit.
   */
  function CheckApiRateLimit(users: Users, uid: int, dailyLimit: int, today: string): (r: (Users, bool))
    ensures uid !in users ==> r == (users, false)
    ensures uid in users && users[uid].apiCallsDate != Some(today) ==>
      r == (users[uid := users[uid].(apiCallsToday := 1, apiCallsDate := Some(today))], true)
    ensures uid in users && users[uid].apiCallsDate == Some(today) ==>
      r.1 == (users[uid].apiCallsToday < dailyLimit)
      && r.0 == (if r.1 then users[uid := users[uid].(apiCallsToday := users[uid].apiCallsToday + 1)] else users)
  {
    if uid !in users then (users, false)
    else
      var u := users[uid];
      if u.apiCallsDate != Some(today) then
        (users[uid := u.(apiCallsToday := 1, apiCallsDate := Some(today))], true)
      else if u.apiCallsToday >= dailyLimit then (users, false)
      else (users[uid := u.(apiCallsToday := u.apiCallsToday + 1)], true)
  }

  /** `n` API calls by one user on one day; the second component counts the allowed ones. */
  function ApiCalls(users: Users, uid: int, dailyLimit: int, today: string, n: nat): (r: (Users, nat))
    decreases n
  {
    if n == 0 then (users, 0)
    else
      var (u1, ok) := CheckApiRateLimit(users, uid, dailyLimit, today);
      var (u2, k) := ApiCalls(u1, uid, dailyLimit, today, n - 1);
      (u2, if ok then k + 1 else k)
  }

  /** The calls a user may still make today. */
  function Remaining(users: Users, uid: int, dailyLimit: int, today: string): int {
    if uid !in users then 0
    else if users[uid].apiCallsDate != Some(today) then (if dailyLimit < 1 then 1 else dailyLimit)
    else if users[uid].apiCallsToday >= dailyLimit then 0
    else dailyLimit - users[uid].apiCallsToday
  }

  /**
   * On one day a user gets at most the daily limit of calls through (one
   * call when the limit is below one, since the day's first call is always
   * let in), counting what was already used that day.
   */
  lemma {:induction false} DailyLimitHolds(users: Users, uid: int, dailyLimit: int, today: string, n: nat)
    ensures ApiCalls(users, uid, dailyLimit, today, n).1 <= Remaining(users, uid, dailyLimit, today)
    decreases n
  {
    if n > 0 {
      var (u1, ok) := CheckApiRateLimit(users, uid, dailyLimit, today);
      DailyLimitHolds(u1, uid, dailyLimit, today, n - 1);
    }
  }

  /** `increment_repo_count`: +1 within the recorded month, reset to 1 in a new one; a missing user is left alone. */
  function IncrementRepoCount(users: Users, uid: int, month: string): (r: Users)
    ensures uid !in users ==> r == users
    ensures uid in users ==> r.Keys == users.Keys && r[uid].monthReset == Some(month)
    ensures uid in users ==>
      r[uid].reposThisMonth == (if users[uid].monthReset == Some(month) then users[uid].reposThisMonth + 1 else 1)
    ensures forall other :: other in users && other != uid ==> r[other] == users[other]
  {
    if uid !in users then users
    else
      var u := users[uid];
      if u.monthReset == Some(month) then users[uid := u.(reposThisMonth := u.reposThisMonth + 1)]
      else users[uid := u.(reposThisMonth := 1, monthReset := Some(month))]
  }

  /**
   * `check_repo_limit`: a missing user, an active pro subscriber or a count
   * from an earlier month is allowed; otherwise the month's count must be
   * below three.
   */
  function CheckRepoLimit(users: Users, uid: int, month: string): (r: bool)
    ensures uid !in users ==> r
    ensures uid in users && users[uid].plan == "pro" && users[uid].subscriptionStatus == "active" ==> r
    ensures uid in users && users[uid].monthReset != Some(month) ==> r
    ensures (uid in users && !(users[uid].plan == "pro" && users[uid].subscriptionStatus == "active")
             && users[uid].monthReset == Some(month)) ==> (r <==> users[uid].reposThisMonth < FreeReposPerMonth)
  {
    if uid !in users then true
    else
      var u := users[uid];
      if u.plan == "pro" && u.subscriptionStatus == "active" then true
      else if u.monthReset != Some(month) then true
      else u.reposThisMonth < FreeReposPerMonth
  }

  function Ingests(users: Users, uid: int, month: string, n: nat): Users
    decreases n
  {
    if n == 0 then users else Ingests(IncrementRepoCount(users, uid, month), uid, month, n - 1)
  }

  /** After `n ≥ 1` counted repos in a month that was not yet recorded, the month's count is `n`. */
  lemma {:induction false} CountAfterNewMonth(users: Users, uid: int, month: string, n: nat)
    requires uid in users && users[uid].monthReset != Some(month) && n >= 1
    ensures uid in Ingests(users, uid, month, n)
    ensures Ingests(users, uid, month, n)[uid].reposThisMonth == n
    ensures Ingests(users, uid, month, n)[uid].monthReset == Some(month)
    decreases n
  {
    if n > 1 {
      var u1 := IncrementRepoCount(users, uid, month);
      SameMonthAdds(u1, uid, month, n - 1);
    }
  }

  lemma {:induction false} SameMonthAdds(users: Users, uid: int, month: string, n: nat)
    requires uid in users && users[uid].monthReset == Some(month)
    ensures uid in Ingests(users, uid, month, n)
    ensures Ingests(users, uid, month, n)[uid].reposThisMonth == users[uid].reposThisMonth + n
    ensures Ingests(users, uid, month, n)[uid].monthReset == Some(month)
    ensures Ingests(users, uid, month, n)[uid].plan == users[uid].plan
    ensures Ingests(users, uid, month, n)[uid].subscriptionStatus == users[uid].subscriptionStatus
    decreases n
  {
    if n > 0 {
      SameMonthAdds(IncrementRepoCount(users, uid, month), uid, month, n - 1);
    }
  }

  /**
   * A user without an active pro subscription is refused after three repos
   * in a month, and allowed again when the month changes.
   */
  lemma FreeQuotaIsThreePerMonth(users: Users, uid: int, month: string, next: string)
    requires uid in users && users[uid].monthReset != Some(month) && month != next
    requires !(users[uid].plan == "pro" && users[uid].subscriptionStatus == "active")
    ensures CheckRepoLimit(Ingests(users, uid, month, 2), uid, month)
    ensures !CheckRepoLimit(Ingests(users, uid, month, 3), uid, month)
    ensures CheckRepoLimit(Ingests(users, uid, month, 3), uid, next)
  {
    CountAfterNewMonth(users, uid, month, 2);
    CountAfterNewMonth(users, uid, month, 3);
    var u1 := IncrementRepoCount(users, uid, month);
    SameMonthAdds(u1, uid, month, 1);
    SameMonthAdds(u1, uid, month, 2);
  }
}
