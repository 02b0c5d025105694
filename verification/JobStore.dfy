/** The job table updated in place, one method per queue operation, each tied to the step the protocol reasons about. */
module JobStore {
  import opened Prelude
  import opened JobModel

  datatype RunState = RunCreated | RunRunning | RunSucceeded | RunFailed | RunCanceled

  datatype Run = Run(state: RunState, failureCategory: Option<string>)

  const Abandoned := Run(RunFailed, Some("lease_expired"))

  /** The run behind a dead-lettered job, if it has one that is not finished yet. */
  predicate Compensates(t: Table, ids: set<JobId>, run: nat, state: RunState) {
    state in {RunCreated, RunRunning} && exists id :: id in ids && id in t && t[id].runId == Some(run)
  }

  function CompensatedRuns(runs: map<nat, Run>, t: Table, ids: set<JobId>): map<nat, Run> {
    map r | r in runs :: if Compensates(t, ids, r, runs[r].state) then Abandoned else runs[r]
  }

  /** Every listed row dead-lettered, all others as they were. */
  function SweptTable(t: Table, ids: set<JobId>): Table {
    map id | id in t :: if id in ids then SweepTable(t, id)[id] else t[id]
  }

  function Zombies(t: Table, now: int): set<JobId> {
    set id | id in t && Zombie(t[id], now)
  }

  lemma {:induction false} OldestExists(t: Table, ids: set<JobId>) returns (oldest: JobId)
    requires ids <= t.Keys && ids != {}
    ensures oldest in ids && forall k :: k in ids ==> t[oldest].createdAt <= t[k].createdAt
    decreases ids
  {
    var first :| first in ids;
    oldest := first;
    if ids - {first} != {} {
      var other := OldestExists(t, ids - {first});
      if t[other].createdAt < t[first].createdAt {
        oldest := other;
      }
    }
    assert forall k :: k in ids ==> k == first || k in ids - {first};
  }

  class JobStore {
    var jobs: Table
    var runs: map<nat, Run>
    var now: int

    constructor (runs: map<nat, Run>, now: int)
      ensures jobs == map[] && this.runs == runs && this.now == now
    {
      jobs := map[];
      this.runs := runs;
      this.now := now;
    }

    /** `id` is the fresh key the database would generate. The returned job is the one that owns the dedup key. */
    method Enqueue(id: JobId, req: Request) returns (r: Result<JobId, string>)
      requires id !in jobs
      modifies this`jobs
      ensures r.Err? <==> req.maxAttempts < 1
      ensures jobs == if r.Err? then old(jobs) else EnqueueTable(old(jobs), id, req, now)
      ensures r.Ok? ==> r.value in jobs && jobs[r.value].dedupKey == req.dedupKey
      ensures r.Ok? && HasDedup(old(jobs), req.dedupKey) ==> r.value in old(jobs) && jobs == old(jobs)
      ensures r.Ok? && !HasDedup(old(jobs), req.dedupKey) ==>
        && r.value == id && RequestOf(jobs[id]) == req && jobs[id].createdAt == now
        && jobs[id].state == Queued && jobs[id].attempt == 0 && Claimable(jobs[id], now)
    {
      if req.maxAttempts < 1 {
        return Err("max_attempts must be >= 1");
      }
      if !HasDedup(jobs, req.dedupKey) {
        jobs := jobs[id := NewJob(req, now)];
        assert jobs[id].dedupKey == req.dedupKey;
      }
      var found :| found in jobs && jobs[found].dedupKey == req.dedupKey;
      return Ok(found);
    }

    /** `locked` are the rows other transactions hold, which the claim skips. */
    method Dequeue(w: WorkerId, lease: nat, locked: set<JobId>) returns (r: Option<JobId>)
      modifies this`jobs
      ensures r.None? <==> NothingClaimable(old(jobs), now, locked)
      ensures r.None? ==> jobs == old(jobs)
      ensures r.Some? ==> OldestClaimable(old(jobs), now, locked, r.value)
      ensures r.Some? ==> jobs == old(jobs)[r.value := Claim(old(jobs)[r.value], w, now, lease)]
      ensures r.Some? ==>
        && jobs[r.value].state == Running && jobs[r.value].workerId == Some(w)
        && jobs[r.value].leaseExpiresAt == Some(now + lease) && jobs[r.value].attempt == old(jobs)[r.value].attempt + 1
    {
      var eligible := set k | k in jobs && Claimable(jobs[k], now) && k !in locked;
      if eligible == {} {
        assert forall k :: k in jobs && Claimable(jobs[k], now) && k !in locked ==> k in eligible;
        return None;
      }
      ghost var oldest := OldestExists(jobs, eligible);
      var id :| id in eligible && forall k :: k in eligible ==> jobs[id].createdAt <= jobs[k].createdAt;
      jobs := jobs[id := Claim(jobs[id], w, now, lease)];
      return Some(id);
    }

    /** The depth gauge is positive exactly when an unobstructed dequeue would claim something. */
    method CountClaimable() returns (n: nat)
      ensures n == |set k | k in jobs && Claimable(jobs[k], now)|
      ensures n == 0 <==> NothingClaimable(jobs, now, {})
    {
      var eligible := set k | k in jobs && Claimable(jobs[k], now);
      assert eligible == {} <==> NothingClaimable(jobs, now, {}) by {
        assert forall k :: k in jobs && Claimable(jobs[k], now) ==> k in eligible;
      }
      return |eligible|;
    }

    method Heartbeat(id: JobId, w: WorkerId, lease: nat) returns (ok: bool)
      modifies this`jobs
      ensures ok <==> Fenced(old(jobs), id, w)
      ensures jobs == HeartbeatTable(old(jobs), id, w, now, lease)
    {
      ok := Fenced(jobs, id, w);
      if ok {
        jobs := jobs[id := jobs[id].(heartbeatAt := Some(now), leaseExpiresAt := Some(now + lease))];
      }
    }

    method Complete(id: JobId, w: WorkerId, resultRef: Option<string>) returns (r: Option<Job>)
      modifies this`jobs
      ensures jobs == CompleteTable(old(jobs), id, w, resultRef)
      ensures r.Some? <==> Fenced(old(jobs), id, w)
      ensures r.Some? ==> r.value == jobs[id] && r.value.state == Succeeded
    {
      if !Fenced(jobs, id, w) {
        return None;
      }
      jobs := jobs[id := jobs[id].(state := Succeeded, resultRef := resultRef)];
      return Some(jobs[id]);
    }

    /** `h` and `w` are the snapshot's own columns; a missed fence writes nothing and reports no new row. */
    method Fail(h: Held, w: WorkerId, f: Failure) returns (r: Option<Job>)
      modifies this`jobs
      ensures jobs == FailTable(old(jobs), h, w, f)
      ensures r.Some? <==> Fenced(old(jobs), h.job, w)
      ensures r.Some? ==> r.value == jobs[h.job] && r.value.state == (if DeadLetters(h, f) then Failed else Queued)
    {
      if !Fenced(jobs, h.job, w) {
        return None;
      }
      var row := jobs[h.job];
      if DeadLetters(h, f) {
        jobs := jobs[h.job := row.(state := Failed, errorCategory := Some(f.category), failureContext := f.context)];
      } else {
        jobs := jobs[h.job := row.(state := Queued, workerId := None, leaseExpiresAt := None, heartbeatAt := None,
                                   failureContext := map[])];
      }
      return Some(jobs[h.job]);
    }

    /** One transaction of the sweep: re-check that the row still runs, dead-letter it, compensate its run. */
    method SweepOne(id: JobId) returns (swept: bool)
      modifies this`jobs, this`runs
      ensures swept <==> id in old(jobs) && old(jobs)[id].state == Running
      ensures jobs == SweepTable(old(jobs), id)
      ensures runs == CompensatedRuns(old(runs), old(jobs), if swept then {id} else {})
    {
      swept := id in jobs && jobs[id].state == Running;
      ghost var ids := if swept then {id} else {};
      if swept {
        var run := jobs[id].runId;
        jobs := jobs[id := jobs[id].(state := Failed, errorCategory := Some("lease_expired"))];
        if run.Some? && run.value in runs && runs[run.value].state in {RunCreated, RunRunning} {
          runs := runs[run.value := Abandoned];
        }
      }
      assert runs == CompensatedRuns(old(runs), old(jobs), ids);
    }

    /** The whole sweep when nothing interferes: exactly the zombies are dead-lettered, each counted once. */
    method RepairAbandonedJobs() returns (swept: nat)
      modifies this`jobs, this`runs
      ensures swept == |Zombies(old(jobs), now)|
      ensures jobs == SweptTable(old(jobs), Zombies(old(jobs), now))
      ensures runs == CompensatedRuns(old(runs), old(jobs), Zombies(old(jobs), now))
      ensures Zombies(jobs, now) == {}
      ensures JobsSwept(old(jobs), jobs, now) && RunsSettled(old(jobs), old(runs), runs, now)
    {
      hide SweptTable, CompensatedRuns, SweepTable, Zombies, JobsSwept, RunsSettled;
      var rest := Zombies(jobs, now);
      ghost var done: set<JobId> := {};
      NoneSwept(runs, jobs);
      swept := 0;
      while rest != {}
        invariant done + rest == Zombies(old(jobs), now) && done !! rest
        invariant swept == |done|
        invariant jobs == SweptTable(old(jobs), done)
        invariant runs == CompensatedRuns(old(runs), old(jobs), done)
        decreases rest
      {
        var id :| id in rest;
        ZombieRuns(old(jobs), now, id);
        OneMoreSwept(old(runs), old(jobs), done, id);
        var ok := SweepOne(id);
        rest, done := rest - {id}, done + {id};
        if ok {
          swept := swept + 1;
        }
      }
      assert done == Zombies(old(jobs), now);
      SweptClean(old(jobs), now);
      SweepSettles(old(runs), old(jobs), now);
    }
  }

  /** A running job past its lease with no attempt left. */
  predicate OutOfTime(j: Job, now: int) {
    && j.state == Running && j.attempt >= j.maxAttempts
    && j.leaseExpiresAt.Some? && j.leaseExpiresAt.value < now
  }

  /** Jobs out of time are failed for an expired lease, keeping every other column; no other job is touched. */
  ghost predicate JobsSwept(t: Table, t': Table, now: int) {
    && t'.Keys == t.Keys
    && forall id :: id in t ==>
         if OutOfTime(t[id], now) then t'[id] == t[id].(state := Failed, errorCategory := Some("lease_expired"))
         else t'[id] == t[id]
  }

  /** Some job that is out of time works for the run. */
  ghost predicate Deserted(t: Table, run: nat, now: int) {
    exists id :: id in t && OutOfTime(t[id], now) && t[id].runId == Some(run)
  }

  /** No run of a swept job is left created or running: it is failed. Every other run is as it was. */
  ghost predicate RunsSettled(t: Table, runs: map<nat, Run>, runs': map<nat, Run>, now: int) {
    && runs'.Keys == runs.Keys
    && (forall r :: r in runs && Deserted(t, r, now) ==> runs'[r].state != RunCreated && runs'[r].state != RunRunning)
    && (forall r :: r in runs && runs'[r] != runs[r] ==>
          && Deserted(t, r, now) && (runs[r].state == RunCreated || runs[r].state == RunRunning)
          && runs'[r] == Run(RunFailed, Some("lease_expired")))
  }

  /** What the sweep means for jobs and runs. */
  lemma SweepSettles(runs: map<nat, Run>, t: Table, now: int)
    ensures JobsSwept(t, SweptTable(t, Zombies(t, now)), now)
    ensures RunsSettled(t, runs, CompensatedRuns(runs, t, Zombies(t, now)), now)
  {
    forall id | id in t ensures OutOfTime(t[id], now) <==> id in Zombies(t, now) {
    }
    forall r | r in runs ensures Compensates(t, Zombies(t, now), r, runs[r].state) <==>
        Deserted(t, r, now) && (runs[r].state == RunCreated || runs[r].state == RunRunning)
    {
      if Deserted(t, r, now) {
        var id :| id in t && OutOfTime(t[id], now) && t[id].runId == Some(r);
        assert id in Zombies(t, now);
      }
    }
  }

  lemma ZombieRuns(t: Table, now: int, id: JobId)
    requires id in Zombies(t, now)
    ensures id in t && t[id].state == Running
  {
  }

  lemma NoneSwept(runs: map<nat, Run>, t: Table)
    ensures SweptTable(t, {}) == t && CompensatedRuns(runs, t, {}) == runs
  {
  }

  /** Sweeping one more row is sweeping all of them: a failed run is not compensated again. */
  lemma OneMoreSwept(runs: map<nat, Run>, t: Table, done: set<JobId>, id: JobId)
    requires id in t && id !in done && t[id].state == Running
    ensures id in SweptTable(t, done) && SweptTable(t, done)[id] == t[id]
    ensures SweepTable(SweptTable(t, done), id) == SweptTable(t, done + {id})
    ensures CompensatedRuns(CompensatedRuns(runs, t, done), SweptTable(t, done), {id}) == CompensatedRuns(runs, t, done + {id})
  {
  }

  /** After the sweep no zombie is left. */
  lemma SweptClean(t: Table, now: int)
    ensures Zombies(SweptTable(t, Zombies(t, now)), now) == {}
  {
  }
}
