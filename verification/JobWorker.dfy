/** A worker that claims, runs and finalizes jobs one at a time, with nobody else writing to the rows it may take. */
module JobWorker {
  import opened Prelude
  import opened JobModel
  import opened JobStore
  import JobProtocol
  import JobRuns

  /** How a handler ends: with a result reference, or with an exception of some category. */
  datatype Outcome = Returned(resultRef: Option<string>) | Raised(category: string, context: map<string, string>) | NoHandler

  /** The row once an attempt is over. Heartbeats decide the two time columns of a row that is not requeued. */
  predicate AttemptOver(j: Job, j': Job, w: WorkerId, o: Outcome) {
    var c := j.(state := Running, workerId := Some(w), attempt := j.attempt + 1,
                heartbeatAt := j'.heartbeatAt, leaseExpiresAt := j'.leaseExpiresAt);
    match o
    case Returned(ref) => j' == c.(state := Succeeded, resultRef := ref)
    case Raised(category, context) =>
      if c.attempt >= c.maxAttempts
      then j' == c.(state := Failed, errorCategory := Some(category), failureContext := context)
      else j' == c.(state := Queued, workerId := None, leaseExpiresAt := None, heartbeatAt := None, failureContext := map[])
    case NoHandler => j' == c.(state := Failed, errorCategory := Some("not_implemented"), failureContext := map[])
  }

  /** What an attempt leaves: a finished row, or a queued one that spent fuel. */
  lemma AttemptSpendsFuel(j: Job, j': Job, w: WorkerId, o: Outcome, now: int)
    requires Claimable(j, now) && AttemptOver(j, j', w, o)
    ensures JobRuns.Fuel(j') < JobRuns.Fuel(j)
    ensures Terminal(j'.state) || (j'.state == Queued && j'.attempt < j'.maxAttempts)
    ensures o.Returned? ==> j'.state == Succeeded && j'.resultRef == o.resultRef
  {
  }

  /** One token for each unit of fuel in the table. */
  ghost function Tokens(t: Table): set<(JobId, int)> {
    set id, k | id in t && 0 <= k < JobRuns.Fuel(t[id]) :: (id, k)
  }

  lemma TokenSpent(t: Table, id: JobId, j': Job)
    requires id in t && 0 <= JobRuns.Fuel(j') < JobRuns.Fuel(t[id])
    ensures Tokens(t[id := j']) < Tokens(t)
  {
    var last := (id, JobRuns.Fuel(t[id]) - 1);
    assert last in Tokens(t) && last !in Tokens(t[id := j']);
  }

  /**
   * A row of a table being drained: still in order, queued rows are on their way to an end, finished ones untouched.
   */
  predicate OnItsWay(j: Job, j': Job) {
    && JobProtocol.RowOk(j')
    && (j.state == Queued ==> j'.state == Queued || Terminal(j'.state))
    && (Terminal(j.state) ==> j' == j)
  }

  ghost predicate Draining(start: Table, t: Table) {
    t.Keys == start.Keys && forall k :: k in start ==> OnItsWay(start[k], t[k])
  }

  lemma DrainRound(start: Table, t: Table, id: JobId, j': Job, w: WorkerId, o: Outcome, now: int)
    requires Draining(start, t) && id in t && Claimable(t[id], now) && AttemptOver(t[id], j', w, o)
    ensures Draining(start, t[id := j']) && Tokens(t[id := j']) < Tokens(t)
  {
    assert OnItsWay(start[id], t[id]);
    AttemptSpendsFuel(t[id], j', w, o, now);
    TokenSpent(t, id, j');
    assert OnItsWay(start[id], j');
  }

  class Worker {
    const id: WorkerId
    const lease: nat
    const store: JobStore
    const kinds: set<string>

    constructor (id: WorkerId, lease: nat, store: JobStore, kinds: set<string>)
      ensures this.id == id && this.lease == lease && this.store == store && this.kinds == kinds
    {
      this.id, this.lease, this.store, this.kinds := id, lease, store, kinds;
    }

    /** Renews the lease until told to stop; `beats` is how often it gets to. Only the two time columns change. */
    method HeartbeatLoop(job: JobId, beats: nat)
      requires Fenced(store.jobs, job, id)
      modifies store
      ensures store.runs == old(store.runs) && store.now >= old(store.now)
      ensures Fenced(store.jobs, job, id)
      ensures store.jobs == old(store.jobs)[job := old(store.jobs[job]).(heartbeatAt := store.jobs[job].heartbeatAt,
                                                                         leaseExpiresAt := store.jobs[job].leaseExpiresAt)]
    {
      for i := 0 to beats
        invariant store.runs == old(store.runs) && store.now >= old(store.now)
        invariant Fenced(store.jobs, job, id)
        invariant store.jobs == old(store.jobs)[job := old(store.jobs[job]).(heartbeatAt := store.jobs[job].heartbeatAt,
                                                                             leaseExpiresAt := store.jobs[job].leaseExpiresAt)]
      {
        var pause: int :| pause >= 0;
        store.now := store.now + pause;
        var ok := store.Heartbeat(job, id, lease);
        if !ok {
          return;
        }
      }
    }

    /**
     * Claims and finishes at most one job. It is idle exactly when not ready, paused or out of claimable jobs;
     * otherwise the oldest claimable job goes through one whole attempt and no other row changes.
     */
    method RunOnce(ready: bool, paused: bool) returns (r: Option<JobId>, outcome: Outcome)
      modifies store
      ensures store.runs == old(store.runs) && store.now >= old(store.now)
      ensures r.None? <==> !ready || paused || NothingClaimable(old(store.jobs), old(store.now), {})
      ensures r.None? ==> store.jobs == old(store.jobs) && store.now == old(store.now)
      ensures r.Some? ==>
        && OldestClaimable(old(store.jobs), old(store.now), {}, r.value)
        && r.value in store.jobs
        && store.jobs == old(store.jobs)[r.value := store.jobs[r.value]]
        && AttemptOver(old(store.jobs)[r.value], store.jobs[r.value], id, outcome)
        && (outcome.NoHandler? <==> old(store.jobs)[r.value].kind !in kinds)
    {
      r, outcome := None, NoHandler;
      if !ready || paused {
        return;
      }
      r := store.Dequeue(id, lease, {});
      if r.None? {
        return;
      }
      var row := store.jobs[r.value];
      var job := Held(r.value, row.attempt, row.maxAttempts);
      if row.kind !in kinds {
        var _ := store.Fail(job, id, Failure("not_implemented", true, map[]));
        return;
      }
      var beats: nat := *;
      HeartbeatLoop(job.job, beats);
      var returned: bool := *;
      if returned {
        var ref: Option<string> := *;
        outcome := Returned(ref);
        var _ := store.Complete(job.job, id, ref);
      } else {
        var category: string, context: map<string, string> := *, *;
        outcome := Raised(category, context);
        var _ := store.Fail(job, id, Failure(category, false, context));
      }
    }

    /**
     * The claim loop of a ready worker left alone: it comes to rest, whatever the handlers do, and then every job that
     * was queued is finished and nothing is claimable.
     */
    method DrainQueue()
      requires forall k :: k in store.jobs ==> JobProtocol.RowOk(store.jobs[k])
      modifies store
      ensures NothingClaimable(store.jobs, store.now, {})
      ensures store.jobs.Keys == old(store.jobs).Keys
      ensures forall k :: k in old(store.jobs) && old(store.jobs)[k].state == Queued ==> Terminal(store.jobs[k].state)
      ensures forall k :: k in old(store.jobs) && Terminal(old(store.jobs)[k].state) ==>
        store.jobs[k] == old(store.jobs)[k]
    {
      while true
        invariant Draining(old(store.jobs), store.jobs)
        decreases Tokens(store.jobs)
      {
        ghost var before, asked := store.jobs, store.now;
        var r, outcome := RunOnce(true, false);
        if r.None? {
          assert forall k :: k in store.jobs ==> OnItsWay(old(store.jobs)[k], store.jobs[k]);
          return;
        }
        DrainRound(old(store.jobs), before, r.value, store.jobs[r.value], id, outcome, asked);
      }
    }
  }
}
