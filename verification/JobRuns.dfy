/** What holds over whole runs of the queue protocol, whatever the interleaving. */
module JobRuns {
  import opened Prelude
  import opened JobModel
  import opened JobProtocol

  ghost predicate ValidRun(steps: seq<Step>)
    decreases |steps|, 0
  {
    steps == [] || (ValidRun(Front(steps)) && Enabled(Exec(Front(steps)), Last(steps)))
  }

  ghost function Exec(steps: seq<Step>): State
    requires ValidRun(steps)
    decreases |steps|, 1
  {
    if steps == [] then Initial else Apply(Exec(Front(steps)), Last(steps))
  }

  function Front<T>(s: seq<T>): seq<T>
    requires s != []
  {
    s[..|s| - 1]
  }

  function Last<T>(s: seq<T>): T
    requires s != []
  {
    s[|s| - 1]
  }

  lemma {:induction false} RunInv(steps: seq<Step>)
    requires ValidRun(steps)
    ensures Inv(Exec(steps))
    decreases |steps|
  {
    if steps != [] {
      RunInv(Front(steps));
      StepKeepsInv(Exec(Front(steps)), Last(steps));
    }
  }

  /**
   * The fence looks only at the worker and the state, yet it lets a holder through exactly while the row runs on the
   * attempt the holder claimed; a fenced write acts on that attempt, and a stale holder's writes change nothing.
   */
  lemma FenceTheorem(steps: seq<Step>, w: WorkerId, resultRef: Option<string>, f: Failure, lease: nat)
    requires ValidRun(steps) && w in Exec(steps).held
    ensures var s := Exec(steps); var h := s.held[w];
      && h.job in s.jobs && h.job in s.claims
      && (Fenced(s.jobs, h.job, w) <==> s.jobs[h.job].state == Running && s.jobs[h.job].attempt == h.attempt)
      && (Fenced(s.jobs, h.job, w) ==>
            s.jobs[h.job].attempt == h.attempt == |s.claims[h.job]| > 0 && s.claims[h.job][h.attempt - 1] == w)
      && (h.attempt != s.jobs[h.job].attempt ==>
            && CompleteTable(s.jobs, h.job, w, resultRef) == s.jobs
            && FailTable(s.jobs, h, w, f) == s.jobs
            && HeartbeatTable(s.jobs, h.job, w, s.now, lease) == s.jobs)
  {
    hide Inv, Enabled, Apply;
    RunInv(steps);
    var s := Exec(steps);
    HeldRow(s, w);
    if Fenced(s.jobs, s.held[w].job, w) {
      FenceHolds(s, w);
    } else if s.held[w].attempt != s.jobs[s.held[w].job].attempt {
      StaleHolderWritesNothing(s, w, resultRef, f, lease);
    }
  }

  /** A succeeded job's result was handed in by its latest claimant, for its latest attempt. */
  lemma SucceededFromLatestClaim(steps: seq<Step>, id: JobId)
    requires ValidRun(steps) && id in Exec(steps).jobs && Exec(steps).jobs[id].state == Succeeded
    ensures var s := Exec(steps);
      && id in s.claims && id in s.finishes && |s.claims[id]| == s.jobs[id].attempt > 0
      && s.finishes[id] == Finish(Last(s.claims[id]), s.jobs[id].attempt, s.jobs[id].resultRef)
  {
    RunInv(steps);
    assert HistoryOk(Exec(steps).jobs[id], Exec(steps).claims[id]);
  }

  /** No job is stranded: it is finished, claimable, under a lease, or waiting for exactly one of the two repairs. */
  lemma NoStrandedJob(steps: seq<Step>, id: JobId)
    requires ValidRun(steps) && id in Exec(steps).jobs
    ensures var j := Exec(steps).jobs[id]; var now := Exec(steps).now;
      && (j.state == Queued ==> Claimable(j, now))
      && (j.state == Running ==> j.leaseExpiresAt.Some? && j.workerId.Some?)
      && (j.state == Running && now > j.leaseExpiresAt.value ==> Claimable(j, now) != Zombie(j, now))
      && ((Terminal(j.state) || (j.state == Running && now <= j.leaseExpiresAt.value)) ==>
            !Claimable(j, now) && !Zombie(j, now))
  {
    RunInv(steps);
    assert RowOk(Exec(steps).jobs[id]);
  }

  /** A worker holds a job from the dequeue that gave it one until it completes it, fails it or loses it. */
  lemma HoldsExactly(s: State, step: Step, w: WorkerId)
    requires Enabled(s, step)
    ensures w in s.held ==>
              (w !in Apply(s, step).held <==> (step.Complete? || step.Fail? || step.Lose?) && step.w == w)
    ensures w in s.held && w in Apply(s, step).held ==> Apply(s, step).held[w] == s.held[w]
    ensures w !in s.held ==> (w in Apply(s, step).held <==> step.Dequeue? && step.w == w && step.picked.Some?)
    ensures step.Lose? ==> Apply(s, step).jobs == s.jobs
  {
  }

  // ---------- bounded retries ----------

  function Fuel(j: Job): int {
    if Terminal(j.state) then 0 else 2 * (j.maxAttempts - j.attempt) + (if j.state == Running then 1 else 0)
  }

  /** The row was claimed, requeued or finished. */
  ghost predicate Progressed(t: Table, t': Table, id: JobId) {
    id in t && id in t' && (t[id].state != t'[id].state || t[id].attempt != t'[id].attempt)
  }

  /**
   * What one step does to one row: its request stays, its state moves along a legal edge or stays, a finished row is
   * untouched, a row written in place without changing state is a running one, and progress costs fuel.
   */
  predicate Refines(j: Job, j': Job) {
    && j'.kind == j.kind && j'.runId == j.runId && j'.dedupKey == j.dedupKey && j'.maxAttempts == j.maxAttempts
    && j'.createdAt == j.createdAt
    && (j'.state == j.state || CanTransition(j.state, j'.state))
    && (Terminal(j.state) ==> j' == j)
    && (j'.state == j.state && j' != j ==> j.state == Running)
    && j.attempt <= j'.attempt <= j.attempt + 1
    && 0 <= Fuel(j') <= Fuel(j)
    && (Fuel(j') == Fuel(j) <==> j'.state == j.state && j'.attempt == j.attempt)
  }

  lemma ClaimRefines(j: Job, w: WorkerId, now: int, lease: nat)
    requires RowOk(j) && Claimable(j, now)
    ensures Refines(j, Claim(j, w, now, lease))
  {
  }

  /** The writes that do not depend on what a worker remembers. */
  lemma WritesRefine(t: Table, id: JobId, at: JobId, w: WorkerId, now: int, lease: nat, resultRef: Option<string>)
    requires id in t && RowOk(t[id])
    ensures Refines(t[id], t[id])
    ensures id in HeartbeatTable(t, at, w, now, lease) && Refines(t[id], HeartbeatTable(t, at, w, now, lease)[id])
    ensures id in CompleteTable(t, at, w, resultRef) && Refines(t[id], CompleteTable(t, at, w, resultRef)[id])
    ensures id in CancelTable(t, at) && Refines(t[id], CancelTable(t, at)[id])
    ensures id in SweepTable(t, at) && Refines(t[id], SweepTable(t, at)[id])
  {
  }

  lemma FailWriteRefines(t: Table, h: Held, w: WorkerId, f: Failure, id: JobId)
    requires id in t && RowOk(t[id])
    requires h.job == id && Fenced(t, id, w) ==> h.attempt == t[id].attempt && h.maxAttempts == t[id].maxAttempts
    ensures id in FailTable(t, h, w, f) && Refines(t[id], FailTable(t, h, w, f)[id])
  {
  }

  lemma FailRefines(s: State, w: WorkerId, f: Failure, id: JobId)
    requires Inv(s) && w in s.held && id in s.jobs
    ensures id in FailStep(s, w, f).jobs && Refines(s.jobs[id], FailStep(s, w, f).jobs[id])
  {
    hide FailTable, Refines;
    assert RowOk(s.jobs[id]);
    if s.held[w].job == id && Fenced(s.jobs, id, w) {
      assert HoldOk(s.held[w], w, s.jobs[id], s.claims[id]);
    }
    FailWriteRefines(s.jobs, s.held[w], w, f, id);
  }

  /** Every step is, on every row, a legal lifecycle edge or a stutter. */
  lemma StepRefines(s: State, step: Step, id: JobId)
    requires Inv(s) && Enabled(s, step) && id in s.jobs
    ensures id in Apply(s, step).jobs && Refines(s.jobs[id], Apply(s, step).jobs[id])
  {
    assert RowOk(s.jobs[id]);
    if step.Fail? {
      FailRefines(s, step.w, step.failure, id);
    } else {
      RememberlessStepRefines(s, step, id);
    }
  }

  lemma RememberlessStepRefines(s: State, step: Step, id: JobId)
    requires Enabled(s, step) && !step.Fail? && id in s.jobs && RowOk(s.jobs[id])
    ensures id in Apply(s, step).jobs && Refines(s.jobs[id], Apply(s, step).jobs[id])
  {
    match step
    case Dequeue(w, lease, _, picked) =>
      if picked == Some(id) {
        ClaimRefines(s.jobs[id], w, s.now, lease);
      }
    case Heartbeat(w, lease) => WritesRefine(s.jobs, id, s.held[w].job, w, s.now, lease, None);
    case Complete(w, resultRef) => WritesRefine(s.jobs, id, s.held[w].job, w, s.now, 0, resultRef);
    case Cancel(at) => WritesRefine(s.jobs, id, at, "", s.now, 0, None);
    case SweepUpdate(at) => WritesRefine(s.jobs, id, at, "", s.now, 0, None);
    case _ =>
  }

  /** Only a dequeue charges an attempt, and a job enters the table with none charged. */
  lemma ChargeIsDispatch(s: State, step: Step, id: JobId)
    requires Enabled(s, step) && id in Apply(s, step).jobs
    ensures Apply(s, step).jobs[id].attempt ==
              (if id in s.jobs then s.jobs[id].attempt else 0) + (if step.Dequeue? && step.picked == Some(id) then 1 else 0)
    ensures id !in s.jobs ==> Fuel(Apply(s, step).jobs[id]) == 2 * Apply(s, step).jobs[id].maxAttempts
  {
  }

  /** How many steps of the run claimed, requeued or finished the job. */
  ghost function ProgressCount(steps: seq<Step>, id: JobId): nat
    requires ValidRun(steps)
    decreases |steps|
  {
    if steps == [] then 0
    else ProgressCount(Front(steps), id) + (if Progressed(Exec(Front(steps)).jobs, Exec(steps).jobs, id) then 1 else 0)
  }

  /** How many steps of the run handed the job to a worker. */
  ghost function DispatchCount(steps: seq<Step>, id: JobId): nat {
    if steps == [] then 0
    else DispatchCount(Front(steps), id) + (if Last(steps).Dequeue? && Last(steps).picked == Some(id) then 1 else 0)
  }

  lemma AbsentMeansIdle(steps: seq<Step>, id: JobId)
    requires ValidRun(steps) && id !in Exec(steps).jobs
    ensures ProgressCount(steps, id) == 0 && DispatchCount(steps, id) == 0
    decreases |steps|
  {
    if steps != [] {
      var before := Exec(Front(steps));
      RunInv(Front(steps));
      if id in before.jobs {
        StepRefines(before, Last(steps), id);
      }
      AbsentMeansIdle(Front(steps), id);
    }
  }

  /** In any run a job is dispatched at most `maxAttempts` times and makes at most twice as many moves. */
  lemma {:induction false} BoundedRetries(steps: seq<Step>, id: JobId)
    requires ValidRun(steps) && id in Exec(steps).jobs
    ensures ProgressCount(steps, id) + Fuel(Exec(steps).jobs[id]) <= 2 * Exec(steps).jobs[id].maxAttempts
    ensures ProgressCount(steps, id) <= 2 * Exec(steps).jobs[id].maxAttempts
    ensures DispatchCount(steps, id) == Exec(steps).jobs[id].attempt <= Exec(steps).jobs[id].maxAttempts
    decreases |steps|
  {
    RunInv(steps);
    assert RowOk(Exec(steps).jobs[id]);
    var before := Exec(Front(steps));
    RunInv(Front(steps));
    ChargeIsDispatch(before, Last(steps), id);
    if id in before.jobs {
      BoundedRetries(Front(steps), id);
      StepRefines(before, Last(steps), id);
    } else {
      AbsentMeansIdle(Front(steps), id);
    }
  }

  // ---------- what lasts from any point of a run to its end ----------

  lemma {:induction false} PrefixValid(steps: seq<Step>, k: nat)
    requires ValidRun(steps) && k <= |steps|
    ensures ValidRun(steps[..k])
    decreases |steps|
  {
    if k < |steps| {
      PrefixValid(Front(steps), k);
      assert Front(steps)[..k] == steps[..k];
    } else {
      assert steps[..k] == steps;
    }
  }

  /** The state after the first `k` steps of a run. */
  ghost function StateAt(steps: seq<Step>, k: nat): State
    requires ValidRun(steps) && k <= |steps|
  {
    PrefixValid(steps, k);
    Exec(steps[..k])
  }

  lemma AtFront(steps: seq<Step>, k: nat)
    requires ValidRun(steps) && k < |steps|
    ensures StateAt(Front(steps), k) == StateAt(steps, k)
    ensures StateAt(steps, |steps| - 1) == Exec(Front(steps)) && StateAt(steps, |steps|) == Exec(steps)
  {
    assert Front(steps)[..k] == steps[..k];
    assert steps[..|steps|] == steps;
  }

  /** A job's row lasts, for the same request; once finished it is never rewritten. */
  lemma {:induction false} RowsLast(steps: seq<Step>, k: nat, id: JobId)
    requires ValidRun(steps) && k <= |steps| && id in StateAt(steps, k).jobs
    ensures id in Exec(steps).jobs
    ensures RequestOf(Exec(steps).jobs[id]) == RequestOf(StateAt(steps, k).jobs[id])
    ensures Exec(steps).jobs[id].createdAt == StateAt(steps, k).jobs[id].createdAt
    ensures Terminal(StateAt(steps, k).jobs[id].state) ==> Exec(steps).jobs[id] == StateAt(steps, k).jobs[id]
    decreases |steps|
  {
    if k < |steps| {
      AtFront(steps, k);
      RowsLast(Front(steps), k, id);
      RunInv(Front(steps));
      StepRefines(Exec(Front(steps)), Last(steps), id);
    } else {
      assert steps[..k] == steps;
    }
  }

  /** An enqueue under a new key inserts the request, queued and uncharged; under a known key it inserts nothing. */
  lemma EnqueueInserts(s: State, id: JobId, req: Request)
    requires Enabled(s, Enqueue(id, req))
    ensures HasDedup(s.jobs, req.dedupKey) ==> Apply(s, Enqueue(id, req)).jobs == s.jobs
    ensures !HasDedup(s.jobs, req.dedupKey) ==>
              var t := Apply(s, Enqueue(id, req)).jobs;
              && t.Keys == s.jobs.Keys + {id} && (forall k :: k in s.jobs ==> t[k] == s.jobs[k])
              && RequestOf(t[id]) == req && t[id].createdAt == s.now
              && t[id].state == Queued && t[id].attempt == 0 && t[id].workerId == None && t[id].leaseExpiresAt == None
              && Claimable(t[id], s.now)
  {
  }

  /** Whatever happens later, the row of a job that an enqueue inserted holds what that enqueue asked for. */
  lemma RequestKept(steps: seq<Step>, k: nat, id: JobId, req: Request)
    requires ValidRun(steps) && k < |steps| && steps[k] == Enqueue(id, req)
    requires !HasDedup(StateAt(steps, k).jobs, req.dedupKey)
    ensures id in Exec(steps).jobs && RequestOf(Exec(steps).jobs[id]) == req
    ensures Exec(steps).jobs[id].createdAt == StateAt(steps, k).now
  {
    hide Inv, Enabled, Apply;
    StepAt(steps, k);
    EnqueueInserts(StateAt(steps, k), id, req);
    RowsLast(steps, k + 1, id);
  }

  /** A cancellation ends a job that is not finished yet, for good, and touches nothing else. */
  lemma CanceledForGood(steps: seq<Step>, k: nat, id: JobId)
    requires ValidRun(steps) && k < |steps| && steps[k] == Cancel(id) && id in StateAt(steps, k).jobs
    ensures id in Exec(steps).jobs && Terminal(Exec(steps).jobs[id].state)
    ensures var j := StateAt(steps, k).jobs[id];
      Exec(steps).jobs[id] == if j.state == Queued || j.state == Running then j.(state := Canceled) else j
    ensures StateAt(steps, k + 1) == StateAt(steps, k).(jobs := StateAt(steps, k).jobs[id := Exec(steps).jobs[id]])
  {
    StepAt(steps, k);
    CancelEnds(StateAt(steps, k), id);
    hide Inv, Enabled, Apply;
    RowsLast(steps, k + 1, id);
  }

  lemma CancelEnds(s: State, id: JobId)
    requires id in s.jobs
    ensures var j := s.jobs[id]; var j' := if j.state == Queued || j.state == Running then j.(state := Canceled) else j;
      Apply(s, Cancel(id)) == s.(jobs := s.jobs[id := j'])
  {
    assert s.jobs[id := s.jobs[id]] == s.jobs;
  }

  /** A dedup key names one job id forever: whatever is enqueued under it later, the first job keeps it. */
  lemma DedupForever(steps: seq<Step>, k: nat, id: JobId, other: JobId)
    requires ValidRun(steps) && k <= |steps|
    requires id in StateAt(steps, k).jobs && other in Exec(steps).jobs
    requires Exec(steps).jobs[other].dedupKey == StateAt(steps, k).jobs[id].dedupKey
    ensures other == id
  {
    RowsLast(steps, k, id);
    RunInv(steps);
  }

  // ---------- the two-phase sweep ----------

  /**
   * Whatever happens between the sweep's SELECT and its UPDATE, a row still found running is the exhausted claim the
   * SELECT saw; and unless that claim's lease was renewed in between, the lease is still lapsed.
   */
  lemma SweepHitsSightedClaim(steps: seq<Step>, id: JobId)
    requires ValidRun(steps) && id in Exec(steps).sighted
    ensures var s := Exec(steps); var sight := s.sighted[id];
      && id in s.jobs
      && s.jobs[id].attempt == s.jobs[id].maxAttempts == sight.attempt
      && (s.jobs[id].state == Running ==> s.jobs[id].workerId == sight.worker)
      && (s.jobs[id].state == Running && s.jobs[id].leaseExpiresAt == sight.leaseExpiresAt ==> Lapsed(s.jobs[id], s.now))
      && (s.jobs[id].state != Running ==> Terminal(s.jobs[id].state) && SweepTable(s.jobs, id) == s.jobs)
  {
    RunInv(steps);
    assert SightOk(Exec(steps).sighted[id], Exec(steps).jobs[id]);
  }

  /** The step is a heartbeat that passes the fence on the row. */
  ghost predicate Beats(s: State, step: Step, id: JobId) {
    step.Heartbeat? && step.w in s.held && s.held[step.w].job == id && Fenced(s.jobs, id, step.w)
  }

  /** How far the last fenced heartbeat since step `k` extended the lease, if there was one. */
  ghost function LastBeat(steps: seq<Step>, k: nat, id: JobId): Option<int>
    requires ValidRun(steps) && k <= |steps|
    decreases |steps|
  {
    if |steps| == k then None
    else if Beats(Exec(Front(steps)), Last(steps), id) then Some(Exec(Front(steps)).now + Last(steps).lease)
    else LastBeat(Front(steps), k, id)
  }

  /** A row that keeps running on one attempt has its lease written by a fenced heartbeat and by nothing else. */
  lemma LeaseWrites(s: State, step: Step, id: JobId)
    requires Enabled(s, step) && id in s.jobs && s.jobs[id].state == Running
    requires id in Apply(s, step).jobs && Apply(s, step).jobs[id].state == Running
    requires Apply(s, step).jobs[id].attempt == s.jobs[id].attempt
    ensures Apply(s, step).jobs[id].workerId == s.jobs[id].workerId
    ensures Apply(s, step).jobs[id].leaseExpiresAt ==
              if Beats(s, step, id) then Some(s.now + step.lease) else s.jobs[id].leaseExpiresAt
  {
  }

  lemma SightedRow(s: State, id: JobId)
    requires Inv(s) && id in s.sighted
    ensures id in s.jobs && SightOk(s.sighted[id], s.jobs[id])
  {
  }

  /** Attempts only grow and the maximum is fixed, from any point of a run to its end. */
  lemma {:induction false} AttemptsGrow(steps: seq<Step>, k: nat, id: JobId)
    requires ValidRun(steps) && k <= |steps| && id in StateAt(steps, k).jobs
    ensures id in Exec(steps).jobs && StateAt(steps, k).now <= Exec(steps).now
    ensures StateAt(steps, k).jobs[id].attempt <= Exec(steps).jobs[id].attempt
    ensures StateAt(steps, k).jobs[id].maxAttempts == Exec(steps).jobs[id].maxAttempts
    decreases |steps|
  {
    hide Inv, Enabled, Apply;
    if k < |steps| {
      AtFront(steps, k);
      AttemptsGrow(Front(steps), k, id);
      RunInv(Front(steps));
      StepRefines(Exec(Front(steps)), Last(steps), id);
      TimePasses(Exec(Front(steps)), Last(steps));
    } else {
      assert steps[..k] == steps;
    }
  }

  /**
   * A row that ends up running on the attempt it had after `k` steps ran throughout, under one worker, and its lease is
   * the one it had then, or the one the last fenced heartbeat since gave it.
   */
  lemma {:induction false} AttemptLease(steps: seq<Step>, k: nat, id: JobId)
    requires ValidRun(steps) && k <= |steps| && id in StateAt(steps, k).jobs && id in Exec(steps).jobs
    requires Exec(steps).jobs[id].state == Running
    requires Exec(steps).jobs[id].attempt == StateAt(steps, k).jobs[id].attempt
    ensures StateAt(steps, k).jobs[id].state == Running
    ensures Exec(steps).jobs[id].workerId == StateAt(steps, k).jobs[id].workerId
    ensures Exec(steps).jobs[id].leaseExpiresAt ==
              if LastBeat(steps, k, id).Some? then LastBeat(steps, k, id) else StateAt(steps, k).jobs[id].leaseExpiresAt
    decreases |steps|
  {
    hide Inv, Enabled, Apply, Beats;
    if k < |steps| {
      AtFront(steps, k);
      AttemptsGrow(Front(steps), k, id);
      RunInv(Front(steps));
      StepRefines(Exec(Front(steps)), Last(steps), id);
      LeaseWrites(Exec(Front(steps)), Last(steps), id);
      AttemptLease(Front(steps), k, id);
    } else {
      assert steps[..k] == steps;
    }
  }

  lemma SightedLease(steps: seq<Step>, k: nat, id: JobId)
    requires ValidRun(steps) && k <= |steps| && id in StateAt(steps, k).sighted
    requires id in Exec(steps).jobs && Exec(steps).jobs[id].state == Running
    ensures StateAt(steps, k).now <= Exec(steps).now && id in StateAt(steps, k).jobs
    ensures Exec(steps).jobs[id].leaseExpiresAt ==
              if LastBeat(steps, k, id).Some? then LastBeat(steps, k, id) else StateAt(steps, k).jobs[id].leaseExpiresAt
  {
    hide Inv, Enabled, Apply, Beats;
    SightedLasts(steps, k, id);
    PrefixValid(steps, k);
    RunInv(steps[..k]);
    RunInv(steps);
    SightedRow(StateAt(steps, k), id);
    SightedRow(Exec(steps), id);
    AttemptsGrow(steps, k, id);
    AttemptLease(steps, k, id);
  }

  lemma TimePasses(s: State, step: Step)
    requires Enabled(s, step)
    ensures s.now <= Apply(s, step).now && s.sighted.Keys <= Apply(s, step).sighted.Keys
  {
  }

  lemma {:induction false} SightedLasts(steps: seq<Step>, k: nat, id: JobId)
    requires ValidRun(steps) && k <= |steps| && id in StateAt(steps, k).sighted
    ensures id in Exec(steps).sighted
    decreases |steps|
  {
    hide Enabled, Apply;
    if k < |steps| {
      AtFront(steps, k);
      SightedLasts(Front(steps), k, id);
      TimePasses(Exec(Front(steps)), Last(steps));
    } else {
      assert steps[..k] == steps;
    }
  }

  /**
   * The sweep selected a zombie at step `k` and is about to write to it. Its lease is live then, and the write fails a
   * job that is being worked on, exactly when a fenced heartbeat since the SELECT, the last of them, reaches `now`.
   */
  lemma SweepHitsLiveExactly(steps: seq<Step>, k: nat, id: JobId)
    requires ValidRun(steps) && k < |steps| && steps[k] == SweepSelect
    requires id in StateAt(steps, k).jobs && Zombie(StateAt(steps, k).jobs[id], StateAt(steps, k).now)
    requires id in Exec(steps).jobs && Exec(steps).jobs[id].state == Running
    ensures SweepTable(Exec(steps).jobs, id)[id].state == Failed
    ensures !Lapsed(Exec(steps).jobs[id], Exec(steps).now) <==>
              LastBeat(steps, k + 1, id).Some? && LastBeat(steps, k + 1, id).value >= Exec(steps).now
  {
    StepAt(steps, k);
    SightedLease(steps, k + 1, id);
  }

  lemma {:induction false} StepAt(steps: seq<Step>, k: nat)
    requires ValidRun(steps) && k < |steps|
    ensures Enabled(StateAt(steps, k), steps[k]) && StateAt(steps, k + 1) == Apply(StateAt(steps, k), steps[k])
  {
    PrefixValid(steps, k + 1);
    assert Front(steps[..k + 1]) == steps[..k] && Last(steps[..k + 1]) == steps[k];
  }

  // ---------- a claim protects its holder ----------

  /** How long the claim made by step `k` holds: its own lease, or as far as the last fenced heartbeat since. */
  ghost function LeaseEnd(steps: seq<Step>, k: nat, id: JobId): int
    requires ValidRun(steps) && k < |steps| && steps[k].Dequeue?
  {
    if LastBeat(steps, k + 1, id).Some? then LastBeat(steps, k + 1, id).value
    else StateAt(steps, k).now + steps[k].lease
  }

  /** The row, once claimed by step `k`, is still running on that attempt. */
  ghost predicate StillOn(steps: seq<Step>, k: nat, id: JobId)
    requires ValidRun(steps) && k < |steps|
  {
    && id in StateAt(steps, k + 1).jobs && id in Exec(steps).jobs
    && Exec(steps).jobs[id].state == Running
    && Exec(steps).jobs[id].attempt == StateAt(steps, k + 1).jobs[id].attempt
  }

  lemma ClaimWrites(s: State, step: Step, id: JobId)
    requires Enabled(s, step) && step.Dequeue? && step.picked == Some(id)
    ensures id in s.jobs && id in Apply(s, step).jobs
    ensures var j := Apply(s, step).jobs[id];
      && j.state == Running && j.attempt == s.jobs[id].attempt + 1
      && j.workerId == Some(step.w) && j.leaseExpiresAt == Some(s.now + step.lease)
  {
  }

  /**
   * While the claimed row runs on the claim's attempt it is its claimant's, and it is up for neither another claim nor
   * the sweep exactly until the claim's lease, as extended by the last fenced heartbeat, is over.
   */
  lemma ClaimProtects(steps: seq<Step>, k: nat, id: JobId)
    requires ValidRun(steps) && k < |steps| && steps[k].Dequeue? && steps[k].picked == Some(id)
    requires StillOn(steps, k, id)
    ensures var j := Exec(steps).jobs[id]; var now := Exec(steps).now;
      && j.workerId == Some(steps[k].w)
      && j.leaseExpiresAt == Some(LeaseEnd(steps, k, id))
      && (now <= LeaseEnd(steps, k, id) <==> !Claimable(j, now) && !Zombie(j, now))
  {
    hide Inv, Enabled, Apply, Beats;
    StepAt(steps, k);
    ClaimWrites(StateAt(steps, k), steps[k], id);
    AttemptLease(steps, k + 1, id);
  }

  /** Only its claimant can send a running job back to the queue, by a failure that passes the fence. */
  lemma RequeueIsFail(s: State, step: Step, id: JobId)
    requires Enabled(s, step) && id in s.jobs && s.jobs[id].state == Running
    requires id in Apply(s, step).jobs && Apply(s, step).jobs[id].state == Queued
    ensures step.Fail? && Fenced(s.jobs, id, step.w)
  {
  }

  /** A job back in the queue on the attempt it was running on was sent back by the worker that held it. */
  lemma {:induction false} GivenUp(steps: seq<Step>, k: nat, id: JobId) returns (n: nat)
    requires ValidRun(steps) && k <= |steps| && id in StateAt(steps, k).jobs && id in Exec(steps).jobs
    requires StateAt(steps, k).jobs[id].state == Running && Exec(steps).jobs[id].state == Queued
    requires Exec(steps).jobs[id].attempt == StateAt(steps, k).jobs[id].attempt
    ensures k <= n < |steps| && steps[n].Fail? && StateAt(steps, k).jobs[id].workerId == Some(steps[n].w)
    decreases |steps|
  {
    hide Inv, Enabled, Apply, Beats;
    assert steps[..|steps|] == steps;
    var before := Exec(Front(steps));
    AtFront(steps, k);
    AttemptsGrow(Front(steps), k, id);
    RunInv(Front(steps));
    StepRefines(before, Last(steps), id);
    if before.jobs[id].state == Running {
      AttemptLease(Front(steps), k, id);
      RequeueIsFail(before, Last(steps), id);
      n := |steps| - 1;
    } else {
      n := GivenUp(Front(steps), k, id);
    }
  }

  /**
   * Mutual exclusion under a lease: when a job claimed by step `k` is handed out again by step `m`, the claim's lease,
   * as extended by its holder's heartbeats, is over, or the holder itself gave the job back in between.
   */
  lemma NextClaimWaits(steps: seq<Step>, k: nat, m: nat, id: JobId)
    requires ValidRun(steps) && k < m < |steps|
    requires steps[k].Dequeue? && steps[k].picked == Some(id) && steps[m].Dequeue? && steps[m].picked == Some(id)
    requires id in StateAt(steps, k + 1).jobs && id in StateAt(steps, m).jobs
    requires StateAt(steps, m).jobs[id].attempt == StateAt(steps, k + 1).jobs[id].attempt
    ensures ValidRun(steps[..m])
    ensures || StateAt(steps, m).now > LeaseEnd(steps[..m], k, id)
            || exists n :: k < n < m && steps[n].Fail? && steps[n].w == steps[k].w
  {
    hide Inv, Enabled, Apply, Beats;
    PrefixValid(steps, m);
    var run := steps[..m];
    assert run[..k] == steps[..k] && run[..k + 1] == steps[..k + 1];
    StepAt(steps, k);
    StepAt(steps, m);
    ClaimWrites(StateAt(steps, k), steps[k], id);
    PickedClaimable(StateAt(steps, m), steps[m], id);
    if Exec(run).jobs[id].state == Running {
      ClaimProtects(run, k, id);
    } else {
      var n := GivenUp(run, k + 1, id);
      assert run[n] == steps[n];
    }
  }

  lemma PickedClaimable(s: State, step: Step, id: JobId)
    requires Enabled(s, step) && step.Dequeue? && step.picked == Some(id)
    ensures id in s.jobs && Claimable(s.jobs[id], s.now)
  {
  }

  /** Whatever else happens, a row the sweep selected and has written to is terminal for good. */
  lemma SweptForGood(steps: seq<Step>, k: nat, m: nat, id: JobId)
    requires ValidRun(steps) && k < m < |steps| && steps[k] == SweepSelect && steps[m] == SweepUpdate(id)
    requires id in StateAt(steps, k).jobs && Zombie(StateAt(steps, k).jobs[id], StateAt(steps, k).now)
    ensures id in StateAt(steps, m + 1).jobs && Terminal(StateAt(steps, m + 1).jobs[id].state)
    ensures id in Exec(steps).jobs && Exec(steps).jobs[id] == StateAt(steps, m + 1).jobs[id]
  {
    hide Inv, Enabled, Apply, Zombie;
    StepAt(steps, k);
    StepAt(steps, m);
    PrefixValid(steps, m);
    assert steps[..m][..k + 1] == steps[..k + 1];
    SelectSights(StateAt(steps, k), id);
    SightedLasts(steps[..m], k + 1, id);
    RunInv(steps[..m]);
    SweepEnds(StateAt(steps, m), id);
    RowsLast(steps, m + 1, id);
  }

  lemma SelectSights(s: State, id: JobId)
    requires id in s.jobs && Zombie(s.jobs[id], s.now)
    ensures id in Apply(s, SweepSelect).sighted
  {
  }

  lemma SweepEnds(s: State, id: JobId)
    requires Inv(s) && id in s.sighted
    ensures id in Apply(s, SweepUpdate(id)).jobs && Terminal(Apply(s, SweepUpdate(id)).jobs[id].state)
  {
    SightedRow(s, id);
  }

  const LoneJob := NewJob(Request("build", None, "k", 1), 0)
  const LoneClaim := Claim(LoneJob, "w", 0, 5)

  /** One job with a single attempt, claimed by one worker. */
  const ClaimedOnce := State(map[0 := LoneClaim], 0, map["w" := Held(0, 1, 1)], map[], map[0 := ["w"]], map[])

  lemma ClaimedOnceReachable() returns (steps: seq<Step>)
    ensures ValidRun(steps) && Exec(steps) == ClaimedOnce
  {
    var s1 := Initial.(jobs := map[0 := LoneJob], claims := map[0 := []]);
    steps := Then([], Initial, Enqueue(0, Request("build", None, "k", 1)), s1);
    assert [] + ["w"] == ["w"] && s1.claims[0 := ["w"]] == ClaimedOnce.claims;
    assert s1.jobs[0 := LoneClaim] == ClaimedOnce.jobs && s1.held["w" := Held(0, 1, 1)] == ClaimedOnce.held;
    steps := Then(steps, s1, Dequeue("w", 5, {}, Some(0)), ClaimedOnce);
  }

  /** A heartbeat between the two halves is not noticed: this run dead-letters a job whose lease is live. */
  lemma SweepCanFailLiveLease() returns (steps: seq<Step>)
    ensures ValidRun(steps) && 0 in Exec(steps).sighted && 0 in Exec(steps).jobs
    ensures Exec(steps).jobs[0].state == Running && !Lapsed(Exec(steps).jobs[0], Exec(steps).now)
    ensures SweepTable(Exec(steps).jobs, 0)[0].state == Failed
  {
    steps := ClaimedOnceReachable();
    var s3 := ClaimedOnce.(now := 10);
    var s4 := s3.(sighted := map[0 := Sighting(Some("w"), 1, Some(5))]);
    var s5 := s4.(jobs := map[0 := LoneClaim.(heartbeatAt := Some(10), leaseExpiresAt := Some(15))]);
    steps := Then(steps, ClaimedOnce, Tick(10), s3);
    assert s3.sighted + Sightings(s3.jobs, 10) == s4.sighted;
    steps := Then(steps, s3, SweepSelect, s4);
    steps := Then(steps, s4, Heartbeat("w", 5), s5);
  }

  lemma Then(steps: seq<Step>, s: State, step: Step, s': State) returns (more: seq<Step>)
    requires ValidRun(steps) && Exec(steps) == s && Enabled(s, step) && Apply(s, step) == s'
    ensures ValidRun(more) && Exec(more) == s'
  {
    more := steps + [step];
    assert Front(more) == steps;
  }

  // ---------- the lifecycle is exactly what the queue does ----------

  /** Which steps move a job from one state to another. */
  predicate Moves(s: State, step: Step, id: JobId, frm: JobState, to: JobState) {
    match (frm, to)
    case (Queued, Running) => step.Dequeue? && step.picked == Some(id)
    case (Running, Succeeded) => step.Complete? && Fenced(s.jobs, id, step.w)
    case (Running, Failed) => (step.Fail? && Fenced(s.jobs, id, step.w)) || step == SweepUpdate(id)
    case (Running, Queued) => step.Fail? && Fenced(s.jobs, id, step.w)
    case (Queued, Canceled) => step == Cancel(id)
    case (Running, Canceled) => step == Cancel(id)
    case _ => false
  }

  /** A job changes state by these steps only. */
  lemma MovesOnly(s: State, step: Step, id: JobId)
    requires Enabled(s, step) && id in s.jobs
    ensures id in Apply(s, step).jobs
    ensures s.jobs[id].state != Apply(s, step).jobs[id].state ==>
              Moves(s, step, id, s.jobs[id].state, Apply(s, step).jobs[id].state)
  {
    hide HasDedup, Lapsed;
    match step
    case Fail(w, f) => assert s.held[w].job != id ==> Apply(s, step).jobs[id] == s.jobs[id];
    case Complete(w, _) => assert s.held[w].job != id ==> Apply(s, step).jobs[id] == s.jobs[id];
    case Heartbeat(w, _) => assert Apply(s, step).jobs[id].state == s.jobs[id].state;
    case _ =>
  }

  const TwiceJob := NewJob(Request("build", None, "k", 2), 0)
  const TwiceQueued := Initial.(jobs := map[0 := TwiceJob], claims := map[0 := []])
  const TwiceClaim := Claim(TwiceJob, "w", 0, 5)
  const TwiceClaimed := State(map[0 := TwiceClaim], 0, map["w" := Held(0, 1, 2)], map[], map[0 := ["w"]], map[])

  lemma TwiceReachable() returns (queued: seq<Step>, claimed: seq<Step>)
    ensures ValidRun(queued) && Exec(queued) == TwiceQueued && ValidRun(claimed) && Exec(claimed) == TwiceClaimed
    ensures Enabled(TwiceQueued, Dequeue("w", 5, {}, Some(0)))
    ensures Apply(TwiceQueued, Dequeue("w", 5, {}, Some(0))) == TwiceClaimed
  {
    queued := Then([], Initial, Enqueue(0, Request("build", None, "k", 2)), TwiceQueued);
    assert [] + ["w"] == ["w"] && TwiceQueued.claims[0 := ["w"]] == TwiceClaimed.claims;
    assert TwiceQueued.jobs[0 := TwiceClaim] == TwiceClaimed.jobs;
    assert TwiceQueued.held["w" := Held(0, 1, 2)] == TwiceClaimed.held;
    claimed := Then(queued, TwiceQueued, Dequeue("w", 5, {}, Some(0)), TwiceClaimed);
  }

  /** No edge of the lifecycle is dead: some run takes it. */
  lemma EveryEdgeTaken(frm: JobState, to: JobState) returns (steps: seq<Step>, step: Step)
    requires CanTransition(frm, to)
    ensures ValidRun(steps) && Enabled(Exec(steps), step)
    ensures 0 in Exec(steps).jobs && Exec(steps).jobs[0].state == frm
    ensures 0 in Apply(Exec(steps), step).jobs && Apply(Exec(steps), step).jobs[0].state == to
  {
    var queued, claimed := TwiceReachable();
    match to
    case Running => steps, step := queued, Dequeue("w", 5, {}, Some(0));
    case Succeeded => steps, step := claimed, Complete("w", None);
    case Failed => steps, step := claimed, Fail("w", Failure("c", true, map[]));
    case Queued => steps, step := claimed, Fail("w", Failure("c", false, map[]));
    case Canceled => steps, step := if frm == Queued then queued else claimed, Cancel(0);
  }
}
