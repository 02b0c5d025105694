/**
 * The queue protocol: any number of workers, a reconciler sweep split into its read and its writes, cancellation and
 * a clock, interleaved one database transaction at a time. `claims` and `finishes` record history; no step reads them.
 */
module JobProtocol {
  import opened Prelude
  import opened JobModel

  /** What the sweep's SELECT saw of a row. */
  datatype Sighting = Sighting(worker: Option<WorkerId>, attempt: nat, leaseExpiresAt: Option<int>)

  /** Who completed a job, on which attempt of theirs, with what result. */
  datatype Finish = Finish(worker: WorkerId, attempt: nat, resultRef: Option<string>)

  datatype State = State(
    jobs: Table, now: int,
    held: map<WorkerId, Held>,          // at most one in-flight job per worker
    sighted: map<JobId, Sighting>,      // every id some sweep has selected and may still write to
    claims: map<JobId, seq<WorkerId>>,  // who claimed each job, in order
    finishes: map<JobId, Finish>)

  const Initial := State(map[], 0, map[], map[], map[], map[])

  datatype Step =
    | Tick(later: int)
    | Enqueue(id: JobId, req: Request)
    | Dequeue(w: WorkerId, lease: nat, locked: set<JobId>, picked: Option<JobId>)
    | Heartbeat(w: WorkerId, lease: nat)
    | Complete(w: WorkerId, resultRef: Option<string>)
    | Fail(w: WorkerId, failure: Failure)
    | Lose(w: WorkerId)
    | Cancel(id: JobId)
    | SweepSelect
    | SweepUpdate(id: JobId)

  ghost predicate Enabled(s: State, step: Step) {
    match step
    case Tick(later) => s.now <= later
    case Enqueue(id, req) => id !in s.jobs && req.maxAttempts >= 1
    case Dequeue(w, _, locked, picked) =>
      && w !in s.held
      && (picked.Some? ==> OldestClaimable(s.jobs, s.now, locked, picked.value))
      && (picked.None? ==> NothingClaimable(s.jobs, s.now, locked))
    case Heartbeat(w, _) => w in s.held
    case Complete(w, _) => w in s.held
    case Fail(w, _) => w in s.held
    case Lose(w) => w in s.held
    case Cancel(_) => true
    case SweepSelect => true
    case SweepUpdate(id) => id in s.sighted
  }

  ghost function Sightings(t: Table, now: int): map<JobId, Sighting> {
    map id | id in t && Zombie(t[id], now) :: Sighting(t[id].workerId, t[id].attempt, t[id].leaseExpiresAt)
  }

  ghost function ClaimStep(s: State, w: WorkerId, lease: nat, id: JobId): State
    requires id in s.jobs
  {
    var row := Claim(s.jobs[id], w, s.now, lease);
    s.(jobs := s.jobs[id := row],
       held := s.held[w := Held(id, row.attempt, row.maxAttempts)],
       claims := s.claims[id := (if id in s.claims then s.claims[id] else []) + [w]])
  }

  ghost function CompleteStep(s: State, w: WorkerId, resultRef: Option<string>): State
    requires w in s.held
  {
    var h := s.held[w];
    s.(jobs := CompleteTable(s.jobs, h.job, w, resultRef),
       held := s.held - {w},
       finishes := if Fenced(s.jobs, h.job, w)
         then s.finishes[h.job := Finish(w, h.attempt, resultRef)] else s.finishes)
  }

  ghost function FailStep(s: State, w: WorkerId, f: Failure): State
    requires w in s.held
  {
    s.(jobs := FailTable(s.jobs, s.held[w], w, f), held := s.held - {w})
  }

  ghost function EnqueueStep(s: State, id: JobId, req: Request): State {
    s.(jobs := EnqueueTable(s.jobs, id, req, s.now),
       claims := if HasDedup(s.jobs, req.dedupKey) then s.claims else s.claims[id := []])
  }

  ghost function Apply(s: State, step: Step): State
    requires Enabled(s, step)
  {
    match step
    case Tick(later) => s.(now := later)
    case Enqueue(id, req) => EnqueueStep(s, id, req)
    case Dequeue(w, lease, _, picked) => if picked.None? then s else ClaimStep(s, w, lease, picked.value)
    case Heartbeat(w, lease) => s.(jobs := HeartbeatTable(s.jobs, s.held[w].job, w, s.now, lease))
    case Complete(w, resultRef) => CompleteStep(s, w, resultRef)
    case Fail(w, f) => FailStep(s, w, f)
    case Lose(w) => s.(held := s.held - {w})
    case Cancel(id) => s.(jobs := CancelTable(s.jobs, id))
    case SweepSelect => s.(sighted := s.sighted + Sightings(s.jobs, s.now))
    case SweepUpdate(id) => s.(jobs := SweepTable(s.jobs, id))
  }

  // ---------- the invariant ----------

  predicate RowOk(j: Job) {
    && j.attempt <= j.maxAttempts
    && (j.state == Queued ==> j.attempt < j.maxAttempts)
    && (j.state == Running ==> j.leaseExpiresAt.Some? && j.workerId.Some? && j.attempt >= 1)
  }

  ghost predicate RowsOk(s: State) {
    forall id :: id in s.jobs ==> RowOk(s.jobs[id])
  }

  ghost predicate DedupUnique(t: Table) {
    forall a, b :: a in t && b in t && t[a].dedupKey == t[b].dedupKey ==> a == b
  }

  /** The history of a row: one claim per charged attempt, and a running row belongs to its latest claimant. */
  predicate HistoryOk(j: Job, claims: seq<WorkerId>) {
    && |claims| == j.attempt
    && (j.state == Running ==> |claims| > 0 && j.workerId == Some(claims[|claims| - 1]))
  }

  ghost predicate HistoriesOk(s: State) {
    && s.claims.Keys == s.jobs.Keys
    && forall id :: id in s.jobs ==> HistoryOk(s.jobs[id], s.claims[id])
  }

  /** A held job was claimed by its holder on that attempt; if the row still bears the holder, it is that attempt. */
  predicate HoldOk(h: Held, w: WorkerId, j: Job, claims: seq<WorkerId>) {
    && 1 <= h.attempt <= j.attempt
    && h.maxAttempts == j.maxAttempts
    && h.attempt <= |claims| && claims[h.attempt - 1] == w
    && (j.state == Running && j.workerId == Some(w) ==> j.attempt == h.attempt)
  }

  ghost predicate HoldsOk(s: State) {
    forall w :: w in s.held ==>
      var id := s.held[w].job;
      id in s.jobs && id in s.claims && HoldOk(s.held[w], w, s.jobs[id], s.claims[id])
  }

  /** A sighted row is exhausted for good: the same attempt, the same owner while it runs, never queued again. */
  predicate SightOk(sight: Sighting, j: Job) {
    && j.state != Queued
    && j.attempt == j.maxAttempts == sight.attempt
    && (j.state == Running ==> j.workerId == sight.worker)
  }

  ghost predicate SightsOk(s: State) {
    forall id :: id in s.sighted ==>
      && id in s.jobs && SightOk(s.sighted[id], s.jobs[id])
      && s.sighted[id].leaseExpiresAt.Some? && s.sighted[id].leaseExpiresAt.value < s.now
  }

  /** A succeeded row carries the result of its latest claim. */
  predicate FinishOk(j: Job, claims: seq<WorkerId>, f: Finish) {
    |claims| > 0 && f == Finish(claims[|claims| - 1], j.attempt, j.resultRef)
  }

  ghost predicate FinishesOk(s: State) {
    forall id :: id in s.jobs && s.jobs[id].state == Succeeded ==>
      id in s.finishes && id in s.claims && FinishOk(s.jobs[id], s.claims[id], s.finishes[id])
  }

  ghost predicate Inv(s: State) {
    RowsOk(s) && DedupUnique(s.jobs) && HistoriesOk(s) && HoldsOk(s) && SightsOk(s) && FinishesOk(s)
  }

  // ---------- every step keeps it ----------

  /**
   * A write to one row that charges no attempt: everything but the lifecycle columns stays, a running row was
   * already running under the same worker, and a sighted row is not put back in the queue.
   */
  ghost predicate Rewrite(s: State, s': State, id: JobId) {
    && id in s.jobs
    && (var j' := if id in s'.jobs then s'.jobs[id] else s.jobs[id];
        && s'.jobs == s.jobs[id := j']
        && RowOk(j')
        && j'.dedupKey == s.jobs[id].dedupKey && j'.attempt == s.jobs[id].attempt && j'.maxAttempts == s.jobs[id].maxAttempts
        && (j'.state == Running ==> s.jobs[id].state == Running && j'.workerId == s.jobs[id].workerId)
        && (id in s.sighted ==> j'.state != Queued)
        && (j'.state == Succeeded ==> id in s.claims && id in s'.finishes && FinishOk(j', s.claims[id], s'.finishes[id])))
    && s'.claims == s.claims && s'.sighted == s.sighted && s'.now == s.now
    && s'.held.Keys <= s.held.Keys && (forall w :: w in s'.held ==> s'.held[w] == s.held[w])
    && (forall k :: k in s.finishes && k != id ==> k in s'.finishes && s'.finishes[k] == s.finishes[k])
  }

  lemma RewriteRows(s: State, s': State, id: JobId)
    requires RowsOk(s) && DedupUnique(s.jobs) && Rewrite(s, s', id)
    ensures RowsOk(s') && DedupUnique(s'.jobs)
  {
  }

  lemma RewriteHistories(s: State, s': State, id: JobId)
    requires HistoriesOk(s) && Rewrite(s, s', id)
    ensures HistoriesOk(s')
  {
  }

  lemma RewriteHolds(s: State, s': State, id: JobId)
    requires HoldsOk(s) && Rewrite(s, s', id)
    ensures HoldsOk(s')
  {
  }

  lemma RewriteSights(s: State, s': State, id: JobId)
    requires SightsOk(s) && Rewrite(s, s', id)
    ensures SightsOk(s')
  {
  }

  lemma RewriteFinishes(s: State, s': State, id: JobId)
    requires FinishesOk(s) && Rewrite(s, s', id)
    ensures FinishesOk(s')
  {
  }

  lemma RewriteKeepsInv(s: State, s': State, id: JobId)
    requires Inv(s) && Rewrite(s, s', id)
    ensures Inv(s')
  {
    RewriteRows(s, s', id);
    RewriteHistories(s, s', id);
    RewriteHolds(s, s', id);
    RewriteSights(s, s', id);
    RewriteFinishes(s, s', id);
  }

  lemma ClaimKeepsRows(s: State, w: WorkerId, lease: nat, id: JobId)
    requires RowsOk(s) && DedupUnique(s.jobs) && HistoriesOk(s) && id in s.jobs && Claimable(s.jobs[id], s.now)
    ensures var s' := ClaimStep(s, w, lease, id); RowsOk(s') && DedupUnique(s'.jobs) && HistoriesOk(s')
  {
  }

  /** Whoever else holds this job now holds a stale attempt. */
  lemma ClaimKeepsHolds(s: State, w: WorkerId, lease: nat, id: JobId)
    requires HistoriesOk(s) && HoldsOk(s) && w !in s.held && id in s.jobs && Claimable(s.jobs[id], s.now)
    ensures HoldsOk(ClaimStep(s, w, lease, id))
  {
    var s' := ClaimStep(s, w, lease, id);
    forall v | v in s'.held
      ensures s'.held[v].job in s'.jobs && s'.held[v].job in s'.claims
      ensures HoldOk(s'.held[v], v, s'.jobs[s'.held[v].job], s'.claims[s'.held[v].job])
    {
      if v != w {
        assert v in s.held && s'.held[v] == s.held[v];
      }
    }
  }

  /** An exhausted or terminal row is never claimed. */
  lemma ClaimKeepsSights(s: State, w: WorkerId, lease: nat, id: JobId)
    requires SightsOk(s) && FinishesOk(s) && HistoriesOk(s) && id in s.jobs && Claimable(s.jobs[id], s.now)
    ensures var s' := ClaimStep(s, w, lease, id); SightsOk(s') && FinishesOk(s')
  {
    assert id !in s.sighted;
  }

  lemma EnqueueKeepsRows(s: State, id: JobId, req: Request)
    requires RowsOk(s) && DedupUnique(s.jobs) && HistoriesOk(s)
    requires id !in s.jobs && req.maxAttempts >= 1
    ensures var s' := EnqueueStep(s, id, req); RowsOk(s') && DedupUnique(s'.jobs) && HistoriesOk(s')
  {
    if !HasDedup(s.jobs, req.dedupKey) {
      assert forall k :: k in s.jobs ==> s.jobs[k].dedupKey != req.dedupKey;
    }
  }

  lemma EnqueueKeepsRest(s: State, id: JobId, req: Request)
    requires HistoriesOk(s) && HoldsOk(s) && SightsOk(s) && FinishesOk(s) && id !in s.jobs
    ensures var s' := EnqueueStep(s, id, req); HoldsOk(s') && SightsOk(s') && FinishesOk(s')
  {
  }

  lemma EnqueueKeepsInv(s: State, id: JobId, req: Request)
    requires Inv(s) && id !in s.jobs && req.maxAttempts >= 1
    ensures Inv(EnqueueStep(s, id, req))
  {
    EnqueueKeepsRows(s, id, req);
    EnqueueKeepsRest(s, id, req);
  }

  /** The fence: a write that passes it acts on the attempt its worker holds, which is the latest claim. */
  lemma FenceHolds(s: State, w: WorkerId)
    requires Inv(s) && w in s.held && Fenced(s.jobs, s.held[w].job, w)
    ensures s.jobs[s.held[w].job].attempt == s.held[w].attempt == |s.claims[s.held[w].job]|
    ensures s.claims[s.held[w].job][s.held[w].attempt - 1] == w
  {
    assert HoldOk(s.held[w], w, s.jobs[s.held[w].job], s.claims[s.held[w].job]);
    assert HistoryOk(s.jobs[s.held[w].job], s.claims[s.held[w].job]);
  }

  /** A holder whose attempt is no longer the row's cannot write to it. */
  lemma StaleHolderWritesNothing(s: State, w: WorkerId, resultRef: Option<string>, f: Failure, lease: nat)
    requires HoldsOk(s) && w in s.held && s.held[w].attempt != s.jobs[s.held[w].job].attempt
    ensures CompleteTable(s.jobs, s.held[w].job, w, resultRef) == s.jobs
    ensures FailTable(s.jobs, s.held[w], w, f) == s.jobs
    ensures HeartbeatTable(s.jobs, s.held[w].job, w, s.now, lease) == s.jobs
  {
  }

  /** What the invariant says of the row a worker holds. */
  lemma HeldRow(s: State, w: WorkerId)
    requires Inv(s) && w in s.held
    ensures var id := s.held[w].job;
      && id in s.jobs && id in s.claims && RowOk(s.jobs[id])
      && HoldOk(s.held[w], w, s.jobs[id], s.claims[id]) && HistoryOk(s.jobs[id], s.claims[id])
      && (id in s.sighted ==> SightOk(s.sighted[id], s.jobs[id]))
      && (s.jobs[id].state == Succeeded ==> id in s.finishes && FinishOk(s.jobs[id], s.claims[id], s.finishes[id]))
  {
  }

  lemma CompleteKeepsInv(s: State, w: WorkerId, resultRef: Option<string>)
    requires Inv(s) && w in s.held
    ensures Inv(CompleteStep(s, w, resultRef))
  {
    hide RowsOk, DedupUnique, HistoriesOk, HoldsOk, SightsOk, FinishesOk;
    HeldRow(s, w);
    var s' := CompleteStep(s, w, resultRef);
    assert Rewrite(s, s', s.held[w].job);
    RewriteKeepsInv(s, s', s.held[w].job);
  }

  /** A requeue is safe because the snapshot's attempt is the row's. */
  lemma FailKeepsInv(s: State, w: WorkerId, f: Failure)
    requires Inv(s) && w in s.held
    ensures Inv(FailStep(s, w, f))
  {
    hide RowsOk, DedupUnique, HistoriesOk, HoldsOk, SightsOk, FinishesOk;
    HeldRow(s, w);
    var s' := FailStep(s, w, f);
    assert Rewrite(s, s', s.held[w].job);
    RewriteKeepsInv(s, s', s.held[w].job);
  }

  lemma SelectKeepsInv(s: State)
    requires Inv(s)
    ensures Inv(s.(sighted := s.sighted + Sightings(s.jobs, s.now)))
  {
    forall id | id in Sightings(s.jobs, s.now) ensures SightOk(Sightings(s.jobs, s.now)[id], s.jobs[id]) {
      assert RowOk(s.jobs[id]);
    }
  }

  /** A heartbeat, a cancellation or a sweep write: either it takes effect on one row, or it changes nothing. */
  lemma RowWriteKeepsInv(s: State, id: JobId, j': Job, t': Table)
    requires Inv(s) && id in s.jobs && t' == s.jobs[id := j']
    requires j'.dedupKey == s.jobs[id].dedupKey && j'.attempt == s.jobs[id].attempt
    requires j'.maxAttempts == s.jobs[id].maxAttempts
    requires
      || j'.state in {Failed, Canceled}
      || (j'.state == Running == s.jobs[id].state && j'.workerId == s.jobs[id].workerId && j'.leaseExpiresAt.Some?)
    ensures Inv(s.(jobs := t'))
  {
    assert RowOk(s.jobs[id]);
    assert id in s.sighted ==> SightOk(s.sighted[id], s.jobs[id]);
    assert Rewrite(s, s.(jobs := t'), id);
    RewriteKeepsInv(s, s.(jobs := t'), id);
  }

  lemma HeartbeatKeepsInv(s: State, w: WorkerId, lease: nat)
    requires Inv(s) && w in s.held
    ensures Inv(s.(jobs := HeartbeatTable(s.jobs, s.held[w].job, w, s.now, lease)))
  {
    var id := s.held[w].job;
    var t' := HeartbeatTable(s.jobs, id, w, s.now, lease);
    if Fenced(s.jobs, id, w) {
      RowWriteKeepsInv(s, id, t'[id], t');
    } else {
      assert s.(jobs := t') == s;
    }
  }

  lemma CancelKeepsInv(s: State, id: JobId)
    requires Inv(s)
    ensures Inv(s.(jobs := CancelTable(s.jobs, id)))
  {
    var t' := CancelTable(s.jobs, id);
    if id in s.jobs && CanTransition(s.jobs[id].state, Canceled) {
      RowWriteKeepsInv(s, id, t'[id], t');
    } else {
      assert s.(jobs := t') == s;
    }
  }

  lemma SweepKeepsInv(s: State, id: JobId)
    requires Inv(s)
    ensures Inv(s.(jobs := SweepTable(s.jobs, id)))
  {
    var t' := SweepTable(s.jobs, id);
    if id in s.jobs && s.jobs[id].state == Running {
      RowWriteKeepsInv(s, id, t'[id], t');
    } else {
      assert s.(jobs := t') == s;
    }
  }

  lemma ClaimKeepsInv(s: State, w: WorkerId, lease: nat, id: JobId)
    requires Inv(s) && w !in s.held && id in s.jobs && Claimable(s.jobs[id], s.now)
    ensures Inv(ClaimStep(s, w, lease, id))
  {
    ClaimKeepsRows(s, w, lease, id);
    ClaimKeepsHolds(s, w, lease, id);
    ClaimKeepsSights(s, w, lease, id);
  }

  lemma TickKeepsInv(s: State, later: int)
    requires Inv(s) && s.now <= later
    ensures Inv(s.(now := later))
  {
  }

  lemma LoseKeepsInv(s: State, w: WorkerId)
    requires Inv(s)
    ensures Inv(s.(held := s.held - {w}))
  {
  }

  lemma StepKeepsInv(s: State, step: Step)
    requires Inv(s) && Enabled(s, step)
    ensures Inv(Apply(s, step))
  {
    match step
    case Tick(later) => TickKeepsInv(s, later);
    case Enqueue(id, req) => EnqueueKeepsInv(s, id, req);
    case Dequeue(w, lease, _, picked) =>
      if picked.Some? {
        ClaimKeepsInv(s, w, lease, picked.value);
      }
    case Heartbeat(w, lease) => HeartbeatKeepsInv(s, w, lease);
    case Complete(w, resultRef) => CompleteKeepsInv(s, w, resultRef);
    case Fail(w, f) => FailKeepsInv(s, w, f);
    case Lose(w) => LoseKeepsInv(s, w);
    case Cancel(id) => CancelKeepsInv(s, id);
    case SweepSelect => SelectKeepsInv(s);
    case SweepUpdate(id) => SweepKeepsInv(s, id);
  }
}
