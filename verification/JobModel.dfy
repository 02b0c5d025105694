/** One row of the durable job table, the lifecycle it follows, and what each SQL statement does to the table. */
module JobModel {
  import opened Prelude

  type JobId = nat
  type WorkerId = string

  datatype JobState = Queued | Running | Succeeded | Failed | Canceled

  predicate CanTransition(frm: JobState, to: JobState) {
    match frm
    case Queued => to in {Running, Canceled}
    case Running => to in {Succeeded, Failed, Canceled, Queued}
    case _ => false
  }

  predicate Terminal(s: JobState) {
    s in {Succeeded, Failed, Canceled}
  }

  datatype Job = Job(
    kind: string, runId: Option<nat>, dedupKey: string, createdAt: int,
    state: JobState, attempt: nat, maxAttempts: int,
    workerId: Option<WorkerId>, leaseExpiresAt: Option<int>, heartbeatAt: Option<int>,
    resultRef: Option<string>, errorCategory: Option<string>, failureContext: map<string, string>)

  type Table = map<JobId, Job>

  /** What a caller of `enqueue` supplies. */
  datatype Request = Request(kind: string, runId: Option<nat>, dedupKey: string, maxAttempts: int)

  /** What a row remembers of its request. */
  function RequestOf(j: Job): Request {
    Request(j.kind, j.runId, j.dedupKey, j.maxAttempts)
  }

  function NewJob(req: Request, now: int): Job {
    Job(req.kind, req.runId, req.dedupKey, now, Queued, 0, req.maxAttempts, None, None, None, None, None, map[])
  }

  predicate HasDedup(t: Table, key: string) {
    exists id :: id in t && t[id].dedupKey == key
  }

  /** INSERT ... ON CONFLICT (dedup_key) DO NOTHING. */
  function EnqueueTable(t: Table, id: JobId, req: Request, now: int): Table {
    if HasDedup(t, req.dedupKey) then t else t[id := NewJob(req, now)]
  }

  /** A null lease is never in the past. */
  predicate Lapsed(j: Job, now: int) {
    j.leaseExpiresAt.Some? && j.leaseExpiresAt.value < now
  }

  predicate Claimable(j: Job, now: int) {
    (j.state == Queued || (j.state == Running && Lapsed(j, now))) && j.attempt < j.maxAttempts
  }

  predicate Zombie(j: Job, now: int) {
    j.state == Running && Lapsed(j, now) && j.attempt >= j.maxAttempts
  }

  function Claim(j: Job, w: WorkerId, now: int, lease: nat): Job {
    j.(state := Running, workerId := Some(w), attempt := j.attempt + 1,
       leaseExpiresAt := Some(now + lease), heartbeatAt := Some(now))
  }

  /** The row `dequeue` may take: claimable, not locked by another transaction, and none of those is older. */
  predicate OldestClaimable(t: Table, now: int, locked: set<JobId>, id: JobId) {
    && id in t && Claimable(t[id], now) && id !in locked
    && forall k :: k in t && Claimable(t[k], now) && k !in locked ==> t[id].createdAt <= t[k].createdAt
  }

  predicate NothingClaimable(t: Table, now: int, locked: set<JobId>) {
    forall k :: k in t && Claimable(t[k], now) ==> k in locked
  }

  /** WHERE id = ... AND worker_id = ... AND state = 'running'. */
  predicate Fenced(t: Table, id: JobId, w: WorkerId) {
    id in t && t[id].workerId == Some(w) && t[id].state == Running
  }

  function HeartbeatTable(t: Table, id: JobId, w: WorkerId, now: int, lease: nat): Table {
    if Fenced(t, id, w) then t[id := t[id].(heartbeatAt := Some(now), leaseExpiresAt := Some(now + lease))] else t
  }

  function CompleteTable(t: Table, id: JobId, w: WorkerId, resultRef: Option<string>): Table {
    if Fenced(t, id, w) then t[id := t[id].(state := Succeeded, resultRef := resultRef)] else t
  }

  /** The job object a worker got back from `dequeue`: a snapshot that is not refreshed. */
  datatype Held = Held(job: JobId, attempt: nat, maxAttempts: int)

  datatype Failure = Failure(category: string, terminal: bool, context: map<string, string>)

  predicate DeadLetters(h: Held, f: Failure) {
    f.terminal || h.attempt >= h.maxAttempts
  }

  function FailTable(t: Table, h: Held, w: WorkerId, f: Failure): Table {
    if !Fenced(t, h.job, w) then t
    else if DeadLetters(h, f) then
      t[h.job := t[h.job].(state := Failed, errorCategory := Some(f.category), failureContext := f.context)]
    else
      t[h.job := t[h.job].(state := Queued, workerId := None, leaseExpiresAt := None, heartbeatAt := None,
                           failureContext := map[])]
  }

  /** UPDATE ... WHERE id = ... AND state = 'running': the second half of the zombie sweep. */
  function SweepTable(t: Table, id: JobId): Table {
    if id in t && t[id].state == Running
    then t[id := t[id].(state := Failed, errorCategory := Some("lease_expired"))] else t
  }

  /** The guarded state change behind `jobs.cancel`. */
  function CancelTable(t: Table, id: JobId): Table {
    if id in t && CanTransition(t[id].state, Canceled) then t[id := t[id].(state := Canceled)] else t
  }
}
