/** Build-host capacity leases: the lease table, and every interleaving of the transactions that write it. */
module BuildHosts {
  import opened Prelude

  type HostId = nat
  type RunId = nat
  type TxnId = nat

  /** Keyed by run, as the primary key is: a run holds at most one lease. */
  type Leases = map<RunId, HostId>

  function HeldBy(leases: Leases, h: HostId): set<RunId> {
    set r | r in leases && leases[r] == h
  }

  function LeaseCount(leases: Leases, h: HostId): nat {
    |HeldBy(leases, h)|
  }

  /** What a request for a lease is answered, given the committed rows. */
  function AcquireAnswer(leases: Leases, hosts: set<HostId>, h: HostId, maxConcurrent: nat, run: RunId): Result<bool,
                         string> {
    if run in HeldBy(leases, h) then Ok(true)
    else if LeaseCount(leases, h) >= maxConcurrent then Ok(false)
    else if run in leases || h !in hosts then Err("constraint violation")
    else Ok(true)
  }

  /** The lease table used by one caller at a time, as under the host's advisory lock. */
  class LeaseTable {
    var hosts: set<HostId>
    var leases: Leases

    constructor (hosts: set<HostId>)
      ensures this.hosts == hosts && leases == map[]
    {
      this.hosts := hosts;
      leases := map[];
    }

    /**
     * Succeeds when the run already holds this host or a slot is free, fails when the host is full, and raises on a
     * lease elsewhere (primary key) or a host that is gone (foreign key).
     */
    method TryAcquireLease(h: HostId, maxConcurrent: nat, run: RunId) returns (r: Result<bool, string>)
      modifies this`leases
      ensures r == AcquireAnswer(old(leases), hosts, h, maxConcurrent, run)
      ensures leases == if r == Ok(true) then old(leases)[run := h] else old(leases)
      ensures r == Ok(true) <==>
        || run in HeldBy(old(leases), h)
        || (run !in old(leases) && LeaseCount(old(leases), h) < maxConcurrent && h in hosts)
      ensures r == Ok(false) <==> run !in HeldBy(old(leases), h) && LeaseCount(old(leases), h) >= maxConcurrent
      ensures LeaseCount(old(leases), h) <= maxConcurrent ==> LeaseCount(leases, h) <= maxConcurrent
    {
      if run in leases && leases[run] == h {
        assert leases[run := h] == leases;
        return Ok(true);
      }
      var count := LeaseCount(leases, h);
      if count >= maxConcurrent {
        return Ok(false);
      }
      if run in leases || h !in hosts {
        return Err("constraint violation");
      }
      OneMoreLease(leases, run, h, h);
      leases := leases[run := h];
      return Ok(true);
    }

    /** Drops every lease whose build job is no longer live, and no other. */
    method ReclaimOrphanLeases(liveBuilds: set<RunId>) returns (reclaimed: nat)
      modifies this`leases
      ensures forall r :: r in leases <==> r in old(leases) && r in liveBuilds
      ensures forall r :: r in leases ==> leases[r] == old(leases)[r]
      ensures reclaimed == |old(leases).Keys - liveBuilds|
    {
      var orphans := leases.Keys - liveBuilds;
      leases := leases - orphans;
      return |orphans|;
    }
  }

  lemma OneMoreLease(leases: Leases, run: RunId, h: HostId, other: HostId)
    requires run !in leases
    ensures LeaseCount(leases[run := h], other) == LeaseCount(leases, other) + (if other == h then 1 else 0)
  {
    if other == h {
      assert HeldBy(leases[run := h], h) == HeldBy(leases, h) + {run};
    } else {
      assert HeldBy(leases[run := h], other) == HeldBy(leases, other);
    }
  }

  /** A release gives back exactly the slot it held: with it gone, a full host takes another run. */
  lemma ReleaseFreesSlot(leases: Leases, hosts: set<HostId>, h: HostId, maxConcurrent: nat, run: RunId, other: RunId)
    requires run in HeldBy(leases, h) && LeaseCount(leases, h) <= maxConcurrent && h in hosts && other !in leases
    ensures forall g :: LeaseCount(leases - {run}, g) == LeaseCount(leases, g) - (if g == h then 1 else 0)
    ensures AcquireAnswer(leases - {run}, hosts, h, maxConcurrent, other) == Ok(true)
    ensures AcquireAnswer(leases, hosts, h, maxConcurrent, other) == Ok(LeaseCount(leases, h) < maxConcurrent)
  {
    assert leases == (leases - {run})[run := h];
    forall g ensures LeaseCount(leases - {run}, g) == LeaseCount(leases, g) - (if g == h then 1 else 0) {
      OneMoreLease(leases - {run}, run, h, g);
    }
  }

  lemma FewerLeases(leases: Leases, fewer: Leases, h: HostId)
    requires forall r :: r in fewer ==> r in leases && fewer[r] == leases[r]
    ensures LeaseCount(fewer, h) <= LeaseCount(leases, h)
  {
    SubsetSize(HeldBy(fewer, h), HeldBy(leases, h));
  }

  // ---------- interleavings ----------

  /** Where a capacity admission stands: it holds the host's lock from `Locked` until its transaction ends. */
  datatype Phase = Locked | Checked | Room | Inserted | Answered(granted: bool)

  datatype Txn = Txn(host: HostId, run: RunId, phase: Phase)

  datatype State = State(
    hosts: set<HostId>,
    leases: Leases,           // committed rows only
    txns: map<TxnId, Txn>,    // admissions in flight; an `Inserted` row is not visible to others yet
    liveBuilds: set<RunId>)   // runs with a queued or running build job

  datatype Step =
    | Lock(x: TxnId, h: HostId, run: RunId)
    | CheckExisting(x: TxnId)
    | CountLeases(x: TxnId)
    | Insert(x: TxnId)
    | Commit(x: TxnId)
    | Abort(x: TxnId)
    | Release(run: RunId)
    | Reclaim
    | BuildEnds(run: RunId)
    | PruneHost(h: HostId)

  /** Each host's fixed `max_concurrent`. */
  type Caps = HostId -> nat

  ghost predicate Enabled(s: State, step: Step) {
    match step
    case Lock(x, h, _) => x !in s.txns && forall y :: y in s.txns ==> s.txns[y].host != h
    case CheckExisting(x) => x in s.txns && s.txns[x].phase == Locked
    case CountLeases(x) => x in s.txns && s.txns[x].phase == Checked
    // an insert of a run another transaction has inserted waits for that transaction
    case Insert(x) => x in s.txns && s.txns[x].phase == Room &&
      forall y :: y in s.txns && s.txns[y].phase == Inserted ==> s.txns[y].run != s.txns[x].run
    case Commit(x) => x in s.txns && (s.txns[x].phase == Inserted || s.txns[x].phase.Answered?)
    case Abort(x) => x in s.txns
    case Release(_) => true
    case Reclaim => true
    case BuildEnds(_) => true
    // the pruning row lock waits for inserts that reference the host
    case PruneHost(h) => forall y :: y in s.txns && s.txns[y].phase == Inserted ==> s.txns[y].host != h
  }

  ghost function At(s: State, x: TxnId, phase: Phase): State
    requires x in s.txns
  {
    s.(txns := s.txns[x := s.txns[x].(phase := phase)])
  }

  ghost function Apply(s: State, step: Step, caps: Caps): State
    requires Enabled(s, step)
  {
    match step
    case Lock(x, h, run) => s.(txns := s.txns[x := Txn(h, run, Locked)])
    case CheckExisting(x) =>
      var t := s.txns[x];
      At(s, x, if t.run in HeldBy(s.leases, t.host) then Answered(true) else Checked)
    case CountLeases(x) =>
      var t := s.txns[x];
      At(s, x, if LeaseCount(s.leases, t.host) >= caps(t.host) then Answered(false) else Room)
    case Insert(x) =>
      var t := s.txns[x];
      // a constraint violation ends the transaction
      if t.run in s.leases || t.host !in s.hosts then s.(txns := s.txns - {x}) else At(s, x, Inserted)
    case Commit(x) =>
      var t := s.txns[x];
      if t.phase == Inserted
      then s.(txns := s.txns - {x}, leases := s.leases[t.run := t.host], liveBuilds := s.liveBuilds + {t.run})
      else s.(txns := s.txns - {x})
    case Abort(x) => s.(txns := s.txns - {x})
    case Release(run) => s.(leases := s.leases - {run})
    case Reclaim => s.(leases := s.leases - (s.leases.Keys - s.liveBuilds))
    case BuildEnds(run) => s.(liveBuilds := s.liveBuilds - {run})
    case PruneHost(h) => if HeldBy(s.leases, h) == {} then s.(hosts := s.hosts - {h}) else s
  }

  /** One admission whose steps follow each other with nothing in between, and what it answers. */
  ghost function Admission(s: State, x: TxnId, h: HostId, run: RunId, caps: Caps): (State, Result<bool, string>)
    requires Enabled(s, Lock(x, h, run))
    requires forall y :: y in s.txns && s.txns[y].phase == Inserted ==> s.txns[y].run != run
  {
    var checked := Apply(Apply(s, Lock(x, h, run), caps), CheckExisting(x), caps);
    if checked.txns[x].phase.Answered? then (Apply(checked, Commit(x), caps), Ok(checked.txns[x].phase.granted)) else
    var counted := Apply(checked, CountLeases(x), caps);
    if counted.txns[x].phase.Answered? then (Apply(counted, Commit(x), caps), Ok(counted.txns[x].phase.granted)) else
    var inserted := Apply(counted, Insert(x), caps);
    if x !in inserted.txns then (inserted, Err("constraint violation")) else (Apply(inserted, Commit(x), caps), Ok(true))
  }

  /** The steps of an undisturbed admission answer and write what the lease table's own method does. */
  lemma AdmissionAgrees(s: State, x: TxnId, h: HostId, run: RunId, caps: Caps)
    requires Enabled(s, Lock(x, h, run))
    requires forall y :: y in s.txns && s.txns[y].phase == Inserted ==> s.txns[y].run != run
    ensures var (s', answer) := Admission(s, x, h, run, caps);
      && answer == AcquireAnswer(s.leases, s.hosts, h, caps(h), run)
      && s'.leases == (if answer == Ok(true) then s.leases[run := h] else s.leases)
      && s'.txns == s.txns && s'.hosts == s.hosts
  {
    var (s', answer) := Admission(s, x, h, run, caps);
    assert s'.txns == s.txns;
    assert run in HeldBy(s.leases, h) ==> s.leases[run := h] == s.leases;
  }

  ghost predicate LocksExclusive(s: State) {
    forall x, y :: x in s.txns && y in s.txns && s.txns[x].host == s.txns[y].host ==> x == y
  }

  /** A slot found free stays free for the lock holder, and an uncommitted lease will find its key and its host. */
  ghost predicate TxnOk(s: State, t: Txn, caps: Caps) {
    && (t.phase in {Room, Inserted} ==> LeaseCount(s.leases, t.host) < caps(t.host))
    && (t.phase == Inserted ==> t.run !in s.leases && t.host in s.hosts)
  }

  ghost predicate TxnsOk(s: State, caps: Caps) {
    && (forall x :: x in s.txns ==> TxnOk(s, s.txns[x], caps))
    && (forall x, y :: x in s.txns && y in s.txns && s.txns[x].phase == Inserted == s.txns[y].phase && s.txns[x].run == s.txns[y].run
          ==> x == y)
  }

  ghost predicate LeasesOk(s: State, caps: Caps) {
    && (forall h :: LeaseCount(s.leases, h) <= caps(h))
    && (forall r :: r in s.leases ==> s.leases[r] in s.hosts)
  }

  ghost predicate Inv(s: State, caps: Caps) {
    LocksExclusive(s) && TxnsOk(s, caps) && LeasesOk(s, caps)
  }

  /** A step that leaves the lease rows alone or removes some. */
  lemma FewerKeepsInv(s: State, fewer: Leases, caps: Caps)
    requires Inv(s, caps)
    requires forall r :: r in fewer ==> r in s.leases && fewer[r] == s.leases[r]
    ensures Inv(s.(leases := fewer), caps)
  {
    forall h ensures LeaseCount(fewer, h) <= LeaseCount(s.leases, h) {
      FewerLeases(s.leases, fewer, h);
    }
  }

  lemma CommitKeepsInv(s: State, x: TxnId, caps: Caps)
    requires Inv(s, caps) && x in s.txns && s.txns[x].phase == Inserted
    ensures Inv(Apply(s, Commit(x), caps), caps)
  {
    var t := s.txns[x];
    var s' := Apply(s, Commit(x), caps);
    assert TxnOk(s, t, caps);
    forall h ensures LeaseCount(s'.leases, h) == LeaseCount(s.leases, h) + (if h == t.host then 1 else 0) {
      OneMoreLease(s.leases, t.run, t.host, h);
    }
    forall y | y in s'.txns ensures TxnOk(s', s'.txns[y], caps) {
      assert TxnOk(s, s.txns[y], caps);
    }
  }

  lemma StepKeepsInv(s: State, step: Step, caps: Caps)
    requires Inv(s, caps) && Enabled(s, step)
    ensures Inv(Apply(s, step, caps), caps)
  {
    if step.Commit? && s.txns[step.x].phase == Inserted {
      CommitKeepsInv(s, step.x, caps);
    } else if step.Release? || step.Reclaim? {
      FewerKeepsInv(s, Apply(s, step, caps).leases, caps);
    } else {
      QuietKeepsInv(s, step, caps);
    }
  }

  lemma QuietKeepsTxns(s: State, step: Step, caps: Caps)
    requires Inv(s, caps) && Enabled(s, step) && Apply(s, step, caps).leases == s.leases
    ensures LocksExclusive(Apply(s, step, caps)) && TxnsOk(Apply(s, step, caps), caps)
  {
    hide LeaseCount, LeasesOk;
    var s' := Apply(s, step, caps);
    forall y | y in s'.txns ensures TxnOk(s', s'.txns[y], caps) {
      if y in s.txns {
        assert TxnOk(s, s.txns[y], caps);
      }
    }
  }

  lemma QuietKeepsLeases(s: State, step: Step, caps: Caps)
    requires LeasesOk(s, caps) && Enabled(s, step) && Apply(s, step, caps).leases == s.leases
    ensures LeasesOk(Apply(s, step, caps), caps)
  {
    hide LeaseCount;
    if step.PruneHost? {
      assert forall r :: r in s.leases && s.leases[r] == step.h ==> r in HeldBy(s.leases, step.h);
    }
  }

  lemma QuietKeepsInv(s: State, step: Step, caps: Caps)
    requires Inv(s, caps) && Enabled(s, step) && Apply(s, step, caps).leases == s.leases
    ensures Inv(Apply(s, step, caps), caps)
  {
    hide Apply, Enabled, LocksExclusive, TxnsOk, LeasesOk;
    QuietKeepsTxns(s, step, caps);
    QuietKeepsLeases(s, step, caps);
  }

  ghost predicate ValidRun(start: set<HostId>, steps: seq<Step>, caps: Caps)
    decreases |steps|, 0
  {
    steps != [] ==>
      && ValidRun(start, steps[..|steps| - 1], caps)
      && Enabled(Exec(start, steps[..|steps| - 1], caps), steps[|steps| - 1])
  }

  ghost function Exec(start: set<HostId>, steps: seq<Step>, caps: Caps): State
    requires ValidRun(start, steps, caps)
    decreases |steps|, 1
  {
    if steps == [] then State(start, map[], map[], {})
    else Apply(Exec(start, steps[..|steps| - 1], caps), steps[|steps| - 1], caps)
  }

  /** In every interleaving: no host above its cap, no lease on a deleted host, one admission at a time per host. */
  lemma {:induction false} CapacityHolds(start: set<HostId>, steps: seq<Step>, caps: Caps)
    requires ValidRun(start, steps, caps)
    ensures Inv(Exec(start, steps, caps), caps)
    ensures forall h :: LeaseCount(Exec(start, steps, caps).leases, h) <= caps(h)
    ensures forall r :: r in Exec(start, steps, caps).leases ==>
      Exec(start, steps, caps).leases[r] in Exec(start, steps, caps).hosts
    decreases |steps|
  {
    if steps == [] {
      assert forall h :: HeldBy(map[], h) == {};
    } else {
      CapacityHolds(start, steps[..|steps| - 1], caps);
      StepKeepsInv(Exec(start, steps[..|steps| - 1], caps), steps[|steps| - 1], caps);
    }
  }

  /** An admission holds its host's lock from the lock on, until it commits, aborts or violates a constraint. */
  lemma LockHeldExactly(s: State, step: Step, caps: Caps, x: TxnId)
    requires Enabled(s, step)
    ensures x in s.txns ==>
              (x !in Apply(s, step, caps).txns <==>
               || step == Commit(x) || step == Abort(x)
               || (step == Insert(x) && (s.txns[x].run in s.leases || s.txns[x].host !in s.hosts)))
    ensures x !in s.txns ==> (x in Apply(s, step, caps).txns <==> step.Lock? && step.x == x)
  {
  }

  /**
   * A lease appears only by the commit of an admission that inserted it, and goes exactly by its own release or by a
   * reclaim that finds no live build behind it; a host goes exactly when it is pruned with no lease left.
   */
  lemma LeaseChangesExactly(s: State, step: Step, caps: Caps, run: RunId, h: HostId)
    requires Inv(s, caps) && Enabled(s, step)
    ensures run in s.leases ==>
              (run !in Apply(s, step, caps).leases <==>
               step == Release(run) || (step == Reclaim && run !in s.liveBuilds))
    ensures run !in s.leases ==>
              (run in Apply(s, step, caps).leases <==>
               step.Commit? && s.txns[step.x].phase == Inserted && s.txns[step.x].run == run)
    ensures run in s.leases && run in Apply(s, step, caps).leases ==> Apply(s, step, caps).leases[run] == s.leases[run]
    ensures run !in s.leases && run in Apply(s, step, caps).leases ==>
              Apply(s, step, caps).leases[run] == s.txns[step.x].host
    ensures h in s.hosts ==>
              (h !in Apply(s, step, caps).hosts <==>
               step == PruneHost(h) && forall r :: r in s.leases ==> s.leases[r] != h)
    ensures h !in s.hosts ==> h !in Apply(s, step, caps).hosts
    ensures run in Apply(s, step, caps).liveBuilds <==>
              || (run in s.liveBuilds && step != BuildEnds(run))
              || (step.Commit? && s.txns[step.x].phase == Inserted && s.txns[step.x].run == run)
  {
    if step.Commit? {
      assert TxnOk(s, s.txns[step.x], caps);
    }
    assert HeldBy(s.leases, h) == {} <==> forall r :: r in s.leases ==> s.leases[r] != h by {
      assert forall r :: r in s.leases && s.leases[r] == h ==> r in HeldBy(s.leases, h);
    }
  }

  /** While a run's build job is live, only its own release takes its lease away. */
  lemma LiveLeaseSurvives(s: State, step: Step, caps: Caps, run: RunId)
    requires Inv(s, caps) && Enabled(s, step) && run in s.leases && run in s.liveBuilds && step != Release(run)
    ensures run in Apply(s, step, caps).leases && Apply(s, step, caps).leases[run] == s.leases[run]
  {
    if step.Commit? {
      assert TxnOk(s, s.txns[step.x], caps);
    }
  }

  /** From step `n` on the run's build job is live at every step, and none of them is the run's own release. */
  ghost predicate LiveSince(start: set<HostId>, steps: seq<Step>, caps: Caps, n: nat, run: RunId)
    requires ValidRun(start, steps, caps) && n <= |steps|
    decreases |steps|
  {
    |steps| > n ==>
      var front := steps[..|steps| - 1];
      && LiveSince(start, front, caps, n, run)
      && run in Exec(start, front, caps).liveBuilds && steps[|steps| - 1] != Release(run)
  }

  lemma {:induction false} PrefixValid(start: set<HostId>, steps: seq<Step>, caps: Caps, n: nat)
    requires ValidRun(start, steps, caps) && n <= |steps|
    ensures ValidRun(start, steps[..n], caps)
    decreases |steps|
  {
    if n < |steps| {
      PrefixValid(start, steps[..|steps| - 1], caps, n);
      assert steps[..|steps| - 1][..n] == steps[..n];
    } else {
      assert steps[..n] == steps;
    }
  }

  /** The leases after the first `n` steps of a run. */
  ghost function LeasesAt(start: set<HostId>, steps: seq<Step>, caps: Caps, n: nat): Leases
    requires ValidRun(start, steps, caps) && n <= |steps|
  {
    PrefixValid(start, steps, caps, n);
    Exec(start, steps[..n], caps).leases
  }

  /** In every run, a lease whose build job stays live lasts, on the same host, until the run itself releases it. */
  lemma {:induction false} LiveLeaseLasts(start: set<HostId>, steps: seq<Step>, caps: Caps, n: nat, run: RunId)
    requires ValidRun(start, steps, caps) && n <= |steps| && LiveSince(start, steps, caps, n, run)
    requires run in LeasesAt(start, steps, caps, n)
    ensures run in Exec(start, steps, caps).leases
    ensures Exec(start, steps, caps).leases[run] == LeasesAt(start, steps, caps, n)[run]
    decreases |steps|
  {
    hide Inv, Enabled, Apply;
    if n < |steps| {
      var front := steps[..|steps| - 1];
      assert front[..n] == steps[..n];
      LiveLeaseLasts(start, front, caps, n, run);
      CapacityHolds(start, front, caps);
      LiveLeaseSurvives(Exec(start, front, caps), steps[|steps| - 1], caps, run);
    } else {
      assert steps[..n] == steps;
    }
  }
}
