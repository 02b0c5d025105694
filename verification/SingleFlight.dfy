/** In-process single-flight: concurrent callers for one key share one running task. */
module SingleFlight {
  type Key = string
  type Caller = nat
  type TaskId = nat

  datatype Task = Task(key: Key, done: bool)

  /**
   * Where a call of `run` stands: awaiting its shielded task, woken (with the result, or by its own cancellation) and
   * about to take the lock again, or gone. `sawDone` says whether it was done when the caller cleaned up.
   */
  datatype Phase =
    | Awaiting(task: TaskId)
    | Leaving(task: TaskId)
    | Gone(task: TaskId, sawDone: bool)

  datatype State = State(tasks: seq<Task>, inflight: map<Key, TaskId>, callers: map<Caller, Phase>)

  const Init := State([], map[], map[])

  /** Each step is one stretch between suspension points, or a whole locked section. */
  datatype Step =
    | Enter(caller: Caller, key: Key)
    | Finish(task: TaskId)
    | Deliver(caller: Caller)
    | Cancel(caller: Caller)
    | Cleanup(caller: Caller)

  // ---------- the two locked sections ----------

  function Attach(tasks: seq<Task>, inflight: map<Key, TaskId>, key: Key): (seq<Task>, map<Key, TaskId>, TaskId) {
    if key in inflight then (tasks, inflight, inflight[key])
    else (tasks + [Task(key, false)], inflight[key := |tasks|], |tasks|)
  }

  function Release(tasks: seq<Task>, inflight: map<Key, TaskId>, task: TaskId): map<Key, TaskId>
    requires task < |tasks|
  {
    var key := tasks[task].key;
    if key in inflight && inflight[key] == task && tasks[task].done then inflight - {key} else inflight
  }

  predicate Enabled(s: State, step: Step) {
    match step
    case Enter(c, _) => c !in s.callers
    case Finish(t) => t < |s.tasks| && !s.tasks[t].done
    case Deliver(c) =>
      && c in s.callers && s.callers[c].Awaiting?
      && s.callers[c].task < |s.tasks| && s.tasks[s.callers[c].task].done
    case Cancel(c) => c in s.callers && s.callers[c].Awaiting?
    case Cleanup(c) => c in s.callers && s.callers[c].Leaving? && s.callers[c].task < |s.tasks|
  }

  function Apply(s: State, step: Step): State
    requires Enabled(s, step)
  {
    match step
    case Enter(c, key) =>
      var (tasks, inflight, t) := Attach(s.tasks, s.inflight, key);
      State(tasks, inflight, s.callers[c := Awaiting(t)])
    case Finish(t) => s.(tasks := s.tasks[t := s.tasks[t].(done := true)])
    case Deliver(c) => s.(callers := s.callers[c := Leaving(s.callers[c].task)])
    case Cancel(c) => s.(callers := s.callers[c := Leaving(s.callers[c].task)])
    case Cleanup(c) =>
      var t := s.callers[c].task;
      s.(inflight := Release(s.tasks, s.inflight, t), callers := s.callers[c := Gone(t, s.tasks[t].done)])
  }

  // ---------- what every schedule keeps ----------

  predicate Registered(s: State, t: TaskId) {
    t < |s.tasks| && s.tasks[t].key in s.inflight && s.inflight[s.tasks[t].key] == t
  }

  /** Some caller of `t` has cleaned up after `t` was done. */
  ghost predicate Collected(s: State, t: TaskId) {
    exists c :: c in s.callers && s.callers[c] == Gone(t, true)
  }

  /** A task is registered until the first of its callers cleans up after it is done, and not afterwards. */
  ghost predicate Inv(s: State) {
    && (forall k :: k in s.inflight ==> s.inflight[k] < |s.tasks| && s.tasks[s.inflight[k]].key == k)
    && (forall c :: c in s.callers ==> s.callers[c].task < |s.tasks|)
    && (forall c :: c in s.callers && s.callers[c].Gone? && s.callers[c].sawDone ==> s.tasks[s.callers[c].task].done)
    && (forall t: TaskId :: t < |s.tasks| ==> (Registered(s, t) <==> !Collected(s, t)))
  }

  lemma EnterKeepsInv(s: State, c: Caller, key: Key)
    requires Inv(s) && c !in s.callers
    ensures Inv(Apply(s, Enter(c, key)))
  {
    var s' := Apply(s, Enter(c, key));
    forall t: TaskId | t < |s'.tasks| ensures Registered(s', t) <==> !Collected(s', t) {
      forall d | d in s'.callers && s'.callers[d] == Gone(t, true) ensures t < |s.tasks| && Collected(s, t) {
        assert d in s.callers && s.callers[d] == Gone(t, true);
      }
      if t < |s.tasks| && Collected(s, t) {
        var d :| d in s.callers && s.callers[d] == Gone(t, true);
        assert s'.callers[d] == Gone(t, true);
      }
      assert t < |s.tasks| ==> s'.tasks[t] == s.tasks[t] && (Registered(s', t) <==> Registered(s, t));
    }
  }

  lemma CleanupKeepsInv(s: State, c: Caller)
    requires Inv(s) && Enabled(s, Cleanup(c))
    ensures Inv(Apply(s, Cleanup(c)))
  {
    var s', mine := Apply(s, Cleanup(c)), s.callers[c].task;
    forall t: TaskId | t < |s'.tasks| ensures Registered(s', t) <==> !Collected(s', t) {
      assert s'.callers[c] == Gone(mine, s.tasks[mine].done);
      forall d | d in s.callers && s.callers[d] == Gone(t, true) ensures s'.callers[d] == Gone(t, true) {}
      assert Collected(s, t) ==> Collected(s', t);
      if Collected(s', t) && !(t == mine && s.tasks[mine].done) {
        var d :| d in s'.callers && s'.callers[d] == Gone(t, true);
        assert d in s.callers && s.callers[d] == Gone(t, true);
      }
    }
  }

  lemma StepKeepsInv(s: State, step: Step)
    requires Inv(s) && Enabled(s, step)
    ensures Inv(Apply(s, step))
  {
    match step
    case Enter(c, key) => EnterKeepsInv(s, c, key);
    case Cleanup(c) => CleanupKeepsInv(s, c);
    case Finish(_) =>
      var s' := Apply(s, step);
      assert forall t: TaskId :: t < |s.tasks| ==> s'.tasks[t].key == s.tasks[t].key;
      assert forall t: TaskId :: t < |s.tasks| ==> (Registered(s', t) <==> Registered(s, t));
      assert forall t: TaskId :: Collected(s', t) <==> Collected(s, t);
    case _ =>
      var s' := Apply(s, step);
      assert forall t: TaskId :: Registered(s', t) <==> Registered(s, t);
      forall t: TaskId ensures Collected(s', t) <==> Collected(s, t) {
        assert forall d :: d in s.callers && s.callers[d] == Gone(t, true) ==> s'.callers[d] == Gone(t, true);
        assert forall d :: d in s'.callers && s'.callers[d] == Gone(t, true) ==> s.callers[d] == Gone(t, true);
      }
  }

  /** A caller is woken by its result or its cancellation, then cleans up, and stays with one task throughout. */
  lemma CallerMoves(s: State, step: Step, c: Caller)
    requires Enabled(s, step)
    ensures c in s.callers ==>
              && c in Apply(s, step).callers && Apply(s, step).callers[c].task == s.callers[c].task
              && (Apply(s, step).callers[c].Awaiting? <==>
                  s.callers[c].Awaiting? && step != Deliver(c) && step != Cancel(c))
              && (Apply(s, step).callers[c].Gone? <==> s.callers[c].Gone? || step == Cleanup(c))
    ensures c !in s.callers ==>
              (c in Apply(s, step).callers <==> step.Enter? && step.caller == c)
  {
  }

  predicate ValidRun(steps: seq<Step>)
    decreases |steps|, 0
  {
    steps == [] || (var n := |steps| - 1; ValidRun(steps[..n]) && Enabled(Exec(steps[..n]), steps[n]))
  }

  function Exec(steps: seq<Step>): State
    requires ValidRun(steps)
    decreases |steps|, 1
  {
    if steps == [] then Init else Apply(Exec(steps[..|steps| - 1]), steps[|steps| - 1])
  }

  lemma {:induction false} RunInv(steps: seq<Step>)
    requires ValidRun(steps)
    ensures Inv(Exec(steps))
    decreases |steps|
  {
    if steps != [] {
      RunInv(steps[..|steps| - 1]);
      StepKeepsInv(Exec(steps[..|steps| - 1]), steps[|steps| - 1]);
    }
  }

  /** However callers come, are cancelled and go, at most one unfinished task runs per key. */
  lemma OneTaskPerKey(steps: seq<Step>, t: TaskId, u: TaskId)
    requires ValidRun(steps)
    requires var s := Exec(steps); t < |s.tasks| && u < |s.tasks| && !s.tasks[t].done && !s.tasks[u].done
    requires Exec(steps).tasks[t].key == Exec(steps).tasks[u].key
    ensures t == u
  {
    RunInv(steps);
    var s := Exec(steps);
    assert Registered(s, t) && Registered(s, u);
  }

  /**
   * While a task runs every newcomer for its key attaches to it; and a newcomer is handed a task that is already over
   * exactly when that task is done and none of its callers has cleaned up since.
   */
  lemma NewcomerGets(steps: seq<Step>, c: Caller, t: TaskId)
    requires ValidRun(steps)
    requires var s := Exec(steps); c !in s.callers && t < |s.tasks|
    ensures var s := Exec(steps); var s' := Apply(s, Enter(c, s.tasks[t].key));
      && (!s.tasks[t].done ==> s'.callers[c] == Awaiting(t) && s'.tasks == s.tasks)
      && (s.tasks[t].done ==> (s'.callers[c] == Awaiting(t) <==> !Collected(s, t)))
  {
    RunInv(steps);
    var s := Exec(steps);
    assert Registered(s, t) <==> !Collected(s, t);
  }

  /** A caller cancelled before its task ends leaves a finished task behind for the next, later caller. */
  lemma CancelledCallerLeavesStaleResult(key: Key) returns (steps: seq<Step>)
    ensures steps == [Enter(0, key), Cancel(0), Cleanup(0), Finish(0)] && ValidRun(steps)
    ensures Exec(steps).tasks == [Task(key, true)] && 1 !in Exec(steps).callers
    ensures Apply(Exec(steps), Enter(1, key)).callers[1] == Awaiting(0)
  {
    hide ValidRun, Exec;
    steps := [];
    assert ValidRun(steps) && Exec(steps) == Init by { EmptyRun(); }
    var s := Then(steps, Enter(0, key));
    steps := steps + [Enter(0, key)];
    s := Then(steps, Cancel(0));
    steps := steps + [Cancel(0)];
    s := Then(steps, Cleanup(0));
    steps := steps + [Cleanup(0)];
    s := Then(steps, Finish(0));
    steps := steps + [Finish(0)];
  }

  lemma EmptyRun()
    ensures ValidRun([]) && Exec([]) == Init
  {
  }

  lemma Then(steps: seq<Step>, step: Step) returns (s: State)
    requires ValidRun(steps) && Enabled(Exec(steps), step)
    ensures ValidRun(steps + [step]) && Exec(steps + [step]) == s == Apply(Exec(steps), step)
  {
    assert (steps + [step])[..|steps|] == steps;
    s := Apply(Exec(steps), step);
  }

  /** The coalescer itself: the dictionary of running tasks, changed only in the two locked sections. */
  class Coalescer {
    var tasks: seq<Task>
    var inflight: map<Key, TaskId>

    constructor ()
      ensures tasks == Init.tasks && inflight == Init.inflight
    {
      tasks, inflight := [], map[];
    }

    /** Joins what runs under the key, or spawns and registers it. */
    method Join(key: Key) returns (task: TaskId)
      modifies this
      ensures (tasks, inflight, task) == Attach(old(tasks), old(inflight), key)
    {
      if key in inflight {
        task := inflight[key];
      } else {
        task := |tasks|;
        tasks, inflight := tasks + [Task(key, false)], inflight[key := task];
      }
    }

    /** Drops the entry if it is still this caller's `task`, and that is done. */
    method Leave(key: Key, task: TaskId)
      requires task < |tasks| && tasks[task].key == key
      modifies this`inflight
      ensures inflight == Release(tasks, old(inflight), task)
    {
      if key in inflight && inflight[key] == task && tasks[task].done {
        inflight := inflight - {key};
      }
    }
  }
}
