/** The `run_steps` ledger: one row per (run, step), written by claim, complete, abandon and the bare insert. */
module StepLedger {
  import opened Prelude

  type Key = (nat, string)
  type Client = nat

  /** A step result. A step body may return nothing, which is stored as JSON null. */
  datatype Json = JsonNull | JsonValue(text: string)

  /** A running row has a null result and remembers when it was claimed. */
  datatype Row = Claimed(since: int) | Succeeded(result: Json)

  type Table = map<Key, Row>

  /** 30 minutes, in microseconds. */
  const StaleInterval := 30 * 60 * 1_000_000

  predicate Running(t: Table, k: Key) {
    k in t && t[k].Claimed?
  }

  predicate Stale(t: Table, k: Key, now: int) {
    Running(t, k) && t[k].since < now - StaleInterval
  }

  function DeleteStaleTable(t: Table, k: Key, now: int): Table {
    if Stale(t, k, now) then t - {k} else t
  }

  function InsertTable(t: Table, k: Key, row: Row): Table {
    if k in t then t else t[k := row]
  }

  function CompleteTable(t: Table, k: Key, result: Json): Table {
    if Running(t, k) then t[k := Succeeded(result)] else t
  }

  function AbandonTable(t: Table, k: Key): Table {
    if Running(t, k) then t - {k} else t
  }

  /** What SELECT result reads. The SQL null of a running row and a stored JSON null cannot be told apart. */
  function ResultOf(row: Row): Json {
    match row
    case Claimed(_) => JsonNull
    case Succeeded(r) => r
  }

  datatype ClaimAnswer = Won | Replayed(result: Json) | Waiting

  class Ledger {
    var rows: Table
    var now: int

    constructor (now: int)
      ensures rows == map[] && this.now == now
    {
      rows := map[];
      this.now := now;
    }

    /** One turn of the claim loop: drop a stale claim, then claim an absent step, replay a finished one, or wait. */
    method ClaimTurn(k: Key) returns (r: ClaimAnswer)
      modifies this`rows
      ensures r == Won <==> k !in old(rows) || (old(rows)[k].Claimed? && now - old(rows)[k].since > 1_800_000_000)
      ensures r.Replayed? <==> k in old(rows) && old(rows)[k].Succeeded?
      ensures r.Replayed? ==> old(rows)[k] == Succeeded(r.result)
      ensures rows == if r == Won then old(rows)[k := Claimed(now)] else old(rows)
      ensures rows == InsertTable(DeleteStaleTable(old(rows), k, now), k, Claimed(now))
    {
      if Stale(rows, k, now) {
        rows := rows - {k};
      }
      if k !in rows {
        rows := rows[k := Claimed(now)];
        assert rows == old(rows)[k := Claimed(now)];
        return Won;
      }
      if rows[k].Succeeded? {
        return Replayed(rows[k].result);
      }
      return Waiting;
    }

    /** Raises when the step is not running. */
    method CompleteRunStep(k: Key, result: Json) returns (r: Result<Json, string>)
      modifies this`rows
      ensures rows == CompleteTable(old(rows), k, result)
      ensures r == if Running(old(rows), k) then Ok(result) else Err("not running at completion")
    {
      if !Running(rows, k) {
        return Err("not running at completion");
      }
      rows := rows[k := Succeeded(result)];
      return Ok(result);
    }

    method AbandonRunStep(k: Key)
      modifies this`rows
      ensures rows == AbandonTable(old(rows), k)
    {
      if Running(rows, k) {
        rows := rows - {k};
      }
    }

    /** `fnResult` is what the step body would return. Nothing interferes, so the insert meets no row. */
    method RunStep(k: Key, fnResult: Json) returns (r: Json)
      modifies this`rows
      ensures k in rows && r == ResultOf(rows[k])
      ensures rows == InsertTable(old(rows), k, Succeeded(fnResult))
      ensures r == JsonNull <==> Running(old(rows), k) || rows[k] == Succeeded(JsonNull)
    {
      if k in rows {
        return ResultOf(rows[k]);
      }
      rows := rows[k := Succeeded(fnResult)];
      return fnResult;
    }
  }
}

/** Every interleaving of the ledger's statements by any number of clients. */
module LedgerRuns {
  import opened Prelude
  import opened StepLedger

  type Claim = (Client, Key)

  datatype State = State(
    rows: Table, now: int,
    claims: map<Claim, int>,            // outstanding claims, with the time each was won
    conflicts: set<Claim>,              // bare inserts that met a row and are about to read it
    completed: map<Key, nat>,           // how many writes have finished each step
    answers: set<(Key, Json)>,          // every result handed to a caller
    raised: set<Claim>)                 // bare calls that found no row after their conflict

  const Initial := State(map[], 0, map[], {}, map[], {}, {})

  datatype Step =
    | Tick(later: int)
    | DeleteStale(k: Key)
    | InsertClaim(c: Client, k: Key)
    | Replay(k: Key)
    | Complete(c: Client, k: Key, result: Json)
    | Abandon(c: Client, k: Key)
    | Die(c: Client, k: Key)
    | BareSelect(k: Key)
    | BareInsert(c: Client, k: Key, result: Json)
    | BareReread(c: Client, k: Key)

  ghost predicate Enabled(s: State, step: Step) {
    match step
    case Tick(later) => s.now <= later
    case DeleteStale(_) => true
    case InsertClaim(c, k) => (c, k) !in s.claims
    case Replay(k) => k in s.rows && s.rows[k].Succeeded?
    case Complete(c, k, _) => (c, k) in s.claims
    case Abandon(c, k) => (c, k) in s.claims
    case Die(c, k) => (c, k) in s.claims
    case BareSelect(_) => true
    case BareInsert(c, k, _) => (c, k) !in s.conflicts
    case BareReread(c, k) => (c, k) in s.conflicts
  }

  ghost function Count(m: map<Key, nat>, k: Key): nat {
    if k in m then m[k] else 0
  }

  /** A SELECT of the result, whatever the state of the row; an absent row hands nothing out. */
  ghost function Read(s: State, k: Key): State {
    if k in s.rows then s.(answers := s.answers + {(k, ResultOf(s.rows[k]))}) else s
  }

  /** A write that finishes `k` with `result` and hands it back. */
  ghost function Finish(s: State, k: Key, result: Json, t: Table): State {
    s.(rows := t, completed := s.completed[k := Count(s.completed, k) + 1], answers := s.answers + {(k, result)})
  }

  ghost function Apply(s: State, step: Step): State
    requires Enabled(s, step)
  {
    match step
    case Tick(later) => s.(now := later)
    case DeleteStale(k) => s.(rows := DeleteStaleTable(s.rows, k, s.now))
    case InsertClaim(c, k) =>
      if k in s.rows then s else s.(rows := s.rows[k := Claimed(s.now)], claims := s.claims[(c, k) := s.now])
    case Replay(k) => s.(answers := s.answers + {(k, ResultOf(s.rows[k]))})
    case Complete(c, k, result) =>
      var done := s.(claims := s.claims - {(c, k)});
      if Running(s.rows, k) then Finish(done, k, result, CompleteTable(s.rows, k, result)) else done
    case Abandon(c, k) => s.(rows := AbandonTable(s.rows, k), claims := s.claims - {(c, k)})
    case Die(c, k) => s.(claims := s.claims - {(c, k)})
    case BareSelect(k) => Read(s, k)
    case BareInsert(c, k, result) =>
      if k in s.rows then s.(conflicts := s.conflicts + {(c, k)})
      else Finish(s, k, result, InsertTable(s.rows, k, Succeeded(result)))
    case BareReread(c, k) =>
      var read := Read(s, k).(conflicts := s.conflicts - {(c, k)});
      if k in s.rows then read else read.(raised := s.raised + {(c, k)})
  }

  ghost predicate FinishedOnce(s: State) {
    forall k :: Count(s.completed, k) == if k in s.rows && s.rows[k].Succeeded? then 1 else 0
  }

  ghost predicate AnswersStored(s: State) {
    forall k, r :: (k, r) in s.answers && r != JsonNull ==> k in s.rows && s.rows[k] == Succeeded(r)
  }

  /** A step is finished exactly once, and every result handed out is the stored one. */
  ghost predicate Inv(s: State) {
    FinishedOnce(s) && AnswersStored(s)
  }

  lemma StepKeepsSucceeded(s: State, step: Step)
    requires Enabled(s, step)
    ensures forall k :: k in s.rows && s.rows[k].Succeeded? ==>
      k in Apply(s, step).rows && Apply(s, step).rows[k] == s.rows[k]
  {
  }

  lemma StepFinishesOnce(s: State, step: Step)
    requires FinishedOnce(s) && Enabled(s, step)
    ensures FinishedOnce(Apply(s, step))
  {
  }

  lemma StepStoresAnswers(s: State, step: Step)
    requires AnswersStored(s) && Enabled(s, step)
    ensures AnswersStored(Apply(s, step))
  {
  }

  lemma StepKeepsInv(s: State, step: Step)
    requires Inv(s) && Enabled(s, step)
    ensures Inv(Apply(s, step))
    ensures forall k :: k in s.rows && s.rows[k].Succeeded? ==>
      k in Apply(s, step).rows && Apply(s, step).rows[k] == s.rows[k]
  {
    hide Apply, FinishedOnce, AnswersStored;
    StepFinishesOnce(s, step);
    StepStoresAnswers(s, step);
    StepKeepsSucceeded(s, step);
  }

  ghost predicate ValidRun(steps: seq<Step>)
    decreases |steps|, 0
  {
    steps == [] || (ValidRun(steps[..|steps| - 1]) && Enabled(Exec(steps[..|steps| - 1]), steps[|steps| - 1]))
  }

  ghost function Exec(steps: seq<Step>): State
    requires ValidRun(steps)
    decreases |steps|, 1
  {
    if steps == [] then Initial else Apply(Exec(steps[..|steps| - 1]), steps[|steps| - 1])
  }

  lemma {:induction false} RunInv(steps: seq<Step>)
    requires ValidRun(steps)
    ensures Inv(Exec(steps))
    decreases |steps|
  {
    if steps != [] {
      RunInv(steps[..|steps| - 1]);
      StepKeepsInv(Exec(steps[..|steps| - 1]), steps[|steps| - 1]);
    }
  }

  lemma {:induction false} PrefixValid(steps: seq<Step>, n: nat)
    requires ValidRun(steps) && n <= |steps|
    ensures ValidRun(steps[..n])
    decreases |steps|
  {
    if n < |steps| {
      PrefixValid(steps[..|steps| - 1], n);
      assert steps[..|steps| - 1][..n] == steps[..n];
    } else {
      assert steps[..n] == steps;
    }
  }

  /** The state after the first `n` steps of a run. */
  ghost function StateAt(steps: seq<Step>, n: nat): State
    requires ValidRun(steps) && n <= |steps|
  {
    PrefixValid(steps, n);
    Exec(steps[..n])
  }

  /** Dropping the last step does not change the states before it, and the last step leads from the one to the other. */
  lemma AtFront(steps: seq<Step>, n: nat)
    requires ValidRun(steps) && n < |steps|
    ensures StateAt(steps[..|steps| - 1], n) == StateAt(steps, n)
    ensures StateAt(steps, |steps| - 1) == Exec(steps[..|steps| - 1])
    ensures Enabled(Exec(steps[..|steps| - 1]), steps[|steps| - 1])
    ensures Exec(steps) == Apply(Exec(steps[..|steps| - 1]), steps[|steps| - 1])
  {
    assert steps[..|steps| - 1][..n] == steps[..n];
  }

  /** A succeeded row never changes or disappears. */
  lemma {:induction false} SucceededForever(steps: seq<Step>, n: nat, k: Key)
    requires ValidRun(steps) && n <= |steps|
    requires k in StateAt(steps, n).rows && StateAt(steps, n).rows[k].Succeeded?
    ensures k in Exec(steps).rows && Exec(steps).rows[k] == StateAt(steps, n).rows[k]
    decreases |steps|
  {
    if n < |steps| {
      var front := steps[..|steps| - 1];
      AtFront(steps, n);
      SucceededForever(front, n, k);
      RunInv(front);
      StepKeepsInv(Exec(front), steps[|steps| - 1]);
    } else {
      assert steps[..n] == steps;
    }
  }

  /** At most one write finishes a step, and every result handed out for it is that write's. */
  lemma ResultOnce(steps: seq<Step>, k: Key)
    requires ValidRun(steps)
    ensures Count(Exec(steps).completed, k) <= 1
    ensures forall a, b :: (k, a) in Exec(steps).answers && (k, b) in Exec(steps).answers && JsonNull !in {a, b} ==>
      a == b
  {
    hide Apply, Enabled;
    RunInv(steps);
    AnswersAgree(Exec(steps), k);
  }

  lemma AnswersAgree(s: State, k: Key)
    requires Inv(s)
    ensures Count(s.completed, k) <= 1
    ensures forall a, b :: (k, a) in s.answers && (k, b) in s.answers && JsonNull !in {a, b} ==> a == b
  {
  }

  // ---------- the bare call ----------

  /** A bare read meets a row that somebody else's claim keeps running; the read does not look at the state. */
  predicate ReadsNull(s: State, step: Step, k: Key) {
    (step == BareSelect(k) || (step.BareReread? && step.k == k)) && Running(s.rows, k)
  }

  /** Some step of the run is such a read. */
  ghost predicate SomeReadsNull(steps: seq<Step>, k: Key)
    requires ValidRun(steps)
    decreases |steps|
  {
    steps != [] &&
    (SomeReadsNull(steps[..|steps| - 1], k) || ReadsNull(Exec(steps[..|steps| - 1]), steps[|steps| - 1], k))
  }

  predicate NullStored(s: State, k: Key) {
    k in s.rows && s.rows[k] == Succeeded(JsonNull)
  }

  /** Null is handed out exactly when some bare read met a running claim, or null is the stored result. */
  lemma {:induction false} NullExactly(steps: seq<Step>, k: Key)
    requires ValidRun(steps)
    ensures (k, JsonNull) in Exec(steps).answers <==> SomeReadsNull(steps, k) || NullStored(Exec(steps), k)
    decreases |steps|
  {
    hide Apply, Enabled, ReadsNull;
    if steps != [] {
      var front, last := steps[..|steps| - 1], steps[|steps| - 1];
      NullExactly(front, k);
      NullStep(Exec(front), last, k);
      StepKeepsSucceeded(Exec(front), last);
    }
  }

  lemma NullStep(s: State, step: Step, k: Key)
    requires Enabled(s, step) && (NullStored(s, k) ==> (k, JsonNull) in s.answers)
    ensures (k, JsonNull) in Apply(s, step).answers <==>
              (k, JsonNull) in s.answers || ReadsNull(s, step, k) || NullStored(Apply(s, step), k)
  {
    if !step.Tick? && step.k != k {
      assert NullStored(Apply(s, step), k) <==> NullStored(s, k);
    }
  }

  /**
   * All answers for a step agree exactly when no bare read met a running claim, or no result other than JSON null was
   * handed out.
   */
  lemma AnswersAgreeExactly(steps: seq<Step>, k: Key)
    requires ValidRun(steps)
    ensures (forall a, b :: (k, a) in Exec(steps).answers && (k, b) in Exec(steps).answers ==> a == b) <==>
              !SomeReadsNull(steps, k) || forall r :: (k, r) in Exec(steps).answers ==> r == JsonNull
  {
    hide Apply, Enabled;
    NullExactly(steps, k);
    RunInv(steps);
    AnswersMeet(Exec(steps), k, SomeReadsNull(steps, k));
  }

  lemma AnswersMeet(s: State, k: Key, readNull: bool)
    requires Inv(s) && ((k, JsonNull) in s.answers <==> readNull || NullStored(s, k))
    ensures (forall a, b :: (k, a) in s.answers && (k, b) in s.answers ==> a == b) <==>
              !readNull || forall r :: (k, r) in s.answers ==> r == JsonNull
  {
    AnswersAgree(s, k);
    if r :| (k, r) in s.answers && r != JsonNull {
      assert s.rows[k] == Succeeded(r);
    }
  }

  /** A finished step whose body returned nothing is answered with null, though no claim was ever running. */
  lemma NullResultReplays() returns (steps: seq<Step>, k: Key)
    ensures ValidRun(steps) && (k, JsonNull) in Exec(steps).answers && !SomeReadsNull(steps, k)
  {
    k := (0, "install");
    var s1 := Apply(Initial, BareInsert(1, k, JsonNull));
    steps := Then([], Initial, BareInsert(1, k, JsonNull));
    steps := Then(steps, s1, BareSelect(k));
    NeverClaimed(steps, k);
  }

  /** Without a claim of the step no read meets one. */
  lemma {:induction false} NeverClaimed(steps: seq<Step>, k: Key)
    requires ValidRun(steps) && forall c :: InsertClaim(c, k) !in steps
    ensures !Running(Exec(steps).rows, k) && !SomeReadsNull(steps, k)
    decreases |steps|
  {
    if steps != [] {
      var front := steps[..|steps| - 1];
      assert forall x :: x in front ==> x in steps;
      NeverClaimed(front, k);
      assert steps[|steps| - 1] in steps;
    }
  }

  /** A running row is given up by its owner or deleted as stale. */
  predicate Removes(s: State, step: Step, k: Key) {
    || (step.Abandon? && step.k == k && Running(s.rows, k))
    || (step == DeleteStale(k) && Stale(s.rows, k, s.now))
  }

  predicate Inserts(step: Step, k: Key) {
    (step.InsertClaim? || step.BareInsert?) && step.k == k
  }

  lemma PresenceStep(s: State, step: Step, k: Key)
    requires Enabled(s, step)
    ensures k !in Apply(s, step).rows <==> if k in s.rows then Removes(s, step, k) else !Inserts(step, k)
  {
  }

  ghost predicate TakenAwayAt(steps: seq<Step>, m: nat, k: Key)
    requires ValidRun(steps) && m < |steps|
  {
    Removes(StateAt(steps, m), steps[m], k) && forall j :: m < j < |steps| ==> !Inserts(steps[j], k)
  }

  /** Since step `n` the row was given up or deleted as stale, and nobody has inserted it again. */
  ghost predicate Vanished(steps: seq<Step>, n: nat, k: Key)
    requires ValidRun(steps)
  {
    exists m: nat :: n <= m < |steps| && TakenAwayAt(steps, m, k)
  }

  lemma VanishedFront(steps: seq<Step>, n: nat, k: Key)
    requires ValidRun(steps) && n < |steps|
    ensures var front, last := steps[..|steps| - 1], steps[|steps| - 1];
      Vanished(steps, n, k) <==> Removes(Exec(front), last, k) || (Vanished(front, n, k) && !Inserts(last, k))
  {
    var front, end := steps[..|steps| - 1], |steps| - 1;
    AtFront(steps, end);
    assert Removes(Exec(front), steps[end], k) ==> TakenAwayAt(steps, end, k);
    forall m: nat | n <= m < end
      ensures TakenAwayAt(steps, m, k) <==> TakenAwayAt(front, m, k) && !Inserts(steps[end], k)
    {
      AtFront(steps, m);
      assert forall j :: m < j < end ==> front[j] == steps[j];
    }
  }

  /** A row that was there is gone exactly when it vanished. */
  lemma {:induction false} GoneExactly(steps: seq<Step>, n: nat, k: Key)
    requires ValidRun(steps) && n <= |steps| && k in StateAt(steps, n).rows
    ensures k !in Exec(steps).rows <==> Vanished(steps, n, k)
    decreases |steps|
  {
    hide Apply, Enabled;
    if n < |steps| {
      AtFront(steps, n);
      GoneExactly(steps[..|steps| - 1], n, k);
      PresenceStep(Exec(steps[..|steps| - 1]), steps[|steps| - 1], k);
      VanishedFront(steps, n, k);
    } else {
      assert steps[..n] == steps;
    }
  }

  /**
   * After its insert at step `n` met a row, a bare call raises instead of answering exactly when that row vanished
   * before the call read it; a finished row never does.
   */
  lemma ConflictRaisesExactly(steps: seq<Step>, n: nat, c: Client, k: Key, result: Json)
    requires ValidRun(steps) && n < |steps| && steps[n] == BareInsert(c, k, result) && k in StateAt(steps, n).rows
    requires Enabled(Exec(steps), BareReread(c, k))
    ensures Apply(Exec(steps), BareReread(c, k)).raised == Exec(steps).raised + (if Vanished(steps, n, k) then {(c, k)} else {})
    ensures StateAt(steps, n).rows[k].Succeeded? ==> !Vanished(steps, n, k)
  {
    GoneExactly(steps, n, k);
    if StateAt(steps, n).rows[k].Succeeded? {
      SucceededForever(steps, n, k);
    }
  }

  lemma Then(steps: seq<Step>, s: State, step: Step) returns (more: seq<Step>)
    requires ValidRun(steps) && Exec(steps) == s && Enabled(s, step)
    ensures more == steps + [step] && ValidRun(more) && Exec(more) == Apply(s, step)
  {
    more := steps + [step];
    assert more[..|more| - 1] == steps;
  }

  /** So replays can disagree: here one caller is told null and another the result. */
  lemma BareReplaysCanDisagree() returns (steps: seq<Step>, k: Key)
    ensures ValidRun(steps) && (k, JsonNull) in Exec(steps).answers && (k, JsonValue("done")) in Exec(steps).answers
  {
    k := (0, "install");
    var s0, s1 := Initial, Apply(Initial, InsertClaim(1, k));
    steps := Then([], s0, InsertClaim(1, k));
    steps := Then(steps, s1, BareSelect(k));
    var s2 := Apply(s1, BareSelect(k));
    steps := Then(steps, s2, Complete(1, k, JsonValue("done")));
  }

  /** The row a bare insert met is abandoned before it is read: the call raises, though a conflict did fire. */
  lemma ConflictCanRaise() returns (steps: seq<Step>, k: Key)
    ensures ValidRun(steps) && (2, k) in Exec(steps).raised
  {
    k := (0, "install");
    var s1 := Apply(Initial, InsertClaim(1, k));
    steps := Then([], Initial, InsertClaim(1, k));
    steps := Then(steps, s1, BareInsert(2, k, JsonValue("done")));
    var s2 := Apply(s1, BareInsert(2, k, JsonValue("done")));
    steps := Then(steps, s2, Abandon(1, k));
    var s3 := Apply(s2, Abandon(1, k));
    steps := Then(steps, s3, BareReread(2, k));
  }

  /** A claim is outstanding from the insert that won it until its holder completes, abandons or dies. */
  lemma ClaimsExactly(s: State, step: Step, c: Client, k: Key)
    requires Enabled(s, step)
    ensures (c, k) in s.claims ==>
              ((c, k) !in Apply(s, step).claims <==>
               (step.Complete? || step.Abandon? || step.Die?) && step.c == c && step.k == k)
    ensures (c, k) !in s.claims ==>
              ((c, k) in Apply(s, step).claims <==> step == InsertClaim(c, k) && k !in s.rows)
    ensures step.Die? ==> Apply(s, step).rows == s.rows
  {
  }

  /** The step hands out what the row of `k` holds: a replay of a finished row, or a bare read. */
  predicate Reads(s: State, step: Step, k: Key, r: Json) {
    && (step == Replay(k) || step == BareSelect(k) || (step.BareReread? && step.k == k))
    && k in s.rows && ResultOf(s.rows[k]) == r
  }

  /** The step finishes `k` with `r`: a completion of a running row, or a bare insert of an absent one. */
  predicate Finishes(s: State, step: Step, k: Key, r: Json) {
    || (step.Complete? && step.k == k && step.result == r && Running(s.rows, k))
    || (step.BareInsert? && step.k == k && step.result == r && k !in s.rows)
  }

  /** A result is handed out exactly by a step that reads it or stores it. */
  lemma AnswersExactly(s: State, step: Step, k: Key, r: Json)
    requires Enabled(s, step)
    ensures (k, r) in Apply(s, step).answers <==>
              (k, r) in s.answers || Reads(s, step, k, r) || Finishes(s, step, k, r)
  {
    match step
    case Complete(c, j, result) => assert (j, result) == (k, r) <==> j == k && result == r;
    case BareInsert(c, j, result) => assert (j, result) == (k, r) <==> j == k && result == r;
    case _ =>
  }

  /** A row is finished exactly by the step that stores its result. */
  lemma FinishedExactly(s: State, step: Step, k: Key, r: Json)
    requires Enabled(s, step)
    ensures k in Apply(s, step).rows && Apply(s, step).rows[k] == Succeeded(r) <==>
              (k in s.rows && s.rows[k] == Succeeded(r)) || Finishes(s, step, k, r)
  {
  }

  // ---------- exclusive claims ----------

  /** No outstanding claim is older than the stale interval. */
  ghost predicate Prompt(s: State) {
    forall c :: c in s.claims ==> s.now - s.claims[c] <= StaleInterval
  }

  ghost predicate PromptRun(steps: seq<Step>)
    requires ValidRun(steps)
    decreases |steps|
  {
    Prompt(Exec(steps)) && (steps != [] ==> PromptRun(steps[..|steps| - 1]))
  }

  /** Every outstanding claim is the row's own, so no two clients hold one step. */
  ghost predicate Exclusive(s: State) {
    && (forall c, k :: (c, k) in s.claims ==> k in s.rows && s.rows[k] == Claimed(s.claims[(c, k)]))
    && (forall c, d, k :: (c, k) in s.claims && (d, k) in s.claims ==> c == d)
  }

  /** The step deletes, as stale, the row of a claim that is still outstanding. */
  ghost predicate Robs(s: State, step: Step) {
    step.DeleteStale? && Stale(s.rows, step.k, s.now) && exists c :: (c, step.k) in s.claims
  }

  /** That is the only step that breaks exclusive claims. */
  lemma ExclusiveStep(s: State, step: Step)
    requires Exclusive(s) && Enabled(s, step)
    ensures Exclusive(Apply(s, step)) <==> !Robs(s, step)
  {
    var s' := Apply(s, step);
    if Robs(s, step) {
      var c :| (c, step.k) in s.claims;
      assert (c, step.k) in s'.claims && step.k !in s'.rows;
    }
  }

  ghost predicate AlwaysExclusive(steps: seq<Step>)
    requires ValidRun(steps)
    decreases |steps|
  {
    Exclusive(Exec(steps)) && (steps != [] ==> AlwaysExclusive(steps[..|steps| - 1]))
  }

  ghost predicate NeverRobs(steps: seq<Step>)
    requires ValidRun(steps)
    decreases |steps|
  {
    steps != [] ==> NeverRobs(steps[..|steps| - 1]) && !Robs(Exec(steps[..|steps| - 1]), steps[|steps| - 1])
  }

  /** Claims are exclusive throughout a run exactly when no step of it deletes the row of an outstanding claim. */
  lemma {:induction false} ExclusiveExactly(steps: seq<Step>)
    requires ValidRun(steps)
    ensures AlwaysExclusive(steps) <==> NeverRobs(steps)
    decreases |steps|
  {
    hide Apply, Enabled;
    if steps != [] {
      var front := steps[..|steps| - 1];
      ExclusiveExactly(front);
      if AlwaysExclusive(front) {
        ExclusiveStep(Exec(front), steps[|steps| - 1]);
      }
    }
  }

  ghost predicate SoleClaims(s: State) {
    forall c, d, k :: (c, k) in s.claims && (d, k) in s.claims ==> c == d
  }

  /** A claim is won while another client's claim of the same step is outstanding. */
  ghost predicate Overlaps(s: State, step: Step) {
    step.InsertClaim? && step.k !in s.rows && exists d :: (d, step.k) in s.claims
  }

  lemma SoleStep(s: State, step: Step)
    requires SoleClaims(s) && Enabled(s, step)
    ensures SoleClaims(Apply(s, step)) <==> !Overlaps(s, step)
  {
    if Overlaps(s, step) {
      var d :| (d, step.k) in s.claims;
      var s' := Apply(s, step);
      assert (d, step.k) in s'.claims && (step.c, step.k) in s'.claims;
    }
  }

  ghost predicate AlwaysSole(steps: seq<Step>)
    requires ValidRun(steps)
    decreases |steps|
  {
    SoleClaims(Exec(steps)) && (steps != [] ==> AlwaysSole(steps[..|steps| - 1]))
  }

  /** The step deletes, as stale, the row of the client's outstanding claim. */
  predicate RobsOf(s: State, step: Step, c: Client, k: Key) {
    (c, k) in s.claims && step == DeleteStale(k) && Stale(s.rows, k, s.now)
  }

  /** The row of the client's outstanding claim was deleted as stale, and the claim has not ended since. */
  ghost predicate RobbedSince(steps: seq<Step>, c: Client, k: Key)
    requires ValidRun(steps)
    decreases |steps|
  {
    && steps != [] && (c, k) in Exec(steps).claims
    && (var front := steps[..|steps| - 1];
        || RobbedSince(front, c, k)
        || RobsOf(Exec(front), steps[|steps| - 1], c, k))
  }

  /** Another client wins the step before that claim ends. */
  ghost predicate TakesOver(steps: seq<Step>, step: Step)
    requires ValidRun(steps)
  {
    step.InsertClaim? && step.k !in Exec(steps).rows && exists c: Client :: RobbedSince(steps, c, step.k)
  }

  ghost predicate SomeTakesOver(steps: seq<Step>)
    requires ValidRun(steps)
    decreases |steps|
  {
    steps != [] && (SomeTakesOver(steps[..|steps| - 1]) || TakesOver(steps[..|steps| - 1], steps[|steps| - 1]))
  }

  /** While claims are sole, an outstanding claim has its running row or was robbed of it. */
  lemma {:induction false} RunningOrRobbed(steps: seq<Step>, c: Client, k: Key)
    requires ValidRun(steps) && AlwaysSole(steps) && (c, k) in Exec(steps).claims
    ensures Running(Exec(steps).rows, k) || RobbedSince(steps, c, k)
    decreases |steps|
  {
    if steps != [] {
      var front, last := steps[..|steps| - 1], steps[|steps| - 1];
      hide RobbedSince;
      if (c, k) in Exec(front).claims {
        RunningOrRobbed(front, c, k);
        if RobbedSince(front, c, k) {
          StillRobbed(steps, c, k);
        } else {
          OwnRowStep(Exec(front), last, c, k);
          if !Running(Exec(steps).rows, k) {
            StillRobbed(steps, c, k);
          }
        }
      }
    }
  }

  lemma StillRobbed(steps: seq<Step>, c: Client, k: Key)
    requires ValidRun(steps) && steps != [] && (c, k) in Exec(steps).claims
    requires var front := steps[..|steps| - 1];
      || RobbedSince(front, c, k)
      || RobsOf(Exec(front), steps[|steps| - 1], c, k)
    ensures RobbedSince(steps, c, k)
  {
  }

  /** The sole claimant's running row stays, its claim ends, or the row is deleted as stale. */
  lemma OwnRowStep(s: State, step: Step, c: Client, k: Key)
    requires SoleClaims(s) && Enabled(s, step) && (c, k) in s.claims && Running(s.rows, k)
    ensures Running(Apply(s, step).rows, k) || (c, k) !in Apply(s, step).claims || RobsOf(s, step, c, k)
  {
  }

  /**
   * A step gets two outstanding claimants in a run exactly when the row of an outstanding claim is deleted as stale and
   * another client wins the step before that claim ends.
   */
  lemma {:induction false} TwoClaimantsExactly(steps: seq<Step>)
    requires ValidRun(steps)
    ensures !AlwaysSole(steps) <==> SomeTakesOver(steps)
    decreases |steps|
  {
    hide Apply, Enabled, RobbedSince;
    if steps != [] {
      var front, last := steps[..|steps| - 1], steps[|steps| - 1];
      TwoClaimantsExactly(front);
      if AlwaysSole(front) {
        SoleStep(Exec(front), last);
        OverlapIsTakeover(front, last);
      }
    }
  }

  lemma OverlapIsTakeover(steps: seq<Step>, step: Step)
    requires ValidRun(steps) && AlwaysSole(steps)
    ensures Overlaps(Exec(steps), step) <==> TakesOver(steps, step)
  {
    hide Apply, Enabled, AlwaysSole;
    if Overlaps(Exec(steps), step) {
      var d :| (d, step.k) in Exec(steps).claims;
      RunningOrRobbed(steps, d, step.k);
    }
    if TakesOver(steps, step) {
      var c: Client :| RobbedSince(steps, c, step.k);
      assert (c, step.k) in Exec(steps).claims;
    }
  }

  /** In particular if no claim outlives the stale interval: then a step never has two outstanding claimants. */
  lemma {:induction false} OneClaimant(steps: seq<Step>)
    requires ValidRun(steps) && PromptRun(steps)
    ensures NeverRobs(steps) && Exclusive(Exec(steps))
    decreases |steps|
  {
    hide Apply, Enabled;
    if steps != [] {
      var front := steps[..|steps| - 1];
      OneClaimant(front);
      assert !Robs(Exec(front), steps[|steps| - 1]);
      ExclusiveStep(Exec(front), steps[|steps| - 1]);
    }
  }

  /** Without that, a claim that outlives the interval is taken over while its owner still works. */
  lemma LateOwnerOverlaps() returns (steps: seq<Step>, k: Key)
    ensures ValidRun(steps) && (1, k) in Exec(steps).claims && (2, k) in Exec(steps).claims
  {
    k := (0, "boot");
    var s1 := Apply(Initial, InsertClaim(1, k));
    steps := Then([], Initial, InsertClaim(1, k));
    steps := Then(steps, s1, Tick(StaleInterval + 1));
    var s2 := Apply(s1, Tick(StaleInterval + 1));
    steps := Then(steps, s2, DeleteStale(k));
    var s3 := Apply(s2, DeleteStale(k));
    steps := Then(steps, s3, InsertClaim(2, k));
  }
}
