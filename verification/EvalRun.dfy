/** The evaluation loop of `eval.rs` as a process over a checkpoint file: resume, skip, halt, save. */
module EvalRun {
  import opened Options
  import opened Report

  /** A question; its category is None when the question type is unknown. */
  datatype Question = Question(id: string, category: Option<Category>)

  /** The outcome of evaluating one question. */
  datatype Evaluation =
    | Answered(correct: bool, predicted: string, retryCount: nat, outcome: OutcomeClass)
    | LocalError(message: string)

  /** One invocation: the questions after filtering, the configuration fingerprint, and what
      evaluation would return. */
  datatype Env = Env(questions: seq<Question>, fingerprint: string, eval: Question -> Evaluation)

  const MAX_CONSECUTIVE_ERRORS: nat := 3

  function ResultFor(env: Env, q: Question): QuestionResult
    requires q.category.Some?
  {
    match env.eval(q)
    case Answered(correct, predicted, retries, outcome) =>
      QuestionResult(q.id, q.category.value, correct, predicted, retries, outcome)
    case LocalError(message) =>
      QuestionResult(q.id, q.category.value, false, "[error: " + message + "]", 0, TransportFailure)
  }

  /** Evaluating the question fails, locally or in a way that was classified. */
  ghost predicate Fails(env: Env, q: Question)
  {
    match env.eval(q)
    case Answered(_, _, _, outcome) => outcome != Ok
    case LocalError(_) => true
  }

  // ---- the process

  /** About to look at a question, or, after recording it, to write the temporary file, or to rename it. */
  datatype Stage = Looking | Writing | Renaming

  datatype Process =
    | Dead
    | Running(report: Summary, pos: nat, completed: set<string>, errors: nat, stage: Stage)
    | Done(final: Summary)

  /** The checkpoint file, the temporary file beside it, and the process; only the files survive a
      crash. A file that is missing, or does not hold a whole report, is None. */
  datatype System = System(disk: Option<Summary>, temp: Option<Summary>, process: Process)

  function Ids(rs: seq<QuestionResult>): set<string>
  {
    set r | r in rs :: r.questionId
  }

  ghost predicate Resumable(env: Env, disk: Option<Summary>)
  {
    disk.Some? && disk.value.results != [] && disk.value.fingerprint == env.fingerprint
  }

  /** The report a run starts from. */
  function Load(env: Env, disk: Option<Summary>): Summary
  {
    if disk.Some? && disk.value.results != [] && disk.value.fingerprint != env.fingerprint then
      Empty(env.fingerprint)
    else if disk.Some? && disk.value.results != [] then
      disk.value.(status := Completed)
    else Empty(env.fingerprint)
  }

  function Start(env: Env, disk: Option<Summary>): Process
  {
    var report := Load(env, disk);
    Running(report, 0, Ids(report.results), 0, Looking)
  }

  /** One step of an undisturbed process. */
  function Next(env: Env, s: System): System
  {
    match s.process
    case Dead => s.(process := Start(env, s.disk))
    case Done(_) => s
    case Running(report, pos, completed, errors, Writing) =>
      s.(temp := Some(Finalized(report)), process := s.process.(stage := Renaming))
    case Running(report, pos, completed, errors, Renaming) =>
      System(s.temp, None, Running(report, pos + 1, completed, errors, Looking))
    case Running(report, pos, completed, errors, Looking) =>
      if pos >= |env.questions| then
        s.(process := Done(Finalized(report)))
      else
        var q := env.questions[pos];
        if q.id in completed || q.category.None? then
          s.(process := s.process.(pos := pos + 1))
        else
          var r := ResultFor(env, q);
          var errors' := if r.outcome != Ok then errors + 1 else 0;
          var report' := Recorded(report, r);
          if errors' >= MAX_CONSECUTIVE_ERRORS then
            s.(process := Done(Finalized(report'.(status := HaltedOnErrors(errors')))))
          else
            s.(process := Running(report', pos, completed, errors', Writing))
  }

  /** What can happen: a step, a save that fails and is only warned about, or a crash followed later
      by a new invocation. A write cut short leaves a torn temporary file. */
  datatype Event = Tick | SaveFails | Crash

  predicate Saving(p: Process)
  {
    p.Running? && p.stage != Looking
  }

  /** The temporary file when what the process is doing is cut short. */
  function Torn(s: System): Option<Summary>
  {
    if s.process.Running? && s.process.stage == Writing then None else s.temp
  }

  function Apply(env: Env, s: System, e: Event): System
  {
    match e
    case Tick => Next(env, s)
    case SaveFails =>
      if Saving(s.process) then
        s.(temp := Torn(s), process := s.process.(pos := s.process.pos + 1, stage := Looking))
      else s
    case Crash => s.(temp := Torn(s), process := Dead)
  }

  function Exec(env: Env, s: System, events: seq<Event>): System
  {
    if events == [] then s
    else Apply(env, Exec(env, s, events[..|events| - 1]), events[|events| - 1])
  }

  // ---- what the results must be

  ghost predicate DistinctIds(env: Env)
  {
    forall i, j :: 0 <= i < j < |env.questions| ==> env.questions[i].id != env.questions[j].id
  }

  /** The results of the first k questions, in order. */
  ghost function Planned(env: Env, k: nat): seq<QuestionResult>
    requires k <= |env.questions|
  {
    if k == 0 then []
    else
      Planned(env, k - 1)
      + (if env.questions[k - 1].category.Some? then [ResultFor(env, env.questions[k - 1])] else [])
  }

  ghost function Complete(env: Env): Summary
  {
    Finalized(RecordAll(Empty(env.fingerprint), Planned(env, |env.questions|)))
  }

  /** Failures at the end of the results. */
  ghost function Trailing(rs: seq<QuestionResult>): nat
  {
    if rs == [] || rs[|rs| - 1].outcome == Ok then 0 else 1 + Trailing(rs[..|rs| - 1])
  }

  /** No three failures in a row: an undisturbed run from scratch does not halt. */
  ghost predicate NeverHalts(env: Env)
  {
    forall k :: 0 <= k <= |env.questions| ==> Trailing(Planned(env, k)) < MAX_CONSECUTIVE_ERRORS
  }

  /** The report holds the results of the first k questions and the counters that go with them. */
  ghost predicate Holds(env: Env, s: Summary, k: nat)
  {
    k <= |env.questions|
    && s.(accuracy := 0.0) == RecordAll(Empty(env.fingerprint), Planned(env, k))
  }

  ghost predicate DiskOk(env: Env, disk: Option<Summary>)
  {
    Resumable(env, disk) ==> exists m :: Holds(env, disk.value, m)
  }

  /** Where a running process that resumed at m has got to. */
  ghost function Reached(p: Process, m: nat): nat
    requires p.Running?
  {
    var k := if Saving(p) then p.pos + 1 else p.pos;
    if k <= m then m else k
  }

  ghost predicate RunningFrom(env: Env, p: Process, m: nat)
    requires p.Running?
  {
    && m <= |env.questions| && p.pos <= |env.questions|
    && (Saving(p) ==> m <= p.pos < |env.questions|)
    && p.completed == Ids(Planned(env, m))
    && Holds(env, p.report, Reached(p, m))
    && p.errors < MAX_CONSECUTIVE_ERRORS
    && p.errors <= Trailing(Planned(env, Reached(p, m)))
  }

  /** The file about to be renamed holds the whole finalized report. */
  ghost predicate TempOk(s: System)
  {
    s.process.Running? && s.process.stage == Renaming ==> s.temp == Some(Finalized(s.process.report))
  }

  ghost predicate Inv(env: Env, s: System)
  {
    && DiskOk(env, s.disk) && TempOk(s)
    && match s.process
       case Dead => true
       case Running(_, _, _, _, _) => exists m :: RunningFrom(env, s.process, m)
       case Done(final) =>
         if final.status == Completed then final == Complete(env)
         else !NeverHalts(env) && exists k :: Holds(env, final.(status := Completed), k)
  }

  lemma {:induction false} PlannedFacts(env: Env, k: nat)
    requires k <= |env.questions|
    ensures RecordAll(Empty(env.fingerprint), Planned(env, k)).results == Planned(env, k)
    ensures Consistent(RecordAll(Empty(env.fingerprint), Planned(env, k)))
    ensures RecordAll(Empty(env.fingerprint), Planned(env, k)).fingerprint == env.fingerprint
    ensures RecordAll(Empty(env.fingerprint), Planned(env, k)).status == Completed
    ensures RecordAll(Empty(env.fingerprint), Planned(env, k)).accuracy == 0.0
  {
    EmptyConsistent(env.fingerprint);
    RecordAllConsistent(Empty(env.fingerprint), Planned(env, k));
    assert [] + Planned(env, k) == Planned(env, k);
  }

  /** The ids planned so far are those of the first k questions of known type. */
  lemma {:induction false} PlannedIds(env: Env, k: nat, id: string)
    requires k <= |env.questions|
    ensures id in Ids(Planned(env, k)) <==>
              exists i :: 0 <= i < k && env.questions[i].id == id && env.questions[i].category.Some?
  {
    if k > 0 {
      PlannedIds(env, k - 1, id);
      var q := env.questions[k - 1];
      if q.category.Some? {
        IdsAppend(Planned(env, k - 1), ResultFor(env, q));
      }
    }
  }

  lemma IdsAppend(rs: seq<QuestionResult>, r: QuestionResult)
    ensures Ids(rs + [r]) == Ids(rs) + {r.questionId}
  {
  }

  lemma RecordedHolds(env: Env, s: Summary, k: nat)
    requires k < |env.questions| && Holds(env, s, k) && env.questions[k].category.Some?
    ensures Holds(env, Recorded(s, ResultFor(env, env.questions[k])), k + 1)
  {
    var r := ResultFor(env, env.questions[k]);
    var rs := Planned(env, k);
    assert Planned(env, k + 1) == rs + [r];
    assert (rs + [r])[..|rs + [r]| - 1] == rs;
    assert Recorded(s, r).(accuracy := 0.0) == Recorded(s.(accuracy := 0.0), r);
  }

  lemma TrailingStep(rs: seq<QuestionResult>, r: QuestionResult)
    ensures Trailing(rs + [r]) == if r.outcome == Ok then 0 else 1 + Trailing(rs)
  {
    assert (rs + [r])[..|rs + [r]| - 1] == rs;
  }

  lemma StartOk(env: Env, disk: Option<Summary>)
    requires DiskOk(env, disk)
    ensures exists m :: RunningFrom(env, Start(env, disk), m)
  {
    var p := Start(env, disk);
    hide Consistent, Recorded, ResultFor;
    if Resumable(env, disk) {
      var m :| Holds(env, disk.value, m);
      PlannedFacts(env, m);
      assert disk.value.(accuracy := 0.0).status == Completed;
      assert p.report == disk.value;
      assert RunningFrom(env, p, m);
    } else {
      assert Planned(env, 0) == [];
      assert RunningFrom(env, p, 0);
    }
  }

  /** Looking at a question: it is skipped if recorded before the crash or of unknown type, and
      otherwise is exactly the next one the plan needs. */
  lemma LookOk(env: Env, s: System, m: nat)
    requires DistinctIds(env) && DiskOk(env, s.disk)
    requires s.process.Running? && s.process.stage == Looking && s.process.pos < |env.questions|
    requires RunningFrom(env, s.process, m)
    ensures Inv(env, Next(env, s))
  {
    hide DiskOk, Recorded, Holds, Trailing, Planned, Complete, NeverHalts;
    var p := s.process;
    var q := env.questions[p.pos];
    PlannedIds(env, m, q.id);
    if q.id in p.completed || q.category.None? {
      if m <= p.pos {
        assert q.category.None?;
        PlannedSkip(env, p.pos, p.report);
      }
      assert RunningFrom(env, Next(env, s).process, m);
    } else {
      assert m <= p.pos;
      var r := ResultFor(env, q);
      var report' := Recorded(p.report, r);
      RecordedHolds(env, p.report, p.pos);
      PlannedTrailing(env, p.pos);
      if Next(env, s).process.Done? {
        HaltHolds(env, report', p.pos + 1, p.errors + 1);
        NotNeverHalts(env, p.pos + 1);
      } else {
        assert RunningFrom(env, Next(env, s).process, m);
      }
    }
  }

  lemma PlannedSkip(env: Env, k: nat, s: Summary)
    requires k < |env.questions| && env.questions[k].category.None? && Holds(env, s, k)
    ensures Planned(env, k + 1) == Planned(env, k) && Holds(env, s, k + 1)
  {
    assert Planned(env, k + 1) == Planned(env, k) + [];
  }

  lemma PlannedTrailing(env: Env, k: nat)
    requires k < |env.questions| && env.questions[k].category.Some?
    ensures Trailing(Planned(env, k + 1)) ==
            if ResultFor(env, env.questions[k]).outcome == Ok then 0 else 1 + Trailing(Planned(env, k))
  {
    TrailingStep(Planned(env, k), ResultFor(env, env.questions[k]));
  }

  lemma NotNeverHalts(env: Env, k: nat)
    requires k <= |env.questions| && Trailing(Planned(env, k)) >= MAX_CONSECUTIVE_ERRORS
    ensures !NeverHalts(env)
  {
    hide Trailing, Planned;
  }

  lemma HaltHolds(env: Env, s: Summary, k: nat, errors: nat)
    requires Holds(env, s, k)
    ensures Holds(env, Finalized(s.(status := HaltedOnErrors(errors))).(status := Completed), k)
  {
    PlannedFacts(env, k);
    hide Planned, RecordAll;
    assert s.(accuracy := 0.0).status == Completed;
    var halted := Finalized(s.(status := HaltedOnErrors(errors)));
    assert halted.(status := Completed).(accuracy := 0.0) == s.(accuracy := 0.0);
  }

  lemma EndOk(env: Env, s: System, m: nat)
    requires DiskOk(env, s.disk)
    requires s.process.Running? && s.process.stage == Looking && s.process.pos >= |env.questions|
    requires RunningFrom(env, s.process, m)
    ensures Inv(env, Next(env, s))
  {
    hide DiskOk, NeverHalts, Planned, RecordAll, Trailing;
    var p := s.process;
    var n := |env.questions|;
    PlannedFacts(env, n);
    assert Reached(p, m) == n;
    assert p.report.(accuracy := 0.0) == RecordAll(Empty(env.fingerprint), Planned(env, n));
    FinalizedAgain(p.report);
    assert Next(env, s).process == Done(Complete(env));
    assert Complete(env).status == Completed;
  }

  lemma FinalizedAgain(s: Summary)
    ensures Finalized(s) == Finalized(s.(accuracy := 0.0))
    ensures Finalized(s).status == s.status
  {
  }

  /** Writing and renaming: what reaches the checkpoint file is the report of the questions so far. */
  lemma SaveOk(env: Env, s: System, m: nat)
    requires DiskOk(env, s.disk) && TempOk(s)
    requires Saving(s.process) && RunningFrom(env, s.process, m)
    ensures Inv(env, Next(env, s)) && Inv(env, Apply(env, s, SaveFails))
  {
    var p := s.process;
    var saved := Finalized(p.report);
    assert saved.(accuracy := 0.0) == p.report.(accuracy := 0.0);
    assert Holds(env, saved, p.pos + 1);
    var next := p.(pos := p.pos + 1, stage := Looking);
    assert Reached(next, m) == Reached(p, m);
    assert RunningFrom(env, next, m);
    if p.stage == Writing {
      assert RunningFrom(env, p.(stage := Renaming), m);
    }
  }

  lemma StepOk(env: Env, s: System, e: Event)
    requires DistinctIds(env) && Inv(env, s)
    ensures Inv(env, Apply(env, s, e))
  {
    hide RunningFrom, DiskOk, Complete, NeverHalts, Holds;
    match s.process {
      case Dead =>
        StartOk(env, s.disk);
      case Done(_) =>
      case Running(_, pos, _, _, stage) =>
        var m :| RunningFrom(env, s.process, m);
        if e == Tick {
          if stage != Looking {
            SaveOk(env, s, m);
          } else if pos >= |env.questions| {
            EndOk(env, s, m);
          } else {
            LookOk(env, s, m);
          }
        } else if e == SaveFails && stage != Looking {
          SaveOk(env, s, m);
        }
    }
  }

  lemma {:induction false} ExecOk(env: Env, s: System, events: seq<Event>)
    requires DistinctIds(env) && Inv(env, s)
    ensures Inv(env, Exec(env, s, events))
    decreases |events|
  {
    if events != [] {
      ExecOk(env, s, events[..|events| - 1]);
      StepOk(env, Exec(env, s, events[..|events| - 1]), events[|events| - 1]);
    }
  }

  /** Main result: with distinct ids, from a file that holds nothing of this configuration or an
      earlier checkpoint of it, and whatever temporary file is left over, every sequence of steps, failed
      saves, crashes and restarts that ends in a completed run ends with one and the same report, and a
      run that never sees three failures in a row does not halt however it is interrupted. */
  lemma EveryHistoryAgrees(env: Env, disk: Option<Summary>, temp: Option<Summary>, events: seq<Event>)
    requires DistinctIds(env) && DiskOk(env, disk)
    ensures var s := Exec(env, System(disk, temp, Dead), events);
            s.process.Done? ==>
              && (s.process.final.status == Completed ==> s.process.final == Complete(env))
              && (NeverHalts(env) ==> s.process.final == Complete(env))
  {
    ExecOk(env, System(disk, temp, Dead), events);
  }

  /** Crashes and failed saves never cost the checkpoint file: it stays a whole report through any
      history, because only a whole temporary file is ever renamed over it. Nothing is assumed about ids
      or evaluation. */
  lemma {:induction false} CheckpointNeverLost(env: Env, disk: Option<Summary>, temp: Option<Summary>,
                                               events: seq<Event>)
    ensures var s := Exec(env, System(disk, temp, Dead), events);
            TempOk(s) && (disk.Some? ==> s.disk.Some?)
    decreases |events|
  {
    if events != [] {
      CheckpointNeverLost(env, disk, temp, events[..|events| - 1]);
      TempStep(env, Exec(env, System(disk, temp, Dead), events[..|events| - 1]), events[|events| - 1]);
    }
  }

  lemma TempStep(env: Env, s: System, e: Event)
    requires TempOk(s)
    ensures TempOk(Apply(env, s, e)) && (s.disk.Some? ==> Apply(env, s, e).disk.Some?)
  {
    hide Finalized, Recorded;
  }

  /** In every reachable state the report in memory holds the results of a prefix of the questions,
      so nothing from a file with another fingerprint is in it. */
  lemma ReportIsPlanned(env: Env, disk: Option<Summary>, temp: Option<Summary>, events: seq<Event>)
    requires DistinctIds(env) && DiskOk(env, disk)
    ensures var p := Exec(env, System(disk, temp, Dead), events).process;
            && (p.Running? ==> exists k :: 0 <= k <= |env.questions| && p.report.results == Planned(env, k))
            && (p.Done? ==> exists k :: 0 <= k <= |env.questions| && p.final.results == Planned(env, k))
  {
    ExecOk(env, System(disk, temp, Dead), events);
    var p := Exec(env, System(disk, temp, Dead), events).process;
    if p.Running? {
      var m :| RunningFrom(env, p, m);
      HoldsResults(env, p.report, Reached(p, m));
    } else if p.Done? {
      if p.final.status == Completed {
        PlannedFacts(env, |env.questions|);
        assert p.final.results == Planned(env, |env.questions|);
      } else {
        var k :| Holds(env, p.final.(status := Completed), k);
        HoldsResults(env, p.final.(status := Completed), k);
        assert p.final.results == Planned(env, k);
      }
    }
  }

  lemma HoldsResults(env: Env, s: Summary, k: nat)
    requires Holds(env, s, k)
    ensures s.results == Planned(env, k)
  {
    PlannedFacts(env, k);
    assert s.(accuracy := 0.0).results == s.results;
  }
}
