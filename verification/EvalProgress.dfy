/** Runs of the evaluation loop without a crash: the loop itself, whatever becomes of its saves; how far
    the checkpoint lags; and how many invocations a failing evaluation needs. */
module EvalProgress {
  import opened Options
  import opened Report
  import opened EvalRun

  /** Bounds the steps left. */
  function Fuel(env: Env, p: Process): nat
  {
    var n := |env.questions|;
    match p
    case Dead => 3 * n + 2
    case Done(_) => 0
    case Running(_, pos, _, _, stage) =>
      if pos < n then
        3 * (n - pos) + (match stage case Looking => 1 case Writing => 0 case Renaming => -1)
      else
        match stage case Looking => 1 case Writing => 3 case Renaming => 2
  }

  /** What becomes of a save: the temporary file may fail to be written, or to be renamed. */
  datatype SaveOutcome = Saved | WriteFails | RenameFails

  /** The save that the process is about to go on with, after question pos, fails here. */
  predicate FailsHere(p: Process, saves: nat -> SaveOutcome)
  {
    p.Running?
    && ((p.stage == Writing && saves(p.pos) == WriteFails) || (p.stage == Renaming && saves(p.pos) == RenameFails))
  }

  function Step(env: Env, s: System, saves: nat -> SaveOutcome): System
  {
    if FailsHere(s.process, saves) then Apply(env, s, SaveFails) else Next(env, s)
  }

  /** The process stepped until it is done: one invocation without crashes. */
  function RunUnder(env: Env, s: System, saves: nat -> SaveOutcome): (r: System)
    ensures r.process.Done?
    decreases Fuel(env, s.process)
  {
    if s.process.Done? then s else RunUnder(env, Step(env, s, saves), saves)
  }

  function AllSaved(): nat -> SaveOutcome
  {
    (i: nat) => Saved
  }

  /** One invocation without crashes or failed saves. */
  function RunToEnd(env: Env, s: System): (r: System)
    ensures r.process.Done?
  {
    RunUnder(env, s, AllSaved())
  }

  /** The checkpoint file and the temporary file beside it. */
  class CheckpointFile {
    var saved: Option<Summary>
    var temp: Option<Summary>
  }

  /** `save_report`: the temporary file is written, then renamed. A write that fails leaves a file that
      is not a whole report. */
  method SaveReport(report: EvalReport, file: CheckpointFile, outcome: SaveOutcome) returns (ok: bool)
    modifies file
    ensures ok <==> outcome == Saved
    ensures file.saved == (if ok then Some(report.View()) else old(file.saved))
    ensures file.temp == if outcome == RenameFails then Some(report.View()) else None
  {
    if outcome == WriteFails {
      file.temp := None;
      return false;
    }
    file.temp := Some(Summary(report.fingerprint, report.total, report.correct, report.clean, report.recovered,
                              report.transport, report.auth, report.judgeParse, report.perCategory, report.results,
                              report.status, report.accuracy));
    if outcome == RenameFails {
      return false;
    }
    file.saved, file.temp := file.temp, None;
    return true;
  }

  /** `AccuracyEval::run`; a save that fails is only warned about. */
  method Run(env: Env, file: CheckpointFile, saves: nat -> SaveOutcome) returns (report: EvalReport)
    modifies file
    ensures fresh(report)
    ensures System(file.saved, file.temp, Done(report.View()))
         == RunUnder(env, System(old(file.saved), old(file.temp), Dead), saves)
  {
    hide RunUnder, Recorded, Finalized, Load, Ids, ResultFor;
    ghost var s0 := System(file.saved, file.temp, Dead);
    var loaded := Load(env, file.saved);
    report := new EvalReport.FromSummary(loaded);
    var completed := Ids(report.results);
    var errors := 0;
    var halted := false;
    var i := 0;
    RunStart(env, s0, saves);
    while i < |env.questions| && !halted
      invariant i <= |env.questions| && fresh(report)
      invariant !halted ==>
                  RunUnder(env, s0, saves)
                  == RunUnder(env, System(file.saved, file.temp,
                                          Running(report.View(), i, completed, errors, Looking)), saves)
      invariant halted ==> RunUnder(env, s0, saves) == System(file.saved, file.temp, Done(Finalized(report.View())))
      decreases |env.questions| - i, !halted
    {
      var q := env.questions[i];
      RunLook(env, System(file.saved, file.temp, Running(report.View(), i, completed, errors, Looking)), saves);
      if q.id in completed || q.category.None? {
        i := i + 1;
        continue;
      }
      var r := ResultFor(env, q);
      errors := if r.outcome != Ok then errors + 1 else 0;
      report.Record(r);
      if errors >= MAX_CONSECUTIVE_ERRORS {
        report.status := HaltedOnErrors(errors);
        halted := true;
      } else {
        RunSave(env, System(file.saved, file.temp, Running(report.View(), i, completed, errors, Writing)), saves);
        var cp := report.Clone();
        cp.Finalize();
        var ok := SaveReport(cp, file, saves(i));
        i := i + 1;
      }
    }
    if !halted {
      RunLast(env, System(file.saved, file.temp, Running(report.View(), i, completed, errors, Looking)), saves);
    }
    report.Finalize();
  }

  lemma RunUnderStep(env: Env, s: System, saves: nat -> SaveOutcome)
    ensures s.process.Done? ==> RunUnder(env, s, saves) == s
    ensures !s.process.Done? ==> RunUnder(env, s, saves) == RunUnder(env, Step(env, s, saves), saves)
  {
  }

  lemma RunStart(env: Env, s: System, saves: nat -> SaveOutcome)
    requires s.process.Dead?
    ensures var report := Load(env, s.disk);
            RunUnder(env, s, saves)
            == RunUnder(env, s.(process := Running(report, 0, Ids(report.results), 0, Looking)), saves)
  {
    hide RunUnder, Load;
    RunUnderStep(env, s, saves);
  }

  lemma RunLast(env: Env, s: System, saves: nat -> SaveOutcome)
    requires s.process.Running? && s.process.stage == Looking && s.process.pos >= |env.questions|
    ensures RunUnder(env, s, saves) == s.(process := Done(Finalized(s.process.report)))
  {
    hide RunUnder, Finalized;
    RunUnderStep(env, s, saves);
    NextEnd(env, s);
    RunUnderStep(env, Next(env, s), saves);
  }

  lemma RunLook(env: Env, s: System, saves: nat -> SaveOutcome)
    requires s.process.Running? && s.process.stage == Looking && s.process.pos < |env.questions|
    ensures var p := s.process;
            var q := env.questions[p.pos];
            if q.id in p.completed || q.category.None? then
              RunUnder(env, s, saves) == RunUnder(env, s.(process := p.(pos := p.pos + 1)), saves)
            else
              var r := ResultFor(env, q);
              var errors := if r.outcome != Ok then p.errors + 1 else 0;
              RunUnder(env, s, saves) ==
                if errors >= MAX_CONSECUTIVE_ERRORS then
                  s.(process := Done(Finalized(Recorded(p.report, r).(status := HaltedOnErrors(errors)))))
                else
                  RunUnder(env, s.(process := p.(report := Recorded(p.report, r), errors := errors, stage := Writing)),
                           saves)
  {
    hide RunUnder, Next, Finalized, Recorded;
    RunUnderStep(env, s, saves);
    NextLook(env, s);
    RunUnderStep(env, Next(env, s), saves);
  }

  /** A save, whatever becomes of it. */
  lemma RunSave(env: Env, s: System, saves: nat -> SaveOutcome)
    requires s.process.Running? && s.process.stage == Writing
    ensures var p := s.process;
            var saved := Some(Finalized(p.report));
            var next := p.(pos := p.pos + 1, stage := Looking);
            RunUnder(env, s, saves) ==
              match saves(p.pos)
              case Saved => RunUnder(env, System(saved, None, next), saves)
              case WriteFails => RunUnder(env, System(s.disk, None, next), saves)
              case RenameFails => RunUnder(env, System(s.disk, saved, next), saves)
  {
    hide RunUnder, Finalized;
    RunUnderStep(env, s, saves);
    RunUnderStep(env, Step(env, s, saves), saves);
  }

  lemma RunStep(env: Env, s: System)
    requires !s.process.Done?
    ensures RunToEnd(env, s) == RunToEnd(env, Next(env, s))
  {
    hide Next;
    RunUnderStep(env, s, AllSaved());
  }

  lemma RunDone(env: Env, s: System)
    requires s.process.Done?
    ensures RunToEnd(env, s) == s
  {
  }

  lemma NextStart(env: Env, s: System)
    requires s.process.Dead?
    ensures Next(env, s) == s.(process := Start(env, s.disk))
  {
  }

  lemma NextEnd(env: Env, s: System)
    requires s.process.Running? && s.process.stage == Looking && s.process.pos >= |env.questions|
    ensures Next(env, s) == s.(process := Done(Finalized(s.process.report)))
  {
  }

  lemma NextLook(env: Env, s: System)
    requires s.process.Running? && s.process.stage == Looking && s.process.pos < |env.questions|
    ensures var p := s.process;
            var q := env.questions[p.pos];
            if q.id in p.completed || q.category.None? then
              Next(env, s) == s.(process := p.(pos := p.pos + 1))
            else
              var r := ResultFor(env, q);
              var errors := if r.outcome != Ok then p.errors + 1 else 0;
              Next(env, s) == s.(process :=
                if errors >= MAX_CONSECUTIVE_ERRORS then
                  Done(Finalized(Recorded(p.report, r).(status := HaltedOnErrors(errors))))
                else p.(report := Recorded(p.report, r), errors := errors, stage := Writing))
  {
  }

  // ---- a run without crashes is one of the histories

  lemma {:induction false} RunKeepsInv(env: Env, s: System, saves: nat -> SaveOutcome)
    requires DistinctIds(env) && Inv(env, s)
    ensures Inv(env, RunUnder(env, s, saves))
    decreases Fuel(env, s.process)
  {
    hide Inv, DistinctIds;
    if !s.process.Done? {
      StepOk(env, s, Tick);
      StepOk(env, s, SaveFails);
      assert Apply(env, s, Tick) == Next(env, s);
      RunKeepsInv(env, Step(env, s, saves), saves);
    }
  }

  /** The report every interrupted history must reproduce is the one a run without crashes returns,
      whatever becomes of its saves. */
  lemma UndisturbedRun(env: Env, disk: Option<Summary>, temp: Option<Summary>, saves: nat -> SaveOutcome)
    requires DistinctIds(env) && DiskOk(env, disk) && NeverHalts(env)
    ensures RunUnder(env, System(disk, temp, Dead), saves).process == Done(Complete(env))
  {
    RunKeepsInv(env, System(disk, temp, Dead), saves);
  }

  // ---- how far the file lags behind

  /** The results a restart would find. */
  ghost function DiskResults(env: Env, disk: Option<Summary>): seq<QuestionResult>
  {
    if Resumable(env, disk) then disk.value.results else []
  }

  ghost function ReportOf(p: Process): Summary
    requires !p.Dead?
  {
    if p.Done? then p.final else p.report
  }

  /** The last result is not in the checkpoint file: it awaits its save, or the run halted on it. */
  ghost predicate OneBehind(p: Process)
    requires !p.Dead?
  {
    if p.Running? then p.stage != Looking else p.final.status != Completed
  }

  ghost predicate Synced(env: Env, s: System)
  {
    && TempOk(s)
    && (!s.process.Dead? ==>
          var r := ReportOf(s.process);
          && r.fingerprint == env.fingerprint
          && (s.process.Running? ==> r.status == Completed)
          && if OneBehind(s.process) then
               r.results != [] && DiskResults(env, s.disk) == r.results[..|r.results| - 1]
             else DiskResults(env, s.disk) == r.results)
  }

  lemma SyncedStep(env: Env, s: System, e: Event)
    requires Synced(env, s) && e != SaveFails
    ensures Synced(env, Apply(env, s, e))
  {
    if e == Tick && s.process.Running? && s.process.stage == Looking && s.process.pos < |env.questions| {
      NextLook(env, s);
      var q := env.questions[s.process.pos];
      if q.id !in s.process.completed && q.category.Some? {
        var rs := s.process.report.results;
        assert (rs + [ResultFor(env, q)])[..|rs|] == rs;
      }
    }
  }

  /** While saves succeed, the file holds all the results of the report in memory except possibly the
      last, through any crashes and restarts; the one missing is awaiting its save or is the failure
      the run halted on. Nothing is assumed about ids, evaluation or the file's contents. */
  lemma {:induction false} DiskLagsByAtMostOne(env: Env, disk: Option<Summary>, temp: Option<Summary>,
                                               events: seq<Event>)
    requires forall e :: e in events ==> e != SaveFails
    ensures Synced(env, Exec(env, System(disk, temp, Dead), events))
    decreases |events|
  {
    if events != [] {
      var init := events[..|events| - 1];
      assert forall e :: e in init ==> e in events;
      DiskLagsByAtMostOne(env, disk, temp, init);
      assert events[|events| - 1] in events;
      SyncedStep(env, Exec(env, System(disk, temp, Dead), init), events[|events| - 1]);
    }
  }

  // ---- every halted run leaves progress behind

  /** Ids of the questions of known type. */
  ghost function Needed(env: Env): set<string>
  {
    set i | 0 <= i < |env.questions| && env.questions[i].category.Some? :: env.questions[i].id
  }

  ghost function Open(env: Env, rs: seq<QuestionResult>): set<string>
  {
    Needed(env) - Ids(rs)
  }

  /** Every evaluation fails. */
  ghost predicate AllFail(env: Env)
  {
    forall q: Question :: q.category.Some? ==> Fails(env, q)
  }

  /** The run that began with the results start has recorded only new questions, each once, and its
      error streak is no longer than what it recorded. */
  ghost predicate Advanced(env: Env, start: seq<QuestionResult>, s: System)
  {
    && Synced(env, s)
    && match s.process
       case Dead => false
       case Running(report, pos, completed, errors, stage) =>
         && completed == Ids(start)
         && pos <= |env.questions| && (stage != Looking ==> pos < |env.questions|)
         && errors < MAX_CONSECUTIVE_ERRORS
         && Grown(env, start, report.results, errors)
         && (forall id :: id in Ids(report.results) ==>
               || id in completed
               || exists i :: 0 <= i < (if stage != Looking then pos + 1 else pos) && env.questions[i].id == id)
         && (forall i :: 0 <= i < (if stage != Looking then pos + 1 else pos) && env.questions[i].category.Some? ==>
               env.questions[i].id in Ids(report.results))
       case Done(final) =>
         if final.status == Completed then
           && Open(env, final.results) == {}
           && exists e: nat :: e < MAX_CONSECUTIVE_ERRORS && Grown(env, start, final.results, e)
         else exists e: nat :: e == MAX_CONSECUTIVE_ERRORS && Grown(env, start, final.results, e)
  }

  ghost predicate Grown(env: Env, start: seq<QuestionResult>, rs: seq<QuestionResult>, errors: nat)
  {
    && start <= rs
    && errors <= |rs| - |start|
    && (AllFail(env) ==> errors == |rs| - |start|)
    && |Open(env, rs)| == |Open(env, start)| - (|rs| - |start|)
  }

  lemma GrownStep(env: Env, start: seq<QuestionResult>, rs: seq<QuestionResult>, errors: nat, q: Question)
    requires Grown(env, start, rs, errors) && q.category.Some?
    requires q.id in Needed(env) && q.id !in Ids(rs)
    ensures var r := ResultFor(env, q);
            Grown(env, start, rs + [r], if r.outcome != Ok then errors + 1 else 0)
  {
    var r := ResultFor(env, q);
    IdsAppend(rs, r);
    assert Open(env, rs + [r]) == Open(env, rs) - {q.id};
    assert start <= rs + [r];
  }

  lemma AdvancedLook(env: Env, start: seq<QuestionResult>, s: System)
    requires DistinctIds(env) && Advanced(env, start, s)
    requires s.process.Running? && s.process.stage == Looking && s.process.pos < |env.questions|
    ensures Advanced(env, start, Next(env, s))
  {
    hide Synced, Grown;
    SyncedStep(env, s, Tick);
    NextLook(env, s);
    var p := s.process;
    var q := env.questions[p.pos];
    if q.id !in p.completed && q.category.Some? {
      var r := ResultFor(env, q);
      var rs := p.report.results;
      assert q.id in Needed(env);
      assert q.id !in Ids(rs);
      GrownStep(env, start, rs, p.errors, q);
      IdsAppend(rs, r);
    } else if q.category.Some? {
      assert q.id in Ids(start);
      StartIds(env, start, p.report.results, p.errors);
    }
  }

  lemma StartIds(env: Env, start: seq<QuestionResult>, rs: seq<QuestionResult>, errors: nat)
    requires Grown(env, start, rs, errors)
    ensures Ids(start) <= Ids(rs)
  {
    forall r | r in start ensures r in rs {
      var i :| 0 <= i < |start| && start[i] == r;
      assert rs[i] == r;
    }
  }

  /** Every other step leaves the results as they are. */
  lemma AdvancedOther(env: Env, start: seq<QuestionResult>, s: System)
    requires Advanced(env, start, s) && s.process.Running?
    requires s.process.stage == Looking ==> s.process.pos >= |env.questions|
    ensures Advanced(env, start, Next(env, s))
  {
    hide Synced, Grown;
    SyncedStep(env, s, Tick);
    if s.process.stage == Looking {
      NextEnd(env, s);
      SyncedStatus(env, s);
    }
  }

  lemma SyncedStatus(env: Env, s: System)
    requires Synced(env, s) && s.process.Running?
    ensures s.process.report.status == Completed
  {
  }

  lemma {:induction false} RunAdvances(env: Env, start: seq<QuestionResult>, s: System)
    requires DistinctIds(env) && !s.process.Dead? && Advanced(env, start, s)
    ensures Advanced(env, start, RunToEnd(env, s))
    decreases Fuel(env, s.process)
  {
    hide Advanced, Next, RunToEnd;
    if s.process.Done? {
      RunDone(env, s);
    } else {
      RunStep(env, s);
      FuelDrops(env, s);
      if s.process.stage == Looking && s.process.pos < |env.questions| {
        AdvancedLook(env, start, s);
      } else {
        AdvancedOther(env, start, s);
      }
      RunAdvances(env, start, Next(env, s));
    }
  }

  lemma FuelDrops(env: Env, s: System)
    requires !s.process.Done?
    ensures Fuel(env, Next(env, s).process) < Fuel(env, s.process)
    ensures !Next(env, s).process.Dead?
  {
  }

  lemma StartAdvanced(env: Env, disk: Option<Summary>, temp: Option<Summary>)
    ensures Advanced(env, DiskResults(env, disk), System(disk, temp, Start(env, disk)))
  {
    SyncedStep(env, System(disk, temp, Dead), Tick);
  }

  /** Main result: a run that halts on errors leaves at least two new results in the file, for two
      questions not recorded before, and exactly two when every evaluation fails; a run that completes
      leaves nothing unrecorded. */
  lemma HaltedRunMakesProgress(env: Env, disk: Option<Summary>, temp: Option<Summary>)
    requires DistinctIds(env)
    ensures var r := RunToEnd(env, System(disk, temp, Dead));
            var before, after := DiskResults(env, disk), DiskResults(env, r.disk);
            var m, m' := |Open(env, before)|, |Open(env, after)|;
            if r.process.final.status == Completed then
              m' == 0 && (AllFail(env) ==> m < MAX_CONSECUTIVE_ERRORS)
            else
              && before <= after && |after| >= |before| + 2
              && m' == m - (|after| - |before|) && m' >= 1
              && (AllFail(env) ==> m' == m - 2)
  {
    var s := System(disk, temp, Dead);
    var before := DiskResults(env, disk);
    RunStep(env, s);
    NextStart(env, s);
    StartAdvanced(env, disk, temp);
    RunAdvances(env, before, Next(env, s));
    HaltedRun(env, before, RunToEnd(env, s));
  }

  lemma HaltedRun(env: Env, before: seq<QuestionResult>, r: System)
    requires r.process.Done? && Advanced(env, before, r)
    ensures var after := DiskResults(env, r.disk);
            var m, m' := |Open(env, before)|, |Open(env, after)|;
            if r.process.final.status == Completed then
              m' == 0 && (AllFail(env) ==> m < MAX_CONSECUTIVE_ERRORS)
            else
              && before <= after && |after| >= |before| + 2
              && m' == m - (|after| - |before|) && m' >= 1
              && (AllFail(env) ==> m' == m - 2)
  {
    hide Resumable, Open, AllFail;
    var rs := r.process.final.results;
    var after := DiskResults(env, r.disk);
    if r.process.final.status == Completed {
      assert after == rs;
      var e: nat :| e < MAX_CONSECUTIVE_ERRORS && Grown(env, before, rs, e);
    } else {
      assert Grown(env, before, rs, MAX_CONSECUTIVE_ERRORS);
      assert after == rs[..|rs| - 1];
      LastIsNew(env, before, rs);
    }
  }

  /** Dropping the last of the new results reopens exactly one question. */
  lemma LastIsNew(env: Env, before: seq<QuestionResult>, rs: seq<QuestionResult>)
    requires before <= rs && |rs| > |before|
    requires |Open(env, rs)| == |Open(env, before)| - (|rs| - |before|)
    ensures |Open(env, rs[..|rs| - 1])| == |Open(env, rs)| + 1
  {
    hide Open;
    var init := rs[..|rs| - 1];
    OpenShrinks(env, before, init);
    assert init + [rs[|rs| - 1]] == rs;
    OpenDropsOne(env, init, rs[|rs| - 1]);
  }

  lemma OpenDropsOne(env: Env, rs: seq<QuestionResult>, r: QuestionResult)
    ensures |Open(env, rs + [r])| <= |Open(env, rs)| <= |Open(env, rs + [r])| + 1
  {
    IdsAppend(rs, r);
    assert Open(env, rs + [r]) == Open(env, rs) - {r.questionId};
  }

  lemma {:induction false} OpenShrinks(env: Env, before: seq<QuestionResult>, rs: seq<QuestionResult>)
    requires before <= rs
    ensures |Open(env, rs)| >= |Open(env, before)| - (|rs| - |before|)
    decreases |rs|
  {
    if |rs| > |before| {
      var init := rs[..|rs| - 1];
      OpenShrinks(env, before, init);
      assert init + [rs[|rs| - 1]] == rs;
      OpenDropsOne(env, init, rs[|rs| - 1]);
    } else {
      assert rs == before;
    }
  }

  // ---- restarting until the evaluation completes

  /** How many crash-free invocations it takes; invocation i evaluates with evals(i), so outcomes may
      change from one to the next. */
  ghost function Invocations(env: Env, evals: nat -> Question -> Evaluation, disk: Option<Summary>,
                             temp: Option<Summary>, i: nat): (n: nat)
    requires DistinctIds(env)
    ensures n >= 1
    decreases |Open(env, DiskResults(env, disk))|
  {
    var now := env.(eval := evals(i));
    var r := RunToEnd(now, System(disk, temp, Dead));
    HaltedRunMakesProgress(now, disk, temp);
    SameQuestions(env, now, disk, r.disk);
    if r.process.final.status == Completed then 1
    else 1 + Invocations(env, evals, r.disk, r.temp, i + 1)
  }

  lemma SameQuestions(env: Env, now: Env, disk: Option<Summary>, disk': Option<Summary>)
    requires now.questions == env.questions && now.fingerprint == env.fingerprint
    ensures DiskResults(now, disk) == DiskResults(env, disk) && DiskResults(now, disk') == DiskResults(env, disk')
    ensures forall rs :: Open(now, rs) == Open(env, rs)
    ensures DistinctIds(now) <==> DistinctIds(env)
  {
  }

  /** Main result: with m questions unrecorded, at most max(1, ceil(m / 2)) invocations reach
      completion, and exactly that many when nothing ever succeeds. */
  lemma {:induction false} RestartsAreBounded(env: Env, evals: nat -> Question -> Evaluation, disk: Option<Summary>,
                                              temp: Option<Summary>, i: nat)
    requires DistinctIds(env)
    ensures var m := |Open(env, DiskResults(env, disk))|;
            var bound := if m == 0 then 1 else (m + 1) / 2;
            && Invocations(env, evals, disk, temp, i) <= bound
            && ((forall j :: j >= i ==> AllFail(env.(eval := evals(j)))) ==>
                  Invocations(env, evals, disk, temp, i) == bound)
    decreases |Open(env, DiskResults(env, disk))|
  {
    hide AllFail, RunToEnd, Open, DiskResults;
    var now := env.(eval := evals(i));
    var r := RunToEnd(now, System(disk, temp, Dead));
    SameQuestions(env, now, disk, r.disk);
    HaltedRunMakesProgress(now, disk, temp);
    if r.process.final.status != Completed {
      RestartsAreBounded(env, evals, r.disk, r.temp, i + 1);
    }
  }
}
