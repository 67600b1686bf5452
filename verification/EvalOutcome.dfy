/** What one run of the evaluation loop reports, in terms of the questions and their evaluations alone. */
module EvalOutcome {
  import opened Options
  import opened Report
  import opened EvalRun
  import opened EvalProgress

  /** What the report holds for a question: its id and type, and what evaluation answered; an error in
      place of an answer is held as a wrong answer that failed in transport. */
  ghost predicate Holds(env: Env, q: Question, r: QuestionResult)
  {
    && r.questionId == q.id && q.category == Some(r.category)
    && match env.eval(q)
       case Answered(correct, predicted, retries, outcome) =>
         r.correct == correct && r.predicted == predicted && r.retryCount == retries && r.outcome == outcome
       case LocalError(message) =>
         && !r.correct && r.outcome == TransportFailure && r.retryCount == 0
         && r.predicted == "[error: " + message + "]"
  }

  /** Question i is of a known type, and nothing was held for its id before the run. */
  ghost predicate IsOpen(env: Env, before: seq<QuestionResult>, i: nat)
  {
    && i < |env.questions| && env.questions[i].category.Some?
    && forall r :: r in before ==> r.questionId != env.questions[i].id
  }

  /** The open questions among the first n, in order. */
  ghost predicate AreOpen(env: Env, before: seq<QuestionResult>, n: nat, open: seq<nat>)
  {
    && (forall j, k :: 0 <= j < k < |open| ==> open[j] < open[k])
    && forall i: nat :: i in open <==> i < n && IsOpen(env, before, i)
  }

  /** The results are those held before, then one for each of the first k open questions. */
  ghost predicate HoldsFirst(env: Env, before: seq<QuestionResult>, open: seq<nat>, k: nat, rs: seq<QuestionResult>)
  {
    && before <= rs && k <= |open| && |rs| == |before| + k
    && forall j :: 0 <= j < k ==> open[j] < |env.questions| && Holds(env, env.questions[open[j]], rs[|before| + j])
  }

  /** Open question j fails, and so do the two before it. */
  ghost predicate ThirdFailure(env: Env, open: seq<nat>, j: nat)
  {
    && 2 <= j < |open|
    && forall i :: j - 2 <= i <= j ==> open[i] < |env.questions| && Fails(env, env.questions[open[i]])
  }

  /** A run that completes holds every open question, no three in a row having failed; one that halts
      holds them up to the first that is the third in a row to fail. */
  ghost predicate Reports(env: Env, before: seq<QuestionResult>, open: seq<nat>, final: Summary)
  {
    && AreOpen(env, before, |env.questions|, open)
    && final.fingerprint == env.fingerprint
    && if final.status == Completed then
         HoldsFirst(env, before, open, |open|, final.results) && forall j: nat :: !ThirdFailure(env, open, j)
       else
         && final.status == HaltedOnErrors(3)
         && exists j: nat :: ThirdFailure(env, open, j) && HoldsFirst(env, before, open, j + 1, final.results)
                        && forall i: nat :: ThirdFailure(env, open, i) ==> i >= j
  }

  /** The counters of the report count its results, and the accuracy is their share of correct ones. */
  ghost predicate AddsUp(final: Summary)
  {
    && Consistent(final)
    && final.accuracy == if final.clean + final.recovered > 0
                         then final.correct as real / (final.clean + final.recovered) as real else 0.0
  }

  /** What a checkpoint of this configuration holds. */
  ghost function HeldBefore(env: Env, disk: Option<Summary>): seq<QuestionResult>
  {
    if disk.Some? && disk.value.fingerprint == env.fingerprint then disk.value.results else []
  }

  // ---- the run so far

  /** How many open questions at the end have failed in a row. */
  ghost function Streak(env: Env, open: seq<nat>): nat
  {
    if open == [] then 0
    else
      var i := open[|open| - 1];
      if i < |env.questions| && Fails(env, env.questions[i]) then 1 + Streak(env, open[..|open| - 1]) else 0
  }

  lemma {:induction false} StreakReaches(env: Env, open: seq<nat>, k: nat)
    ensures Streak(env, open) >= k <==>
              && k <= |open|
              && forall i :: |open| - k <= i < |open| ==>
                   open[i] < |env.questions| && Fails(env, env.questions[open[i]])
    decreases k
  {
    hide Fails;
    if k > 0 && open != [] {
      StreakReaches(env, open[..|open| - 1], k - 1);
    }
  }

  lemma StreakIsThird(env: Env, open: seq<nat>)
    ensures Streak(env, open) >= 3 <==> open != [] && ThirdFailure(env, open, |open| - 1)
  {
    hide Streak, Fails;
    StreakReaches(env, open, 3);
  }

  /** The questions below the one being looked at, or, once it is recorded, up to it. */
  ghost function LookedAt(p: Process): nat
    requires p.Running?
  {
    if p.stage == Looking then p.pos else p.pos + 1
  }

  ghost predicate RunningAt(env: Env, before: seq<QuestionResult>, open: seq<nat>, p: Process)
    requires p.Running?
  {
    && LookedAt(p) <= |env.questions|
    && AreOpen(env, before, LookedAt(p), open)
    && HoldsFirst(env, before, open, |open|, p.report.results)
    && (forall id :: id in p.completed <==> exists r :: r in before && r.questionId == id)
    && p.report.fingerprint == env.fingerprint && p.report.status == Completed
    && p.errors == Streak(env, open) < 3
    && forall j: nat :: !ThirdFailure(env, open, j)
  }

  ghost predicate Follows(env: Env, before: seq<QuestionResult>, p: Process)
  {
    match p
    case Dead => false
    case Running(_, _, _, _, _) => exists open :: RunningAt(env, before, open, p)
    case Done(final) => exists open :: Reports(env, before, open, final)
  }

  lemma Begins(env: Env, disk: Option<Summary>)
    ensures Follows(env, HeldBefore(env, disk), Start(env, disk))
  {
    var before, p := HeldBefore(env, disk), Start(env, disk);
    assert RunningAt(env, before, [], p);
  }

  lemma OneMoreOpen(env: Env, before: seq<QuestionResult>, n: nat, open: seq<nat>)
    requires AreOpen(env, before, n, open)
    ensures AreOpen(env, before, n + 1, if IsOpen(env, before, n) then open + [n] else open)
  {
    hide IsOpen;
    var more := if IsOpen(env, before, n) then open + [n] else open;
    forall k | 0 <= k < |open| ensures open[k] < n {
      assert open[k] in open;
    }
    forall i: nat ensures i in more <==> i < n + 1 && IsOpen(env, before, i) {
      assert i in more <==> i in open || (|more| > |open| && i == n);
    }
  }

  lemma {:induction false} AllOpen(env: Env, before: seq<QuestionResult>, n: nat, open: seq<nat>)
    returns (all: seq<nat>)
    requires n <= |env.questions| && AreOpen(env, before, n, open)
    ensures AreOpen(env, before, |env.questions|, all) && open <= all
    decreases |env.questions| - n
  {
    hide AreOpen, IsOpen;
    all := open;
    if n < |env.questions| {
      OneMoreOpen(env, before, n, open);
      all := AllOpen(env, before, n + 1, if IsOpen(env, before, n) then open + [n] else open);
    }
  }

  lemma ThirdOfPrefix(env: Env, open: seq<nat>, all: seq<nat>, j: nat)
    requires open <= all && j < |open|
    ensures ThirdFailure(env, open, j) <==> ThirdFailure(env, all, j)
  {
    assert forall i :: 0 <= i < |open| ==> all[i] == open[i];
  }

  // ---- one step

  /** A question that is not open is passed over. */
  lemma PassesOver(env: Env, before: seq<QuestionResult>, open: seq<nat>, p: Process)
    requires p.Running? && p.stage == Looking && p.pos < |env.questions|
    requires RunningAt(env, before, open, p) && !IsOpen(env, before, p.pos)
    ensures RunningAt(env, before, open, p.(pos := p.pos + 1))
  {
    OneMoreOpen(env, before, p.pos, open);
    hide AreOpen, HoldsFirst, Streak, ThirdFailure, IsOpen;
  }

  lemma ResultHolds(env: Env, q: Question)
    requires q.category.Some?
    ensures Holds(env, q, ResultFor(env, q))
    ensures ResultFor(env, q).outcome != Ok <==> Fails(env, q)
  {
  }

  lemma HoldsOneMore(env: Env, before: seq<QuestionResult>, open: seq<nat>, rs: seq<QuestionResult>, n: nat,
                     r: QuestionResult)
    requires HoldsFirst(env, before, open, |open|, rs) && n < |env.questions| && Holds(env, env.questions[n], r)
    ensures HoldsFirst(env, before, open + [n], |open| + 1, rs + [r])
  {
    hide Holds;
  }

  /** An open question is evaluated and recorded. */
  lemma Records(env: Env, before: seq<QuestionResult>, open: seq<nat>, p: Process)
    requires p.Running? && p.stage == Looking && p.pos < |env.questions|
    requires RunningAt(env, before, open, p) && IsOpen(env, before, p.pos)
    ensures var r := ResultFor(env, env.questions[p.pos]);
            var errors := if r.outcome != Ok then p.errors + 1 else 0;
            var report := Recorded(p.report, r);
            if errors >= MAX_CONSECUTIVE_ERRORS then
              && errors == 3
              && exists all :: Reports(env, before, all, Finalized(report.(status := HaltedOnErrors(errors))))
            else
              RunningAt(env, before, open + [p.pos], p.(report := report, errors := errors, stage := Writing))
  {
    var q, more := env.questions[p.pos], open + [p.pos];
    var r := ResultFor(env, q);
    ResultHolds(env, q);
    HoldsOneMore(env, before, open, p.report.results, p.pos, r);
    OneMoreOpen(env, before, p.pos, open);
    assert more[..|open|] == open;
    assert Streak(env, more) == if r.outcome != Ok then p.errors + 1 else 0;
    StreakIsThird(env, more);
    forall j: nat | j < |open| ensures !ThirdFailure(env, more, j) {
      ThirdOfPrefix(env, open, more, j);
    }
    assert forall j: nat :: ThirdFailure(env, more, j) ==> j < |more|;
    hide Streak, ThirdFailure, ResultFor, Fails;
    if Streak(env, more) >= 3 {
      Halts(env, before, p.pos + 1, more, Recorded(p.report, r));
    }
  }

  lemma Halts(env: Env, before: seq<QuestionResult>, n: nat, open: seq<nat>, report: Summary)
    requires n <= |env.questions| && AreOpen(env, before, n, open)
    requires HoldsFirst(env, before, open, |open|, report.results)
    requires report.fingerprint == env.fingerprint
    requires open != [] && ThirdFailure(env, open, |open| - 1)
    requires forall j: nat :: j < |open| - 1 ==> !ThirdFailure(env, open, j)
    ensures exists all :: Reports(env, before, all, Finalized(report.(status := HaltedOnErrors(3))))
  {
    hide AreOpen, ThirdFailure;
    var all := AllOpen(env, before, n, open);
    var k := |open| - 1;
    forall j: nat | j < |open| ensures ThirdFailure(env, open, j) <==> ThirdFailure(env, all, j) {
      ThirdOfPrefix(env, open, all, j);
    }
    forall j: nat | ThirdFailure(env, all, j) ensures j >= k {
      if j < |open| {
        assert ThirdFailure(env, open, j);
      }
    }
    assert HoldsFirst(env, before, all, k + 1, report.results);
    assert Reports(env, before, all, Finalized(report.(status := HaltedOnErrors(3))));
  }

  lemma Ends(env: Env, before: seq<QuestionResult>, open: seq<nat>, p: Process)
    requires p.Running? && p.stage == Looking && p.pos >= |env.questions|
    requires RunningAt(env, before, open, p)
    ensures Reports(env, before, open, Finalized(p.report))
  {
    hide AreOpen, HoldsFirst, ThirdFailure, Streak;
  }

  lemma SkippedIsNotOpen(env: Env, before: seq<QuestionResult>, open: seq<nat>, p: Process)
    requires p.Running? && p.stage == Looking && p.pos < |env.questions| && RunningAt(env, before, open, p)
    ensures var q := env.questions[p.pos];
            q.id in p.completed || q.category.None? <==> !IsOpen(env, before, p.pos)
  {
  }

  lemma FollowsStep(env: Env, before: seq<QuestionResult>, s: System, saves: nat -> SaveOutcome)
    requires s.process.Running? && Follows(env, before, s.process)
    ensures Follows(env, before, Step(env, s, saves).process)
  {
    hide RunningAt, Reports, IsOpen;
    var p := s.process;
    var open :| RunningAt(env, before, open, p);
    if p.stage == Looking {
      if p.pos >= |env.questions| {
        NextEnd(env, s);
        Ends(env, before, open, p);
      } else {
        NextLook(env, s);
        SkippedIsNotOpen(env, before, open, p);
        if IsOpen(env, before, p.pos) {
          Records(env, before, open, p);
        } else {
          PassesOver(env, before, open, p);
        }
      }
    } else {
      SavesNothing(env, before, open, p);
    }
  }

  /** Saving, whatever comes of it, leaves the report as it is. */
  lemma SavesNothing(env: Env, before: seq<QuestionResult>, open: seq<nat>, p: Process)
    requires p.Running? && p.stage != Looking && RunningAt(env, before, open, p)
    ensures RunningAt(env, before, open, p.(stage := Renaming))
    ensures RunningAt(env, before, open, p.(pos := p.pos + 1, stage := Looking))
  {
    hide AreOpen, HoldsFirst, ThirdFailure, Streak;
  }

  lemma {:induction false} FollowsToEnd(env: Env, before: seq<QuestionResult>, s: System, saves: nat -> SaveOutcome)
    requires !s.process.Dead? && Follows(env, before, s.process)
    ensures Follows(env, before, RunUnder(env, s, saves).process)
    decreases Fuel(env, s.process)
  {
    hide Follows;
    if !s.process.Done? {
      FollowsStep(env, before, s, saves);
      FollowsToEnd(env, before, Step(env, s, saves), saves);
    }
  }

  /** Main result: from any checkpoint file, and whatever becomes of the saves, the report that a run
      returns holds what the checkpoint of this configuration held and then, in order, what evaluating
      each open question gave; it halts exactly at the third failure in a row. */
  lemma RunReports(env: Env, disk: Option<Summary>, temp: Option<Summary>, saves: nat -> SaveOutcome)
    ensures exists open ::
              Reports(env, HeldBefore(env, disk), open, RunUnder(env, System(disk, temp, Dead), saves).process.final)
  {
    hide Reports, Start;
    var s := System(disk, temp, Dead);
    Begins(env, disk);
    RunUnderStep(env, s, saves);
    NextStart(env, s);
    FollowsToEnd(env, HeldBefore(env, disk), Step(env, s, saves), saves);
  }

  // ---- the counters at the end

  ghost predicate Counts(p: Process)
  {
    match p
    case Dead => false
    case Running(report, _, _, _, _) => Consistent(report)
    case Done(final) => AddsUp(final)
  }

  lemma FinalAddsUp(s: Summary)
    requires Consistent(s)
    ensures AddsUp(Finalized(s))
  {
    FinalizedConsistent(s);
    CountsAddUp(s);
    hide Consistent;
  }

  lemma SameCounts(s: Summary, status: RunStatus)
    requires Consistent(s)
    ensures Consistent(s.(status := status))
  {
    forall c ensures ConsistentCategory(s.(status := status), c) {
      assert ConsistentCategory(s, c);
    }
  }

  lemma CountsStep(env: Env, s: System, saves: nat -> SaveOutcome)
    requires s.process.Running? && Counts(s.process)
    ensures Counts(Step(env, s, saves).process)
  {
    hide Consistent, AddsUp;
    var p := s.process;
    if p.stage == Looking {
      if p.pos >= |env.questions| {
        NextEnd(env, s);
        FinalAddsUp(p.report);
      } else {
        NextLook(env, s);
        var q := env.questions[p.pos];
        if q.id !in p.completed && q.category.Some? {
          var r := ResultFor(env, q);
          RecordedConsistent(p.report, r);
          SameCounts(Recorded(p.report, r), HaltedOnErrors(p.errors + 1));
          FinalAddsUp(Recorded(p.report, r).(status := HaltedOnErrors(p.errors + 1)));
        }
      }
    }
  }

  lemma {:induction false} CountsToEnd(env: Env, s: System, saves: nat -> SaveOutcome)
    requires !s.process.Dead? && Counts(s.process)
    ensures Counts(RunUnder(env, s, saves).process)
    decreases Fuel(env, s.process)
  {
    hide Counts;
    if !s.process.Done? {
      CountsStep(env, s, saves);
      CountsToEnd(env, Step(env, s, saves), saves);
    }
  }

  /** The counters of the returned report count its results, unless a resumed checkpoint's did not. */
  lemma RunAddsUp(env: Env, disk: Option<Summary>, temp: Option<Summary>, saves: nat -> SaveOutcome)
    requires disk.Some? && disk.value.results != [] && disk.value.fingerprint == env.fingerprint ==>
               Consistent(disk.value)
    ensures AddsUp(RunUnder(env, System(disk, temp, Dead), saves).process.final)
  {
    hide Consistent, AddsUp;
    var s := System(disk, temp, Dead);
    EmptyConsistent(env.fingerprint);
    if disk.Some? && Consistent(disk.value) {
      SameCounts(disk.value, Completed);
    }
    RunUnderStep(env, s, saves);
    NextStart(env, s);
    CountsToEnd(env, Step(env, s, saves), saves);
  }

  // ---- the report that all histories agree on

  lemma {:induction false} PlannedHolds(env: Env, n: nat) returns (open: seq<nat>)
    requires n <= |env.questions|
    ensures AreOpen(env, [], n, open) && HoldsFirst(env, [], open, |open|, Planned(env, n))
  {
    hide Holds, ResultFor, HoldsFirst, AreOpen;
    open := [];
    if n == 0 {
      NothingPlanned(env);
    } else {
      open := PlannedHolds(env, n - 1);
      OneMoreOpen(env, [], n - 1, open);
      if env.questions[n - 1].category.Some? {
        ResultHolds(env, env.questions[n - 1]);
        HoldsOneMore(env, [], open, Planned(env, n - 1), n - 1, ResultFor(env, env.questions[n - 1]));
        open := open + [n - 1];
      } else {
        assert Planned(env, n - 1) + [] == Planned(env, n - 1);
      }
    }
  }

  lemma NothingPlanned(env: Env)
    ensures AreOpen(env, [], 0, []) && HoldsFirst(env, [], [], 0, Planned(env, 0))
  {
  }

  /** The report that every completing history ends with holds, in order, what evaluating each question of
      known type gave, and its counters add up. */
  lemma CompleteHolds(env: Env)
    ensures exists open ::
              AreOpen(env, [], |env.questions|, open) && HoldsFirst(env, [], open, |open|, Complete(env).results)
    ensures AddsUp(Complete(env)) && Complete(env).fingerprint == env.fingerprint && Complete(env).status == Completed
  {
    var n := |env.questions|;
    PlannedFacts(env, n);
    var open := PlannedHolds(env, n);
    hide AreOpen, HoldsFirst, RecordAll, Planned;
    FinalAddsUp(RecordAll(Empty(env.fingerprint), Planned(env, n)));
    assert Complete(env).results == Planned(env, n);
  }

  // ---- what is saved

  /** The file holds no report, or one whose counters and accuracy add up. */
  ghost predicate Accurate(disk: Option<Summary>)
  {
    disk.Some? ==> AddsUp(disk.value)
  }

  ghost predicate Sums(s: System)
  {
    && Accurate(s.disk) && TempOk(s)
    && match s.process
       case Dead => true
       case Running(report, _, _, _, _) => Consistent(report)
       case Done(final) => AddsUp(final)
  }

  lemma SumsStep(env: Env, s: System, e: Event)
    requires Sums(s)
    ensures Sums(Apply(env, s, e))
  {
    TempStep(env, s, e);
    hide Consistent, TempOk;
    match s.process {
      case Dead =>
        EmptyConsistent(env.fingerprint);
        if s.disk.Some? {
          SameCounts(s.disk.value, Completed);
        }
      case Done(_) =>
      case Running(report, _, _, _, stage) =>
        if stage == Looking {
          CountsStep(env, s, AllSaved());
        } else if stage == Renaming {
          WaitingReport(s);
          FinalAddsUp(report);
        }
    }
  }

  lemma WaitingReport(s: System)
    requires TempOk(s) && s.process.Running? && s.process.stage == Renaming
    ensures s.temp == Some(Finalized(s.process.report))
  {
  }

  /** Through any history of steps, failed saves, crashes and restarts, the checkpoint file only ever holds
      a report whose counters count its results and whose accuracy is their share of correct ones. */
  lemma {:induction false} CheckpointAddsUp(env: Env, disk: Option<Summary>, temp: Option<Summary>, events: seq<Event>)
    requires Accurate(disk)
    ensures Sums(Exec(env, System(disk, temp, Dead), events))
    decreases |events|
  {
    hide Sums;
    if events == [] {
      StartSums(disk, temp);
    } else {
      var init := events[..|events| - 1];
      CheckpointAddsUp(env, disk, temp, init);
      SumsStep(env, Exec(env, System(disk, temp, Dead), init), events[|events| - 1]);
    }
  }

  lemma StartSums(disk: Option<Summary>, temp: Option<Summary>)
    requires Accurate(disk)
    ensures Sums(System(disk, temp, Dead))
  {
  }
}
