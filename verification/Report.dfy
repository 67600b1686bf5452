/** The evaluation report of `report.rs`: counters that are updated result by result. */
module Report {
  datatype Category =
    | MultiSession
    | TemporalReasoning
    | KnowledgeUpdate
    | SingleSessionUser
    | SingleSessionAssistant
    | SingleSessionPreference

  datatype OutcomeClass = Ok | TransportFailure | AuthFailure | JudgeParseFailure

  datatype QuestionResult = QuestionResult(
    questionId: string,
    category: Category,
    correct: bool,
    predicted: string,
    retryCount: nat,
    outcome: OutcomeClass)

  datatype CategoryStats = CategoryStats(total: nat, correct: nat, accuracy: real)

  datatype RunStatus = Completed | HaltedOnErrors(consecutiveErrors: nat)

  /** The report as a value; clocks and token statistics are left out. */
  datatype Summary = Summary(
    fingerprint: string,
    total: nat,
    correct: nat,
    clean: nat,
    recovered: nat,
    transport: nat,
    auth: nat,
    judgeParse: nat,
    perCategory: map<Category, CategoryStats>,
    results: seq<QuestionResult>,
    status: RunStatus,
    accuracy: real)

  function Empty(fingerprint: string): Summary
  {
    Summary(fingerprint, 0, 0, 0, 0, 0, 0, 0, map[], [], Completed, 0.0)
  }

  function WithResult(stats: map<Category, CategoryStats>, q: QuestionResult): map<Category, CategoryStats>
  {
    var prior := if q.category in stats then stats[q.category] else CategoryStats(0, 0, 0.0);
    var total := prior.total + 1;
    var correct := if q.correct then prior.correct + 1 else prior.correct;
    stats[q.category := CategoryStats(total, correct, correct as real / total as real)]
  }

  /** The report after one more result. */
  function Recorded(s: Summary, q: QuestionResult): Summary
  {
    var ok := q.outcome == Ok;
    s.(total := s.total + 1,
       clean := if ok && q.retryCount == 0 then s.clean + 1 else s.clean,
       recovered := if ok && q.retryCount > 0 then s.recovered + 1 else s.recovered,
       correct := if ok && q.correct then s.correct + 1 else s.correct,
       transport := if q.outcome == TransportFailure then s.transport + 1 else s.transport,
       auth := if q.outcome == AuthFailure then s.auth + 1 else s.auth,
       judgeParse := if q.outcome == JudgeParseFailure then s.judgeParse + 1 else s.judgeParse,
       perCategory := if ok then WithResult(s.perCategory, q) else s.perCategory,
       results := s.results + [q])
  }

  /** The accuracy denominator. The source subtracts unsigned 64-bit counters, which wrap around in a
      release build when the failures exceed the total. */
  function Evaluated(s: Summary): nat
  {
    Wrapped(s.total - s.transport - s.auth - s.judgeParse)
  }

  function Wrapped(x: int): nat
  {
    if x >= 0 then x else x % 0x1_0000_0000_0000_0000
  }

  function Finalized(s: Summary): Summary
  {
    s.(accuracy := if Evaluated(s) > 0 then s.correct as real / Evaluated(s) as real else 0.0)
  }

  class EvalReport {
    var fingerprint: string
    var total: nat
    var correct: nat
    var clean: nat
    var recovered: nat
    var transport: nat
    var auth: nat
    var judgeParse: nat
    var perCategory: map<Category, CategoryStats>
    var results: seq<QuestionResult>
    var status: RunStatus
    var accuracy: real

    ghost function View(): Summary
      reads this
    {
      Summary(fingerprint, total, correct, clean, recovered, transport, auth, judgeParse,
              perCategory, results, status, accuracy)
    }

    constructor FromSummary(s: Summary)
      ensures View() == s
    {
      fingerprint, total, correct, clean, recovered := s.fingerprint, s.total, s.correct, s.clean, s.recovered;
      transport, auth, judgeParse := s.transport, s.auth, s.judgeParse;
      perCategory, results, status, accuracy := s.perCategory, s.results, s.status, s.accuracy;
    }

    /** A copy of the report, as written to the checkpoint file. */
    method Clone() returns (r: EvalReport)
      ensures fresh(r) && r.View() == View()
    {
      r := new EvalReport.FromSummary(
        Summary(fingerprint, total, correct, clean, recovered, transport, auth, judgeParse,
                perCategory, results, status, accuracy));
    }

    method Record(q: QuestionResult)
      modifies this
      ensures View() == Recorded(old(View()), q)
    {
      total := total + 1;
      match q.outcome {
        case Ok =>
          if q.retryCount > 0 {
            recovered := recovered + 1;
          } else {
            clean := clean + 1;
          }
          if q.correct {
            correct := correct + 1;
          }
        case TransportFailure =>
          transport := transport + 1;
        case AuthFailure =>
          auth := auth + 1;
        case JudgeParseFailure =>
          judgeParse := judgeParse + 1;
      }
      if q.outcome == Ok {
        var entry := if q.category in perCategory then perCategory[q.category] else CategoryStats(0, 0, 0.0);
        entry := entry.(total := entry.total + 1);
        if q.correct {
          entry := entry.(correct := entry.correct + 1);
        }
        perCategory := perCategory[q.category := entry.(accuracy := entry.correct as real / entry.total as real)];
      }
      results := results + [q];
    }

    method Finalize()
      modifies this
      ensures View() == Finalized(old(View()))
    {
      var evaluated := Wrapped(total - transport - auth - judgeParse);
      accuracy := if evaluated > 0 then correct as real / evaluated as real else 0.0;
    }
  }

  // ---- the counters say what the results say

  ghost function Count(rs: seq<QuestionResult>, sel: QuestionResult -> bool): (n: nat)
    ensures n <= |rs|
  {
    if rs == [] then 0
    else Count(rs[..|rs| - 1], sel) + (if sel(rs[|rs| - 1]) then 1 else 0)
  }

  ghost function With(outcome: OutcomeClass): QuestionResult -> bool { (q: QuestionResult) => q.outcome == outcome }
  ghost function Clean(): QuestionResult -> bool { (q: QuestionResult) => q.outcome == Ok && q.retryCount == 0 }
  ghost function Right(): QuestionResult -> bool { (q: QuestionResult) => q.outcome == Ok && q.correct }

  ghost function Graded(c: Category): QuestionResult -> bool
  {
    (q: QuestionResult) => q.outcome == Ok && q.category == c
  }

  ghost function GradedRight(c: Category): QuestionResult -> bool
  {
    (q: QuestionResult) => q.outcome == Ok && q.category == c && q.correct
  }

  /** Every counter is the number of results of its kind. */
  ghost predicate Consistent(s: Summary)
  {
    && s.total == |s.results|
    && s.clean == Count(s.results, Clean())
    && s.clean + s.recovered == Count(s.results, With(Ok))
    && s.correct == Count(s.results, Right())
    && s.transport == Count(s.results, With(TransportFailure))
    && s.auth == Count(s.results, With(AuthFailure))
    && s.judgeParse == Count(s.results, With(JudgeParseFailure))
    && forall c :: ConsistentCategory(s, c)
  }

  ghost predicate ConsistentCategory(s: Summary, c: Category)
  {
    var n := Count(s.results, Graded(c));
    && (c in s.perCategory <==> n > 0)
    && (c in s.perCategory ==>
          && s.perCategory[c].total == n
          && s.perCategory[c].correct == Count(s.results, GradedRight(c))
          && s.perCategory[c].accuracy == Count(s.results, GradedRight(c)) as real / n as real)
  }

  lemma EmptyConsistent(fingerprint: string)
    ensures Consistent(Empty(fingerprint))
  {
  }

  /** Every record call keeps the counters in step with the results. */
  lemma RecordedConsistent(s: Summary, q: QuestionResult)
    requires Consistent(s)
    ensures Consistent(Recorded(s, q))
  {
    var t := Recorded(s, q);
    assert t.results[..|t.results| - 1] == s.results;
    forall c ensures ConsistentCategory(t, c) {
      assert ConsistentCategory(s, c);
      GradedRightAreGraded(s.results, c);
    }
  }

  lemma FinalizedConsistent(s: Summary)
    requires Consistent(s)
    ensures Consistent(Finalized(s))
  {
    forall c ensures ConsistentCategory(Finalized(s), c) {
      assert ConsistentCategory(s, c);
    }
  }

  ghost function RecordAll(s: Summary, rs: seq<QuestionResult>): Summary
  {
    if rs == [] then s else Recorded(RecordAll(s, rs[..|rs| - 1]), rs[|rs| - 1])
  }

  lemma {:induction false} RecordAllConsistent(s: Summary, rs: seq<QuestionResult>)
    requires Consistent(s)
    ensures Consistent(RecordAll(s, rs))
    ensures RecordAll(s, rs).results == s.results + rs
    ensures RecordAll(s, rs).status == s.status && RecordAll(s, rs).fingerprint == s.fingerprint
    ensures RecordAll(s, rs).accuracy == s.accuracy
    decreases |rs|
  {
    if rs != [] {
      var init := rs[..|rs| - 1];
      RecordAllConsistent(s, init);
      RecordedConsistent(RecordAll(s, init), rs[|rs| - 1]);
      assert rs == init + [rs[|rs| - 1]];
    }
  }

  lemma {:induction false} OutcomesPartition(rs: seq<QuestionResult>)
    ensures |rs| == Count(rs, With(Ok)) + Count(rs, With(TransportFailure))
                    + Count(rs, With(AuthFailure)) + Count(rs, With(JudgeParseFailure))
    decreases |rs|
  {
    if rs != [] {
      OutcomesPartition(rs[..|rs| - 1]);
    }
  }

  lemma {:induction false} RightAreOk(rs: seq<QuestionResult>)
    ensures Count(rs, Right()) <= Count(rs, With(Ok))
    decreases |rs|
  {
    if rs != [] {
      RightAreOk(rs[..|rs| - 1]);
    }
  }

  /** The outcome counters partition the results, so finalize's subtraction does not wrap around and
      gives the number graded. */
  lemma CountsAddUp(s: Summary)
    requires Consistent(s)
    ensures s.total >= s.transport + s.auth + s.judgeParse
    ensures s.total == |s.results| == s.clean + s.recovered + s.transport + s.auth + s.judgeParse
    ensures Evaluated(s) == s.clean + s.recovered >= s.correct
  {
    OutcomesPartition(s.results);
    RightAreOk(s.results);
  }

  // ---- categories

  ghost function TotalOf(s: Summary, c: Category): nat
  {
    if c in s.perCategory then s.perCategory[c].total else 0
  }

  ghost function CorrectOf(s: Summary, c: Category): nat
  {
    if c in s.perCategory then s.perCategory[c].correct else 0
  }

  ghost function AccuracyOf(s: Summary, c: Category): real
  {
    if c in s.perCategory then s.perCategory[c].accuracy else 0.0
  }

  ghost function Sum(f: Category -> nat): nat
  {
    f(MultiSession) + f(TemporalReasoning) + f(KnowledgeUpdate)
    + f(SingleSessionUser) + f(SingleSessionAssistant) + f(SingleSessionPreference)
  }

  ghost function SumReal(f: Category -> real): real
  {
    f(MultiSession) + f(TemporalReasoning) + f(KnowledgeUpdate)
    + f(SingleSessionUser) + f(SingleSessionAssistant) + f(SingleSessionPreference)
  }

  lemma {:induction false} CategoriesPartition(rs: seq<QuestionResult>)
    ensures Count(rs, With(Ok)) == Sum(c => Count(rs, Graded(c)))
    ensures Count(rs, Right()) == Sum(c => Count(rs, GradedRight(c)))
    decreases |rs|
  {
    if rs != [] {
      CategoriesPartition(rs[..|rs| - 1]);
    }
  }

  /** The category table accounts for every graded and every correct answer. */
  lemma CategoriesAddUp(s: Summary)
    requires Consistent(s)
    ensures Sum(c => TotalOf(s, c)) == s.clean + s.recovered
    ensures Sum(c => CorrectOf(s, c)) == s.correct
  {
    CategoriesPartition(s.results);
    forall c
      ensures TotalOf(s, c) == Count(s.results, Graded(c)) && CorrectOf(s, c) == Count(s.results, GradedRight(c))
    {
      assert ConsistentCategory(s, c);
      GradedRightAreGraded(s.results, c);
    }
  }

  lemma {:induction false} GradedRightAreGraded(rs: seq<QuestionResult>, c: Category)
    ensures Count(rs, GradedRight(c)) <= Count(rs, Graded(c))
    decreases |rs|
  {
    if rs != [] {
      GradedRightAreGraded(rs[..|rs| - 1], c);
    }
  }

  /** Main result: after any records, the overall accuracy is the mean of the category accuracies
      weighted by their totals, and a fraction. */
  lemma OverallIsWeightedMean(s: Summary)
    requires Consistent(s)
    ensures var f := Finalized(s);
            && f.accuracy * Evaluated(s) as real == SumReal(c => AccuracyOf(s, c) * TotalOf(s, c) as real)
            && 0.0 <= f.accuracy <= 1.0
  {
    hide *;
    OverallAccuracy(s);
    CategoriesAddUp(s);
    forall c ensures AccuracyOf(s, c) * TotalOf(s, c) as real == CorrectOf(s, c) as real {
      CategoryShare(s, c);
    }
    SumShares(s);
  }

  lemma OverallAccuracy(s: Summary)
    requires Consistent(s)
    ensures Finalized(s).accuracy * Evaluated(s) as real == s.correct as real
    ensures 0.0 <= Finalized(s).accuracy <= 1.0
  {
    CountsAddUp(s);
    hide Consistent, Evaluated;
    if Evaluated(s) > 0 {
      Quotient(s.correct, Evaluated(s));
    }
  }

  lemma SumShares(s: Summary)
    requires forall c :: AccuracyOf(s, c) * TotalOf(s, c) as real == CorrectOf(s, c) as real
    ensures SumReal(c => AccuracyOf(s, c) * TotalOf(s, c) as real) == Sum(c => CorrectOf(s, c)) as real
  {
    hide AccuracyOf, TotalOf, CorrectOf;
  }

  lemma CategoryShare(s: Summary, c: Category)
    requires Consistent(s)
    ensures AccuracyOf(s, c) * TotalOf(s, c) as real == CorrectOf(s, c) as real
  {
    hide Count;
    assert ConsistentCategory(s, c);
    if c in s.perCategory {
      var st := s.perCategory[c];
      assert st.accuracy == st.correct as real / st.total as real;
      var x, n := st.correct as real, st.total as real;
      assert (x / n) * n == x;
    }
  }

  lemma Quotient(x: nat, n: nat)
    requires n > 0
    ensures (x as real / n as real) * n as real == x as real
    ensures x <= n ==> 0.0 <= x as real / n as real <= 1.0
  {
  }
}
