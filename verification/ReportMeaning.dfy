/** What the counters and accuracies of a report say, by the fields of its results alone. */
module ReportMeaning {
  import opened Report

  /** The positions of results of one outcome class. */
  ghost function OfClass(rs: seq<QuestionResult>, outcome: OutcomeClass): set<nat>
  {
    set i | 0 <= i < |rs| && rs[i].outcome == outcome
  }

  ghost function OfCategory(rs: seq<QuestionResult>, c: Category): set<nat>
  {
    set i | 0 <= i < |rs| && rs[i].outcome == Ok && rs[i].category == c
  }

  ghost function CorrectAmong(rs: seq<QuestionResult>, places: set<nat>): set<nat>
  {
    set i | i in places && i < |rs| && rs[i].correct
  }

  ghost function RetriedAmong(rs: seq<QuestionResult>, places: set<nat>): set<nat>
  {
    set i | i in places && i < |rs| && rs[i].retryCount > 0
  }

  /** The share of the right answers among the graded ones, and zero when there are none. */
  ghost predicate IsShare(x: real, right: nat, graded: nat)
  {
    if graded == 0 then x == 0.0 else x * graded as real == right as real
  }

  lemma {:induction false} CountIsSet(rs: seq<QuestionResult>, sel: QuestionResult -> bool, places: set<nat>)
    requires forall i: nat :: i in places <==> i < |rs| && sel(rs[i])
    ensures Count(rs, sel) == |places|
    decreases |rs|
  {
    if rs == [] {
      assert places == {};
    } else {
      var n := |rs| - 1;
      CountIsSet(rs[..n], sel, places - {n});
    }
  }

  lemma ClassCount(rs: seq<QuestionResult>, outcome: OutcomeClass)
    ensures Count(rs, With(outcome)) == |OfClass(rs, outcome)|
  {
    hide Count;
    CountIsSet(rs, With(outcome), OfClass(rs, outcome));
  }

  lemma CorrectCount(rs: seq<QuestionResult>)
    ensures Count(rs, Right()) == |CorrectAmong(rs, OfClass(rs, Ok))|
  {
    hide Count;
    CountIsSet(rs, Right(), CorrectAmong(rs, OfClass(rs, Ok)));
  }

  lemma CleanCount(rs: seq<QuestionResult>)
    ensures Count(rs, Clean()) == |OfClass(rs, Ok)| - |RetriedAmong(rs, OfClass(rs, Ok))|
  {
    hide Count;
    var ok, retried := OfClass(rs, Ok), RetriedAmong(rs, OfClass(rs, Ok));
    CountIsSet(rs, Clean(), ok - retried);
    assert retried + (ok - retried) == ok;
  }

  lemma CategoryCounts(rs: seq<QuestionResult>, c: Category)
    ensures Count(rs, Graded(c)) == |OfCategory(rs, c)|
    ensures Count(rs, GradedRight(c)) == |CorrectAmong(rs, OfCategory(rs, c))|
  {
    hide Count;
    CountIsSet(rs, Graded(c), OfCategory(rs, c));
    CountIsSet(rs, GradedRight(c), CorrectAmong(rs, OfCategory(rs, c)));
  }

  lemma AccuracyIsShare(s: Summary)
    requires Consistent(s)
    ensures IsShare(Finalized(s).accuracy, s.correct, s.clean + s.recovered)
  {
    CountsAddUp(s);
    hide Consistent, Evaluated;
    if Evaluated(s) > 0 {
      Quotient(s.correct, Evaluated(s));
    }
  }

  lemma Parts(s: Summary)
    requires Consistent(s)
    ensures s.total == |s.results|
    ensures s.clean == Count(s.results, Clean()) && s.clean + s.recovered == Count(s.results, With(Ok))
    ensures s.correct == Count(s.results, Right())
    ensures s.transport == Count(s.results, With(TransportFailure))
    ensures s.auth == Count(s.results, With(AuthFailure))
    ensures s.judgeParse == Count(s.results, With(JudgeParseFailure))
  {
    hide Count, ConsistentCategory;
  }

  /** Main result for the counters: what each of them counts, and what share the accuracy is. */
  lemma CountersMean(s: Summary)
    requires Consistent(s)
    ensures var rs := s.results;
            var ok := OfClass(rs, Ok);
            && s.total == |rs|
            && s.transport == |OfClass(rs, TransportFailure)| && s.auth == |OfClass(rs, AuthFailure)|
            && s.judgeParse == |OfClass(rs, JudgeParseFailure)|
            && s.correct == |CorrectAmong(rs, ok)|
            && s.recovered == |RetriedAmong(rs, ok)| && s.clean == |ok| - |RetriedAmong(rs, ok)|
            && IsShare(Finalized(s).accuracy, s.correct, |ok|)
  {
    hide *;
    var rs := s.results;
    Parts(s);
    ClassCount(rs, Ok);
    ClassCount(rs, TransportFailure);
    ClassCount(rs, AuthFailure);
    ClassCount(rs, JudgeParseFailure);
    CorrectCount(rs);
    CleanCount(rs);
    AccuracyIsShare(s);
  }

  /** The same for the table of categories, which lists those that have a graded result. */
  lemma CategoryMeans(s: Summary, c: Category)
    requires Consistent(s)
    ensures var n := OfCategory(s.results, c);
            && (c in s.perCategory <==> n != {})
            && (c in s.perCategory ==>
                  && s.perCategory[c].total == |n| && s.perCategory[c].correct == |CorrectAmong(s.results, n)|
                  && IsShare(s.perCategory[c].accuracy, s.perCategory[c].correct, |n|))
  {
    hide *;
    CategoryCounts(s.results, c);
    CategoryPart(s, c);
    if c in s.perCategory {
      Shares(s.perCategory[c], |OfCategory(s.results, c)|);
    }
  }

  lemma CategoryPart(s: Summary, c: Category)
    requires Consistent(s)
    ensures var n, right := Count(s.results, Graded(c)), Count(s.results, GradedRight(c));
            && (c in s.perCategory <==> n > 0)
            && (c in s.perCategory ==> s.perCategory[c] == CategoryStats(n, right, right as real / n as real))
  {
    hide Count;
    assert ConsistentCategory(s, c);
  }

  lemma Shares(st: CategoryStats, n: nat)
    requires n > 0 && st.total == n && st.accuracy == st.correct as real / n as real
    ensures IsShare(st.accuracy, st.correct, n)
  {
    Quotient(st.correct, n);
  }
}
