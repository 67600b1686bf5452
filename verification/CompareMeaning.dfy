/** What the paired analysis lists and counts, in terms of the two lists of results. */
module CompareMeaning {
  import opened Compare
  import opened Orders
  import opened Report
  import opened Sorting

  ghost predicate HasResult(rs: seq<QuestionResult>, id: string)
  {
    exists r :: r in rs && r.questionId == id
  }

  /** r is the last result with this id. */
  ghost predicate LastFor(rs: seq<QuestionResult>, id: string, r: QuestionResult)
  {
    exists k :: 0 <= k < |rs| && rs[k] == r && r.questionId == id
                && forall j :: k < j < |rs| ==> rs[j].questionId != id
  }

  /** Both lists have a result for the question, both last ones were validly graded, and these are their
      marks. */
  ghost predicate Marked(ra: seq<QuestionResult>, rb: seq<QuestionResult>, id: string, inA: bool, inB: bool)
  {
    exists x, y :: LastFor(ra, id, x) && LastFor(rb, id, y)
                   && x.outcome == Ok && y.outcome == Ok && x.correct == inA && y.correct == inB
  }

  /** Both lists have a result for the question, and grading failed in one of them, in whatever way. */
  ghost predicate Lost(ra: seq<QuestionResult>, rb: seq<QuestionResult>, id: string)
  {
    exists x, y :: LastFor(ra, id, x) && LastFor(rb, id, y)
                   && (x.outcome in {TransportFailure, AuthFailure, JudgeParseFailure}
                       || y.outcome in {TransportFailure, AuthFailure, JudgeParseFailure})
  }

  /** In order, each once. */
  ghost predicate InOrder(ids: seq<string>)
  {
    forall i, j :: 0 <= i < j < |ids| ==> ids[i] != ids[j] && LexLe(ids[i], ids[j])
  }

  lemma {:induction false} TableIs(rs: seq<QuestionResult>, id: string)
    ensures id in ById(rs) <==> HasResult(rs, id)
    ensures id in ById(rs) ==> LastFor(rs, id, ById(rs)[id])
    decreases |rs|
  {
    if rs != [] {
      var n := |rs| - 1;
      TableIs(rs[..n], id);
      assert rs == rs[..n] + [rs[n]];
      if rs[n].questionId == id {
        assert rs[n] in rs && LastFor(rs, id, rs[n]);
      } else if id in ById(rs[..n]) {
        var r := ById(rs)[id];
        var k :| 0 <= k < n && rs[..n][k] == r && r.questionId == id
                 && forall j :: k < j < n ==> rs[..n][j].questionId != id;
        assert rs[k] == r && forall j :: k < j < |rs| ==> rs[j].questionId != id;
      }
    }
  }

  lemma LastIsUnique(rs: seq<QuestionResult>, id: string, x: QuestionResult, y: QuestionResult)
    requires LastFor(rs, id, x) && LastFor(rs, id, y)
    ensures x == y && HasResult(rs, id)
  {
    assert x in rs;
  }

  lemma LastIsTable(rs: seq<QuestionResult>, id: string, x: QuestionResult)
    ensures LastFor(rs, id, x) <==> id in ById(rs) && ById(rs)[id] == x
  {
    TableIs(rs, id);
    hide ById;
    if LastFor(rs, id, x) {
      LastIsUnique(rs, id, x, x);
      LastIsUnique(rs, id, x, ById(rs)[id]);
    }
  }

  lemma CellIsMarked(ra: seq<QuestionResult>, rb: seq<QuestionResult>, id: string, inA: bool, inB: bool)
    ensures Cell(ById(ra), ById(rb), id, inA, inB) <==> Marked(ra, rb, id, inA, inB)
    ensures Shared(ById(ra), ById(rb), id) && !Joined(ById(ra), ById(rb), id) <==> Lost(ra, rb, id)
  {
    forall x ensures LastFor(ra, id, x) <==> id in ById(ra) && ById(ra)[id] == x {
      LastIsTable(ra, id, x);
    }
    forall y ensures LastFor(rb, id, y) <==> id in ById(rb) && ById(rb)[id] == y {
      LastIsTable(rb, id, y);
    }
    hide ById, LastFor;
  }

  lemma ListedInOrder(rs: seq<QuestionResult>, keep: string -> bool)
    ensures InOrder(Filter(SortedIds(rs), keep))
    ensures forall id :: id in Filter(SortedIds(rs), keep) <==> HasResult(rs, id) && keep(id)
  {
    SortedIdsFacts(rs);
    forall id ensures id in ById(rs) <==> HasResult(rs, id) {
      TableIs(rs, id);
    }
    hide LexLe, SortedIds, ById, HasResult;
    FilterAscending(SortedIds(rs), keep, LexLt);
    var r := Filter(SortedIds(rs), keep);
    forall i, j | 0 <= i < j < |r| ensures r[i] != r[j] && LexLe(r[i], r[j]) {
      assert LexLt(r[i], r[j]);
    }
  }

  /** Main result for the join: which questions every list holds, each once and in order. */
  lemma AnalysisMeans(ra: seq<QuestionResult>, rb: seq<QuestionResult>, p: PairedAnalysis)
    requires p.unmatchedA == Filter(SortedIds(ra), id => id !in ById(rb))
    requires p.unmatchedB == Filter(SortedIds(rb), id => id !in ById(ra))
    requires Tallied(ById(ra), ById(rb), SortedIds(ra), p)
    ensures InOrder(p.unmatchedA) && InOrder(p.unmatchedB) && InOrder(p.dropped)
    ensures InOrder(p.aOnly) && InOrder(p.bOnly)
    ensures forall id :: id in p.unmatchedA <==> HasResult(ra, id) && !HasResult(rb, id)
    ensures forall id :: id in p.unmatchedB <==> HasResult(rb, id) && !HasResult(ra, id)
    ensures forall id :: id in p.dropped <==> Lost(ra, rb, id)
    ensures forall id :: id in p.aOnly <==> Marked(ra, rb, id, true, false)
    ensures forall id :: id in p.bOnly <==> Marked(ra, rb, id, false, true)
  {
    hide *;
    TallyParts(ra, rb, p);
    UnmatchedMean(ra, rb);
    UnmatchedMean(rb, ra);
    DroppedMean(ra, rb);
    CellMean(ra, rb, true, false);
    CellMean(ra, rb, false, true);
  }

  lemma TallyParts(ra: seq<QuestionResult>, rb: seq<QuestionResult>, p: PairedAnalysis)
    requires Tallied(ById(ra), ById(rb), SortedIds(ra), p)
    ensures p.dropped == DroppedIds(ById(ra), ById(rb), SortedIds(ra))
    ensures p.aOnly == CellIds(ById(ra), ById(rb), SortedIds(ra), true, false)
    ensures p.bOnly == CellIds(ById(ra), ById(rb), SortedIds(ra), false, true)
  {
    hide DroppedIds, CellIds, ById, SortedIds, Filter;
  }

  lemma UnmatchedMean(ra: seq<QuestionResult>, rb: seq<QuestionResult>)
    ensures var ids := Filter(SortedIds(ra), id => id !in ById(rb));
            InOrder(ids) && forall id :: id in ids <==> HasResult(ra, id) && !HasResult(rb, id)
  {
    forall id ensures id in ById(rb) <==> HasResult(rb, id) {
      TableIs(rb, id);
    }
    hide ById, SortedIds, HasResult, Filter, InOrder;
    ListedInOrder(ra, id => id !in ById(rb));
  }

  lemma DroppedMean(ra: seq<QuestionResult>, rb: seq<QuestionResult>)
    ensures var ids := DroppedIds(ById(ra), ById(rb), SortedIds(ra));
            InOrder(ids) && forall id :: id in ids <==> Lost(ra, rb, id)
  {
    var a, b := ById(ra), ById(rb);
    forall id ensures Shared(a, b, id) && !Joined(a, b, id) <==> Lost(ra, rb, id) {
      CellIsMarked(ra, rb, id, true, true);
    }
    forall id ensures id in a <==> HasResult(ra, id) {
      TableIs(ra, id);
    }
    hide ById, SortedIds, HasResult, Filter, InOrder, Lost, Joined;
    ListedInOrder(ra, id => Shared(a, b, id) && !Joined(a, b, id));
  }

  lemma CellMean(ra: seq<QuestionResult>, rb: seq<QuestionResult>, inA: bool, inB: bool)
    ensures var ids := CellIds(ById(ra), ById(rb), SortedIds(ra), inA, inB);
            InOrder(ids) && forall id :: id in ids <==> Marked(ra, rb, id, inA, inB)
  {
    var a, b := ById(ra), ById(rb);
    forall id ensures Cell(a, b, id, inA, inB) <==> Marked(ra, rb, id, inA, inB) {
      CellIsMarked(ra, rb, id, inA, inB);
    }
    forall id ensures id in a <==> HasResult(ra, id) {
      TableIs(ra, id);
    }
    hide ById, SortedIds, HasResult, Filter, InOrder, Marked;
    ListedInOrder(ra, id => Cell(a, b, id, inA, inB));
  }

  /** The questions right in both arms, and those wrong in both, are counted; the other tallies follow. */
  lemma TalliesMean(ra: seq<QuestionResult>, rb: seq<QuestionResult>, p: PairedAnalysis,
                    right: set<string>, wrong: set<string>)
    requires Tallied(ById(ra), ById(rb), SortedIds(ra), p)
    requires forall id :: id in right <==> Marked(ra, rb, id, true, true)
    requires forall id :: id in wrong <==> Marked(ra, rb, id, false, false)
    ensures p.bothCorrect == |right| && p.bothWrong == |wrong|
    ensures p.n == |right| + |wrong| + |p.aOnly| + |p.bOnly|
    ensures p.aCorrect == |right| + |p.aOnly| && p.bCorrect == |right| + |p.bOnly|
  {
    forall id, x, y ensures Cell(ById(ra), ById(rb), id, x, y) <==> Marked(ra, rb, id, x, y) {
      CellIsMarked(ra, rb, id, x, y);
    }
    hide ById, SortedIds, CellIds, DroppedIds, Filter, Marked;
    CellCount(ra, rb, true, true, right);
    CellCount(ra, rb, false, false, wrong);
  }
}
