/** The paired A/B comparison of `compare.rs`, against the counting of `paired_mcnemar.py`. */
module Compare {
  import opened Binomial
  import opened McNemar
  import opened Orders
  import opened Report
  import opened Sorting

  /** Results by id; a later result replaces an earlier one with the same id. */
  function ById(rs: seq<QuestionResult>): map<string, QuestionResult>
  {
    if rs == [] then map[] else ById(rs[..|rs| - 1])[rs[|rs| - 1].questionId := rs[|rs| - 1]]
  }

  predicate LexLt(a: string, b: string)
  {
    LexLe(a, b) && a != b
  }

  /** The keys of an ordered map after inserting one more. */
  function InsertKey(k: string, ks: seq<string>): seq<string>
  {
    if ks == [] then [k]
    else if k == ks[0] then ks
    else if LexLe(k, ks[0]) then [k] + ks
    else [ks[0]] + InsertKey(k, ks[1..])
  }

  /** The ids in the order a BTreeMap lists them. */
  function SortedIds(rs: seq<QuestionResult>): seq<string>
  {
    if rs == [] then [] else InsertKey(rs[|rs| - 1].questionId, SortedIds(rs[..|rs| - 1]))
  }

  lemma {:induction false} InsertKeyFacts(k: string, ks: seq<string>)
    requires Ascending(ks, LexLt)
    ensures Ascending(InsertKey(k, ks), LexLt)
    ensures forall x :: x in InsertKey(k, ks) <==> x == k || x in ks
    decreases |ks|
  {
    LexOrder();
    hide LexLe;
    if ks != [] && k != ks[0] {
      if LexLe(k, ks[0]) {
        forall j | 0 <= j < |ks| ensures LexLt(k, ks[j]) {
          assert j > 0 ==> LexLt(ks[0], ks[j]);
        }
      } else {
        assert Ascending(ks[1..], LexLt);
        InsertKeyFacts(k, ks[1..]);
        var r := InsertKey(k, ks[1..]);
        forall j | 0 <= j < |r| ensures LexLt(ks[0], r[j]) {
          assert r[j] in r;
          if r[j] != k {
            var i :| 0 <= i < |ks[1..]| && ks[1..][i] == r[j];
            assert LexLt(ks[0], ks[i + 1]);
          }
        }
        assert ks == [ks[0]] + ks[1..];
      }
    }
  }

  lemma {:induction false} SortedIdsFacts(rs: seq<QuestionResult>)
    ensures Ascending(SortedIds(rs), LexLt)
    ensures forall k :: k in SortedIds(rs) <==> k in ById(rs)
    decreases |rs|
  {
    if rs != [] {
      SortedIdsFacts(rs[..|rs| - 1]);
      InsertKeyFacts(rs[|rs| - 1].questionId, SortedIds(rs[..|rs| - 1]));
    }
  }

  // ---- the join

  type Table = map<string, QuestionResult>

  predicate Shared(a: Table, b: Table, id: string) { id in a && id in b }

  /** In both arms, validly graded in both. */
  predicate Joined(a: Table, b: Table, id: string)
  {
    Shared(a, b, id) && a[id].outcome == Ok && b[id].outcome == Ok
  }

  predicate Cell(a: Table, b: Table, id: string, inA: bool, inB: bool)
  {
    Joined(a, b, id) && a[id].correct == inA && b[id].correct == inB
  }

  datatype PairedAnalysis = PairedAnalysis(
    unmatchedA: seq<string>, unmatchedB: seq<string>, dropped: seq<string>,
    n: nat, aCorrect: nat, bCorrect: nat, bothCorrect: nat, bothWrong: nat,
    aOnly: seq<string>, bOnly: seq<string>)

  function CellIds(a: Table, b: Table, ids: seq<string>, inA: bool, inB: bool): seq<string>
  {
    Filter(ids, id => Cell(a, b, id, inA, inB))
  }

  function DroppedIds(a: Table, b: Table, ids: seq<string>): seq<string>
  {
    Filter(ids, id => Shared(a, b, id) && !Joined(a, b, id))
  }

  lemma LastKept(ids: seq<string>, id: string, keep: string -> bool)
    ensures Filter(ids + [id], keep) == Filter(ids, keep) + (if keep(id) then [id] else [])
  {
    FilterConcat(ids, [id], keep);
    assert [id][1..] == [];
  }

  /** The tallies say what the ids looked at say. */
  ghost predicate Tallied(a: Table, b: Table, ids: seq<string>, p: PairedAnalysis)
  {
    && p.dropped == DroppedIds(a, b, ids)
    && p.aOnly == CellIds(a, b, ids, true, false)
    && p.bOnly == CellIds(a, b, ids, false, true)
    && p.bothCorrect == |CellIds(a, b, ids, true, true)|
    && p.bothWrong == |CellIds(a, b, ids, false, false)|
    && p.n == p.bothCorrect + p.bothWrong + |p.aOnly| + |p.bOnly|
    && p.aCorrect == p.bothCorrect + |p.aOnly| && p.bCorrect == p.bothCorrect + |p.bOnly|
    && |Filter(ids, id => id !in b)| + |p.dropped| + p.n == |ids|
  }

  /** `paired_analysis`. */
  method Analyse(ra: seq<QuestionResult>, rb: seq<QuestionResult>) returns (p: PairedAnalysis)
    ensures p.unmatchedA == Filter(SortedIds(ra), id => id !in ById(rb))
    ensures p.unmatchedB == Filter(SortedIds(rb), id => id !in ById(ra))
    ensures Tallied(ById(ra), ById(rb), SortedIds(ra), p)
  {
    var a, b, ids := ById(ra), ById(rb), SortedIds(ra);
    var unmatchedA, unmatchedB := Filter(ids, id => id !in b), Filter(SortedIds(rb), id => id !in a);
    SortedIdsFacts(ra);
    p := JoinAll(a, b, ids);
    p := p.(unmatchedA := unmatchedA, unmatchedB := unmatchedB);
  }

  /** The join loop. */
  method JoinAll(a: Table, b: Table, ids: seq<string>) returns (p: PairedAnalysis)
    requires forall id :: id in ids ==> id in a
    ensures Tallied(a, b, ids, p)
  {
    hide *;
    p := PairedAnalysis([], [], [], 0, 0, 0, 0, 0, [], []);
    assert ids[..0] == [];
    NothingTallied(a, b, p);
    for i := 0 to |ids|
      invariant Tallied(a, b, ids[..i], p)
    {
      assert ids[i] in ids;
      assert ids[..i + 1] == ids[..i] + [ids[i]];
      p := JoinOne(a, b, ids[i], p, ids[..i]);
    }
    assert ids[..|ids|] == ids;
  }

  /** The body of the join loop, at one id of the first table. */
  method JoinOne(a: Table, b: Table, id: string, p: PairedAnalysis, ghost ids: seq<string>) returns (r: PairedAnalysis)
    requires id in a && Tallied(a, b, ids, p)
    ensures Tallied(a, b, ids + [id], r)
  {
    hide *;
    TallyStep(a, b, ids, id, p);
    if id !in b {
      return p;
    }
    if a[id].outcome != Ok || b[id].outcome != Ok {
      return p.(dropped := p.dropped + [id]);
    }
    r := p.(n := p.n + 1);
    match (a[id].correct, b[id].correct) {
      case (true, true) =>
        r := r.(aCorrect := r.aCorrect + 1, bCorrect := r.bCorrect + 1, bothCorrect := r.bothCorrect + 1);
      case (true, false) =>
        r := r.(aCorrect := r.aCorrect + 1, aOnly := r.aOnly + [id]);
      case (false, true) =>
        r := r.(bCorrect := r.bCorrect + 1, bOnly := r.bOnly + [id]);
      case (false, false) =>
        r := r.(bothWrong := r.bothWrong + 1);
    }
  }

  lemma NothingTallied(a: Table, b: Table, p: PairedAnalysis)
    requires p.dropped == [] && p.aOnly == [] && p.bOnly == []
    requires p.n == p.aCorrect == p.bCorrect == p.bothCorrect == p.bothWrong == 0
    ensures Tallied(a, b, [], p)
  {
  }

  lemma JoinStep(a: Table, b: Table, ids: seq<string>, id: string, x: bool, y: bool)
    requires id in a
    ensures CellIds(a, b, ids + [id], x, y) == CellIds(a, b, ids, x, y) + (if Cell(a, b, id, x, y) then [id] else [])
    ensures DroppedIds(a, b, ids + [id]) == DroppedIds(a, b, ids) + (if id in b && !Joined(a, b, id) then [id] else [])
    ensures Filter(ids + [id], k => k !in b) == Filter(ids, k => k !in b) + (if id !in b then [id] else [])
  {
    hide Filter;
    LastKept(ids, id, k => Cell(a, b, k, x, y));
    LastKept(ids, id, k => Shared(a, b, k) && !Joined(a, b, k));
    LastKept(ids, id, k => k !in b);
  }

  lemma TallyStep(a: Table, b: Table, ids: seq<string>, id: string, p: PairedAnalysis)
    requires id in a && Tallied(a, b, ids, p)
    ensures Tallied(a, b, ids + [id],
              if id !in b then p
              else if a[id].outcome != Ok || b[id].outcome != Ok then p.(dropped := p.dropped + [id])
              else match (a[id].correct, b[id].correct)
                case (true, true) =>
                  p.(n := p.n + 1, aCorrect := p.aCorrect + 1, bCorrect := p.bCorrect + 1,
                     bothCorrect := p.bothCorrect + 1)
                case (true, false) => p.(n := p.n + 1, aCorrect := p.aCorrect + 1, aOnly := p.aOnly + [id])
                case (false, true) => p.(n := p.n + 1, bCorrect := p.bCorrect + 1, bOnly := p.bOnly + [id])
                case (false, false) => p.(n := p.n + 1, bothWrong := p.bothWrong + 1))
  {
    hide Filter, CellIds, DroppedIds;
    JoinStep(a, b, ids, id, true, true);
    JoinStep(a, b, ids, id, true, false);
    JoinStep(a, b, ids, id, false, true);
    JoinStep(a, b, ids, id, false, false);
  }

  // ---- swapping the arms

  /** The ids in a cell, listed from either arm, are the same list. */
  lemma CellSwaps(ra: seq<QuestionResult>, rb: seq<QuestionResult>, inA: bool, inB: bool)
    ensures CellIds(ById(ra), ById(rb), SortedIds(ra), inA, inB) == CellIds(ById(rb), ById(ra), SortedIds(rb), inB, inA)
  {
    var a, b := ById(ra), ById(rb);
    SortedIdsFacts(ra);
    SortedIdsFacts(rb);
    LexOrder();
    hide LexLe, ById, SortedIds;
    FilterAscending(SortedIds(ra), id => Cell(a, b, id, inA, inB), LexLt);
    FilterAscending(SortedIds(rb), id => Cell(b, a, id, inB, inA), LexLt);
    hide Filter;
    AscendingUnique(CellIds(a, b, SortedIds(ra), inA, inB), CellIds(b, a, SortedIds(rb), inB, inA), LexLt);
  }

  ghost function RustP(ra: seq<QuestionResult>, rb: seq<QuestionResult>): real
  {
    var a, b, ids := ById(ra), ById(rb), SortedIds(ra);
    var x, y := |CellIds(a, b, ids, true, false)|, |CellIds(a, b, ids, false, true)|;
    DoubledTail(x + y, MinNat(x, y))
  }

  /** The verdict does not depend on which report is called A. */
  lemma PSymmetric(ra: seq<QuestionResult>, rb: seq<QuestionResult>)
    ensures RustP(ra, rb) == RustP(rb, ra)
  {
    hide DoubledTail, CellIds;
    CellSwaps(ra, rb, true, false);
    CellSwaps(ra, rb, false, true);
  }

  // ---- the script's counts

  /** Shared questions answered correctly in the first table only, whatever their outcome class. */
  ghost function OnlyIn(a: Table, b: Table): set<string>
  {
    set id | id in a && id in b && a[id].correct && !b[id].correct
  }

  /** `paired_mcnemar.py` on two reports, its comparison tolerance set to zero. */
  ghost function ScriptP(ra: seq<QuestionResult>, rb: seq<QuestionResult>): real
  {
    ExactTwoSidedP(|OnlyIn(ById(rb), ById(ra))|, |OnlyIn(ById(ra), ById(rb))|, 0.0)
  }

  lemma {:induction false} DistinctCount(s: seq<string>, members: set<string>)
    requires Ascending(s, LexLt)
    requires forall x :: x in s <==> x in members
    ensures |s| == |members|
    decreases |s|
  {
    if s != [] {
      forall x ensures x in s[1..] <==> x in members - {s[0]} {
        TailMembership(s, LexLt, x);
      }
      DistinctCount(s[1..], members - {s[0]});
    }
  }

  lemma {:induction false} CellCount(ra: seq<QuestionResult>, rb: seq<QuestionResult>, inA: bool, inB: bool,
                                     members: set<string>)
    requires forall id :: id in members <==> Cell(ById(ra), ById(rb), id, inA, inB)
    ensures |CellIds(ById(ra), ById(rb), SortedIds(ra), inA, inB)| == |members|
  {
    var a, b := ById(ra), ById(rb);
    SortedIdsFacts(ra);
    hide LexLe, ById, SortedIds;
    FilterAscending(SortedIds(ra), id => Cell(a, b, id, inA, inB), LexLt);
    hide Filter;
    DistinctCount(CellIds(a, b, SortedIds(ra), inA, inB), members);
  }

  /** No question that the tool drops separates the arms for the script. */
  ghost predicate DropsConcord(ra: seq<QuestionResult>, rb: seq<QuestionResult>)
  {
    var a, b := ById(ra), ById(rb);
    forall id :: Shared(a, b, id) && !Joined(a, b, id) ==> a[id].correct == b[id].correct
  }

  lemma SameSize(s: set<string>, t: set<string>)
    requires s <= t
    ensures |s| == |t| <==> s == t
  {
    assert t == s + (t - s);
  }

  /** Both programs count the same discordant pairs exactly when the questions whose grading failed in
      an arm carry the same mark in both. */
  lemma CountsAgree(ra: seq<QuestionResult>, rb: seq<QuestionResult>)
    ensures var a, b, ids := ById(ra), ById(rb), SortedIds(ra);
            (|CellIds(a, b, ids, true, false)| == |OnlyIn(a, b)| && |CellIds(a, b, ids, false, true)| == |OnlyIn(b, a)|)
            <==> DropsConcord(ra, rb)
  {
    var a, b := ById(ra), ById(rb);
    var x := set id | id in OnlyIn(a, b) && Joined(a, b, id);
    var y := set id | id in OnlyIn(b, a) && Joined(a, b, id);
    hide ById, SortedIds, CellIds;
    CellCount(ra, rb, true, false, x);
    CellCount(ra, rb, false, true, y);
    SameSize(x, OnlyIn(a, b));
    SameSize(y, OnlyIn(b, a));
    if DropsConcord(ra, rb) {
      assert x == OnlyIn(a, b) && y == OnlyIn(b, a);
    } else {
      var id :| Shared(a, b, id) && !Joined(a, b, id) && a[id].correct != b[id].correct;
      assert id in OnlyIn(a, b) - x || id in OnlyIn(b, a) - y;
    }
  }

  /** Main result: under that condition the comparison tool and the script reach the same p-value from
      the same two reports. */
  lemma ToolsAgree(ra: seq<QuestionResult>, rb: seq<QuestionResult>)
    requires DropsConcord(ra, rb)
    ensures RustP(ra, rb) == ScriptP(ra, rb)
  {
    CountsAgree(ra, rb);
    hide ById, SortedIds, CellIds, DoubledTail, ExactTwoSidedP, DropsConcord;
    DefinitionsAgree(|OnlyIn(ById(rb), ById(ra))|, |OnlyIn(ById(ra), ById(rb))|);
  }

  // ---- how far they can differ

  /** One result of the same kind for every question. */
  ghost function Uniform(ids: seq<string>, correct: bool, outcome: OutcomeClass): (rs: seq<QuestionResult>)
    ensures |rs| == |ids|
    ensures forall i :: 0 <= i < |ids| ==> rs[i] == QuestionResult(ids[i], MultiSession, correct, "", 0, outcome)
  {
    seq(|ids|, i requires 0 <= i < |ids| => QuestionResult(ids[i], MultiSession, correct, "", 0, outcome))
  }

  lemma {:induction false} UniformTable(ids: seq<string>, correct: bool, outcome: OutcomeClass)
    ensures var t := ById(Uniform(ids, correct, outcome));
            && (forall id :: id in t <==> id in ids)
            && forall id :: id in t ==> t[id] == QuestionResult(id, MultiSession, correct, "", 0, outcome)
    decreases |ids|
  {
    if ids != [] {
      var n := |ids| - 1;
      UniformTable(ids[..n], correct, outcome);
      assert Uniform(ids, correct, outcome)[..n] == Uniform(ids[..n], correct, outcome);
      assert ids == ids[..n] + [ids[n]];
    }
  }

  ghost function Members(ids: seq<string>): set<string>
  {
    set id | id in ids
  }

  lemma {:induction false} MembersCount(ids: seq<string>)
    requires forall i, j :: 0 <= i < j < |ids| ==> ids[i] != ids[j]
    ensures |Members(ids)| == |ids|
    decreases |ids|
  {
    if ids != [] {
      var n := |ids| - 1;
      MembersCount(ids[..n]);
      assert ids == ids[..n] + [ids[n]];
      assert Members(ids) == Members(ids[..n]) + {ids[n]};
    }
  }

  lemma AllLostCounts(ids: seq<string>)
    requires forall i, j :: 0 <= i < j < |ids| ==> ids[i] != ids[j]
    ensures var ra, rb := Uniform(ids, true, Ok), Uniform(ids, false, TransportFailure);
            && OnlyIn(ById(rb), ById(ra)) == {} && |OnlyIn(ById(ra), ById(rb))| == |ids|
            && |CellIds(ById(ra), ById(rb), SortedIds(ra), true, false)| == 0
            && |CellIds(ById(ra), ById(rb), SortedIds(ra), false, true)| == 0
  {
    var ra, rb := Uniform(ids, true, Ok), Uniform(ids, false, TransportFailure);
    UniformTable(ids, true, Ok);
    UniformTable(ids, false, TransportFailure);
    hide ById, SortedIds, CellIds, Uniform;
    MembersCount(ids);
    assert OnlyIn(ById(ra), ById(rb)) == Members(ids);
    CellCount(ra, rb, true, false, {});
    CellCount(ra, rb, false, true, {});
  }

  /** Where the condition fails the verdicts can be opposite: of n questions all right in A and all lost
      in B, the script makes n wrong answers and p = 2^(1 - n), and the tool no evidence at all. */
  lemma {:induction false} AllLost(ids: seq<string>)
    requires ids != [] && forall i, j :: 0 <= i < j < |ids| ==> ids[i] != ids[j]
    ensures var ra, rb := Uniform(ids, true, Ok), Uniform(ids, false, TransportFailure);
            RustP(ra, rb) == 1.0 && ScriptP(ra, rb) == 2.0 * HalfPow(|ids|)
  {
    AllLostCounts(ids);
    hide ById, SortedIds, CellIds, Uniform, ExactTwoSidedP;
    DefinitionsAgree(0, |ids|);
    OneSidedTail(|ids|);
  }

  lemma OneSidedTail(n: nat)
    requires n >= 1
    ensures DoubledTail(n, 0) == 2.0 * HalfPow(n) && DoubledTail(0, 0) == 1.0
  {
    OneSidedMasses(n);
    OneSidedMasses(0);
    assert HalfPow(1) == 0.5;
    HalfPowFalls(1, n);
  }

  lemma {:induction false} HalfPowFalls(m: nat, n: nat)
    requires m <= n
    ensures HalfPow(n) <= HalfPow(m)
  {
    if m < n {
      HalfPowFalls(m, n - 1);
    }
  }

  /** With six such questions the script reports significance at the 0.05 line, its tolerance included,
      and the tool p = 1. */
  lemma ToolsDiffer()
    ensures var ids := ["a", "b", "c", "d", "e", "f"];
            var ra, rb := Uniform(ids, true, Ok), Uniform(ids, false, TransportFailure);
            RustP(ra, rb) == 1.0 && ScriptP(ra, rb) == 0.03125 < 0.05
    ensures ExactTwoSidedP(0, 6, TOLERANCE) == 0.03125
  {
    hide *;
    AllLost(["a", "b", "c", "d", "e", "f"]);
    SixToNothing();
  }

  lemma SixToNothing()
    ensures 2.0 * HalfPow(6) == 0.03125 && ExactTwoSidedP(0, 6, TOLERANCE) == 0.03125
  {
    hide HalfPow, ExactTwoSidedP, Choose, Mass, LowerTail, DoubledTail;
    HalfPowSix();
    OneSidedTail(6);
    OneSidedMasses(6);
    ToleranceEffect(0, 6, TOLERANCE);
  }

  lemma HalfPowSix()
    ensures HalfPow(6) == 0.015625
  {
    assert HalfPow(2) == 0.25 && HalfPow(4) == 0.0625;
  }
}
