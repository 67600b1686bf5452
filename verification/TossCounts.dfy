/** The p-value of the paired test as a share of outcomes: of all ways the discordant pairs could have
    fallen, those at least as lopsided as observed. */
module TossCounts {
  import opened Binomial
  import opened McNemar

  /** How many of the tosses came up heads. */
  ghost function Heads(s: seq<bool>): nat
  {
    if s == [] then 0 else (if s[0] then 1 else 0) + Heads(s[1..])
  }

  ghost function After(b: bool, all: set<seq<bool>>): set<seq<bool>>
  {
    set s | s in all :: [b] + s
  }

  lemma AfterHas(b: bool, all: set<seq<bool>>, s: seq<bool>)
    ensures s in After(b, all) <==> s != [] && s[0] == b && s[1..] in all
  {
    if s != [] && s[0] == b && s[1..] in all {
      assert s == [b] + s[1..];
    }
  }

  lemma {:induction false} AfterSize(b: bool, all: set<seq<bool>>)
    ensures |After(b, all)| == |all|
    decreases |all|
  {
    if all == {} {
      assert After(b, all) == {};
    } else {
      var s :| s in all;
      AfterSize(b, all - {s});
      forall t ensures t in After(b, all) - {[b] + s} <==> t in After(b, all - {s}) {
        AfterHas(b, all, t);
        AfterHas(b, all - {s}, t);
        assert t != [] && t[0] == b && t[1..] == s ==> t == [b] + s;
      }
      assert After(b, all) - {[b] + s} == After(b, all - {s});
    }
  }

  lemma AfterApart(x: set<seq<bool>>, y: set<seq<bool>>)
    ensures After(false, x) !! After(true, y)
  {
    forall s | s in After(false, x) ensures s !in After(true, y) {
      AfterHas(false, x, s);
      AfterHas(true, y, s);
    }
  }

  /** The outcomes of n tosses with exactly k heads. */
  ghost function WithHeads(n: nat, k: nat): set<seq<bool>>
  {
    if n == 0 then (if k == 0 then {[]} else {})
    else After(false, WithHeads(n - 1, k)) + (if k == 0 then {} else After(true, WithHeads(n - 1, k - 1)))
  }

  lemma {:induction false} WithHeadsAre(n: nat, k: nat, s: seq<bool>)
    ensures s in WithHeads(n, k) <==> |s| == n && Heads(s) == k
    decreases n
  {
    if n > 0 {
      AfterHas(false, WithHeads(n - 1, k), s);
      if k > 0 {
        AfterHas(true, WithHeads(n - 1, k - 1), s);
      }
      if s != [] {
        WithHeadsAre(n - 1, k, s[1..]);
        if k > 0 {
          WithHeadsAre(n - 1, k - 1, s[1..]);
        }
      }
    }
  }

  /** The binomial coefficients count them. */
  lemma {:induction false} ChooseCounts(n: nat, k: nat)
    ensures |WithHeads(n, k)| == Choose(n, k)
    decreases n
  {
    hide *;
    if n == 0 {
      NoTosses(k);
    } else if k == 0 {
      WithHeadsStep(n, k);
      ChooseStep(n, k);
      ChooseCounts(n - 1, k);
      AfterSize(false, WithHeads(n - 1, k));
    } else {
      WithHeadsStep(n, k);
      ChooseStep(n, k);
      ChooseCounts(n - 1, k);
      ChooseCounts(n - 1, k - 1);
      BothSize(WithHeads(n - 1, k), WithHeads(n - 1, k - 1));
    }
  }

  lemma BothSize(x: set<seq<bool>>, y: set<seq<bool>>)
    ensures |After(false, x) + After(true, y)| == |x| + |y|
  {
    hide After;
    AfterSize(false, x);
    AfterSize(true, y);
    AfterApart(x, y);
  }

  lemma NoTosses(k: nat)
    ensures |WithHeads(0, k)| == Choose(0, k)
  {
  }

  lemma ChooseStep(n: nat, k: nat)
    requires n > 0
    ensures Choose(n, k) == Choose(n - 1, k) + (if k == 0 then 0 else Choose(n - 1, k - 1))
  {
  }

  lemma WithHeadsStep(n: nat, k: nat)
    requires n > 0
    ensures k == 0 ==> WithHeads(n, k) == After(false, WithHeads(n - 1, k))
    ensures k > 0 ==> WithHeads(n, k) == After(false, WithHeads(n - 1, k)) + After(true, WithHeads(n - 1, k - 1))
  {
    hide After;
  }

  /** At most k heads. */
  ghost predicate FewHeads(n: nat, k: nat, few: set<seq<bool>>)
  {
    forall s :: s in few <==> |s| == n && Heads(s) <= k
  }

  lemma {:induction false} PowersCancel(n: nat)
    ensures HalfPow(n) * TwoToThe(n) as real == 1.0
  {
    if n > 0 {
      PowersCancel(n - 1);
      assert HalfPow(n) * TwoToThe(n) as real == HalfPow(n - 1) / 2.0 * (2.0 * TwoToThe(n - 1) as real);
    }
  }

  lemma MassCounts(n: nat, k: nat)
    ensures Mass(n, k) * TwoToThe(n) as real == |WithHeads(n, k)| as real
  {
    ChooseCounts(n, k);
    PowersCancel(n);
    hide Choose, HalfPow, TwoToThe, WithHeads;
    Regroup(Choose(n, k) as real, HalfPow(n), TwoToThe(n) as real);
  }

  lemma Regroup(c: real, h: real, t: real)
    requires h * t == 1.0
    ensures c * h * t == c
  {
    assert c * h * t == c * (h * t);
  }

  lemma {:induction false} TailCounts(n: nat, k: nat, few: set<seq<bool>>)
    requires FewHeads(n, k, few)
    ensures LowerTail(n, k) * TwoToThe(n) as real == |few| as real
    decreases k
  {
    hide Mass, TwoToThe, WithHeads;
    MassCounts(n, k);
    forall s ensures s in WithHeads(n, k) <==> |s| == n && Heads(s) == k {
      WithHeadsAre(n, k, s);
    }
    if k == 0 {
      assert few == WithHeads(n, 0);
    } else {
      var fewer := few - WithHeads(n, k);
      TailCounts(n, k - 1, fewer);
      assert few == fewer + WithHeads(n, k);
    }
  }

  /** Main result: with n discordant pairs, k of them the rarer way, 2^n times the p-value is twice the
      number of ways in which n tosses give at most k heads, cut at 2^n. */
  lemma PValueCounts(n: nat, k: nat, few: set<seq<bool>>)
    requires k <= n && FewHeads(n, k, few)
    ensures DoubledTail(n, k) * TwoToThe(n) as real == Min(2.0 * |few| as real, TwoToThe(n) as real)
  {
    hide *;
    TailCounts(n, k, few);
    TwoToTheGrows(n);
    TailWithin(n, k);
    Cut(LowerTail(n, k), TwoToThe(n) as real, |few| as real);
  }

  lemma TailWithin(n: nat, k: nat)
    requires k <= n
    ensures DoubledTail(n, k) == Min(1.0, 2.0 * LowerTail(n, k))
  {
    hide LowerTail;
  }

  lemma {:induction false} TwoToTheGrows(n: nat)
    ensures TwoToThe(n) >= 1
  {
    if n > 0 {
      TwoToTheGrows(n - 1);
    }
  }

  lemma Cut(tail: real, total: real, few: real)
    requires total >= 1.0 && tail * total == few
    ensures Min(1.0, 2.0 * tail) * total == Min(2.0 * few, total)
  {
    Twice(tail, total);
    Scaled(2.0 * tail, total);
  }

  lemma Twice(x: real, y: real)
    ensures 2.0 * x * y == 2.0 * (x * y)
  {
  }

  lemma Scaled(x: real, total: real)
    requires total >= 1.0
    ensures x <= 1.0 <==> x * total <= total
  {
    if x > 1.0 {
      Positive(x - 1.0, total);
    } else {
      assert (1.0 - x) * total >= 0.0;
    }
  }

  lemma Positive(x: real, y: real)
    requires x > 0.0 && y > 0.0
    ensures x * y > 0.0
  {
  }
}
