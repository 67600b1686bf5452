/** Interleaving episodes (`apply_episode_diversity` in `cascade_layers.rs`). */
module Diversity {
  import opened Hits
  import opened Sorting

  /** The part of a key before its first colon, or all of it. */
  function Prefix(key: string): string
  {
    if key == "" || key[0] == ':' then "" else [key[0]] + Prefix(key[1..])
  }

  /** The episode id, with the session prefix of the key standing in for a missing one. */
  function EpisodeOf(h: Hit): string
  {
    if h.episode.Some? then h.episode.value else Prefix(h.key)
  }

  function Seen(hits: seq<Hit>, ep: string): (n: nat)
    ensures n <= |hits|
  {
    if hits == [] then 0
    else Seen(hits[..|hits| - 1], ep) + (if EpisodeOf(hits[|hits| - 1]) == ep then 1 else 0)
  }

  /** The hits among the first cap of their episode. */
  function Kept(hits: seq<Hit>, cap: nat): seq<Hit>
  {
    if hits == [] then []
    else
      var n := |hits| - 1;
      Kept(hits[..n], cap) + (if Seen(hits[..n], EpisodeOf(hits[n])) < cap then [hits[n]] else [])
  }

  /** The rest. */
  function Overflow(hits: seq<Hit>, cap: nat): seq<Hit>
  {
    if hits == [] then []
    else
      var n := |hits| - 1;
      Overflow(hits[..n], cap) + (if Seen(hits[..n], EpisodeOf(hits[n])) < cap then [] else [hits[n]])
  }

  function Diverse(hits: seq<Hit>, cap: nat): seq<Hit>
  {
    if cap == 0 then hits else Kept(hits, cap) + Overflow(hits, cap)
  }

  function CountOf(counts: map<string, nat>, ep: string): nat
  {
    if ep in counts then counts[ep] else 0
  }

  function AtMost(n: nat, cap: nat): nat
  {
    if n <= cap then n else cap
  }

  /** The count map holds, per episode, the hits seen so far, stopping at the cap. */
  ghost predicate Counted(counts: map<string, nat>, hits: seq<Hit>, cap: nat)
  {
    forall ep :: CountOf(counts, ep) == AtMost(Seen(hits, ep), cap)
  }

  method ApplyEpisodeDiversity(hits: HitList, maxPerEpisode: nat)
    modifies hits
    ensures hits.items == Diverse(old(hits.items), maxPerEpisode)
  {
    if hits.items == [] || maxPerEpisode == 0 {
      return;
    }
    var drained := hits.items;
    hits.items := [];
    var result, overflow := Distribute(drained, maxPerEpisode);
    hits.items := result + overflow;
  }

  /** The loop over the drained hits. */
  method Distribute(drained: seq<Hit>, maxPerEpisode: nat) returns (result: seq<Hit>, overflow: seq<Hit>)
    ensures result == Kept(drained, maxPerEpisode) && overflow == Overflow(drained, maxPerEpisode)
  {
    var counts: map<string, nat> := map[];
    result, overflow := [], [];
    assert drained[..0] == [];
    NothingSeen(maxPerEpisode);
    hide Seen, Kept, Overflow, EpisodeOf, Counted;
    for i := 0 to |drained|
      invariant result == Kept(drained[..i], maxPerEpisode)
      invariant overflow == Overflow(drained[..i], maxPerEpisode)
      invariant Counted(counts, drained[..i], maxPerEpisode)
    {
      var hit := drained[i];
      var ep := EpisodeOf(hit);
      var count := CountOf(counts, ep);
      assert drained[..i + 1] == drained[..i] + [hit];
      OneMore(drained[..i], hit, maxPerEpisode, ep);
      CountedStep(counts, drained[..i], hit, maxPerEpisode);
      if count < maxPerEpisode {
        counts := counts[ep := count + 1];
        result := result + [hit];
      } else {
        overflow := overflow + [hit];
      }
    }
    assert drained[..|drained|] == drained;
  }

  lemma CountedStep(counts: map<string, nat>, init: seq<Hit>, h: Hit, cap: nat)
    requires Counted(counts, init, cap)
    ensures var count := CountOf(counts, EpisodeOf(h));
            && (count < cap <==> Seen(init, EpisodeOf(h)) < cap)
            && Counted(if count < cap then counts[EpisodeOf(h) := count + 1] else counts, init + [h], cap)
  {
    hide Seen, EpisodeOf;
    forall ep {
      OneMore(init, h, cap, ep);
    }
    assert CountOf(counts, EpisodeOf(h)) == AtMost(Seen(init, EpisodeOf(h)), cap);
  }

  lemma NothingSeen(cap: nat)
    ensures Kept([], cap) == [] && Overflow([], cap) == []
    ensures Counted(map[], [], cap)
  {
  }

  // ---- what the interleaving keeps

  lemma {:induction false} SeenConcat(a: seq<Hit>, b: seq<Hit>, ep: string)
    ensures Seen(a + b, ep) == Seen(a, ep) + Seen(b, ep)
    decreases |b|
  {
    if b == [] {
      assert a + b == a;
    } else {
      var init := b[..|b| - 1];
      assert (a + b)[..|a + b| - 1] == a + init;
      SeenConcat(a, init, ep);
    }
  }

  /** The hits are permuted: none is lost, none is invented. */
  lemma {:induction false} DiversePermutes(hits: seq<Hit>, cap: nat)
    ensures multiset(Diverse(hits, cap)) == multiset(hits)
    decreases |hits|
  {
    if cap > 0 && hits != [] {
      var n := |hits| - 1;
      DiversePermutes(hits[..n], cap);
      assert hits == hits[..n] + [hits[n]];
    }
  }

  /** One more hit at the end. */
  lemma OneMore(init: seq<Hit>, h: Hit, cap: nat, ep: string)
    ensures var fits := Seen(init, EpisodeOf(h)) < cap;
            && Kept(init + [h], cap) == Kept(init, cap) + (if fits then [h] else [])
            && Overflow(init + [h], cap) == Overflow(init, cap) + (if fits then [] else [h])
    ensures Seen(init + [h], ep) == Seen(init, ep) + (if EpisodeOf(h) == ep then 1 else 0)
  {
    assert (init + [h])[..|init|] == init;
  }

  /** Before all overflow stand exactly min(cap, size) hits of every episode. */
  lemma {:induction false} KeptCounts(hits: seq<Hit>, cap: nat, ep: string)
    ensures Seen(Kept(hits, cap), ep) == AtMost(Seen(hits, ep), cap)
    ensures Seen(Kept(hits, cap), ep) + Seen(Overflow(hits, cap), ep) == Seen(hits, ep)
    decreases |hits|
  {
    if hits != [] {
      hide *;
      var n := |hits| - 1;
      KeptCounts(hits[..n], cap, ep);
      assert hits == hits[..n] + [hits[n]];
      KeptCountsStep(hits[..n], hits[n], cap, ep);
    }
  }

  lemma KeptCountsStep(init: seq<Hit>, h: Hit, cap: nat, ep: string)
    requires Seen(Kept(init, cap), ep) == AtMost(Seen(init, ep), cap)
    requires Seen(Kept(init, cap), ep) + Seen(Overflow(init, cap), ep) == Seen(init, ep)
    ensures Seen(Kept(init + [h], cap), ep) == AtMost(Seen(init + [h], ep), cap)
    ensures Seen(Kept(init + [h], cap), ep) + Seen(Overflow(init + [h], cap), ep) == Seen(init + [h], ep)
  {
    hide Seen, Kept, Overflow, EpisodeOf;
    OneMore(init, h, cap, ep);
    OneMore(Kept(init, cap), h, cap, ep);
    OneMore(Overflow(init, cap), h, cap, ep);
    assert Kept(init, cap) + [] == Kept(init, cap) && Overflow(init, cap) + [] == Overflow(init, cap);
  }

  ghost function InEpisode(ep: string): Hit -> bool
  {
    (h: Hit) => EpisodeOf(h) == ep
  }

  /** Once an episode has overflowed, the rest of it overflows too, so its own order is unchanged. */
  lemma {:induction false} EpisodeSplit(hits: seq<Hit>, cap: nat, ep: string)
    ensures Filter(Kept(hits, cap), InEpisode(ep)) + Filter(Overflow(hits, cap), InEpisode(ep))
         == Filter(hits, InEpisode(ep))
    ensures Seen(hits, ep) <= cap ==> Filter(Overflow(hits, cap), InEpisode(ep)) == []
    decreases |hits|
  {
    hide *;
    if hits == [] {
      EmptySplit(cap, ep);
    } else {
      var n := |hits| - 1;
      EpisodeSplit(hits[..n], cap, ep);
      assert hits == hits[..n] + [hits[n]];
      EpisodeSplitStep(hits[..n], hits[n], cap, ep);
    }
  }

  lemma EmptySplit(cap: nat, ep: string)
    ensures Filter(Kept([], cap), InEpisode(ep)) == [] && Filter([], InEpisode(ep)) == []
    ensures Filter(Overflow([], cap), InEpisode(ep)) == []
  {
  }

  lemma EpisodeSplitStep(init: seq<Hit>, h: Hit, cap: nat, ep: string)
    requires Filter(Kept(init, cap), InEpisode(ep)) + Filter(Overflow(init, cap), InEpisode(ep))
          == Filter(init, InEpisode(ep))
    requires Seen(init, ep) <= cap ==> Filter(Overflow(init, cap), InEpisode(ep)) == []
    ensures Filter(Kept(init + [h], cap), InEpisode(ep)) + Filter(Overflow(init + [h], cap), InEpisode(ep))
         == Filter(init + [h], InEpisode(ep))
    ensures Seen(init + [h], ep) <= cap ==> Filter(Overflow(init + [h], cap), InEpisode(ep)) == []
  {
    hide Seen, Kept, Overflow, Filter, EpisodeOf, InEpisode;
    OneMore(init, h, cap, ep);
    FilterLast(h, ep);
    FilterConcat(init, [h], InEpisode(ep));
    FilterConcat(Kept(init, cap), [h], InEpisode(ep));
    FilterConcat(Overflow(init, cap), [h], InEpisode(ep));
    assert Kept(init, cap) + [] == Kept(init, cap) && Overflow(init, cap) + [] == Overflow(init, cap);
  }

  lemma FilterLast(h: Hit, ep: string)
    ensures Filter([h], InEpisode(ep)) == if EpisodeOf(h) == ep then [h] else []
  {
    assert [h][1..] == [];
  }

  /** Main result: within every episode the hits keep their relative order. */
  lemma EpisodeOrderKept(hits: seq<Hit>, cap: nat, ep: string)
    ensures Filter(Diverse(hits, cap), InEpisode(ep)) == Filter(hits, InEpisode(ep))
  {
    if cap > 0 {
      EpisodeSplit(hits, cap, ep);
      FilterConcat(Kept(hits, cap), Overflow(hits, cap), InEpisode(ep));
    }
  }

  /** Appending hits whose episodes are already full leaves what was kept. */
  lemma {:induction false} FullEpisodesOverflow(a: seq<Hit>, b: seq<Hit>, cap: nat)
    requires forall h :: h in b ==> Seen(a, EpisodeOf(h)) >= cap
    ensures Kept(a + b, cap) == Kept(a, cap) && Overflow(a + b, cap) == Overflow(a, cap) + b
    decreases |b|
  {
    if b == [] {
      assert a + b == a;
    } else {
      var n := |b| - 1;
      var init := b[..n];
      assert b == init + [b[n]];
      assert (a + b)[..|a + b| - 1] == a + init;
      FullEpisodesOverflow(a, init, cap);
      SeenConcat(a, init, EpisodeOf(b[n]));
    }
  }

  /** A list with at most cap hits per episode is kept whole. */
  lemma {:induction false} SparseListKept(a: seq<Hit>, cap: nat)
    requires forall ep :: Seen(a, ep) <= cap
    ensures Kept(a, cap) == a && Overflow(a, cap) == []
    decreases |a|
  {
    if a != [] {
      hide Seen, Kept, Overflow;
      var n := |a| - 1;
      var init, h := a[..n], a[n];
      assert a == init + [h];
      forall ep ensures Seen(init, ep) <= cap {
        assert Seen(a, ep) <= cap;
        OneMore(init, h, cap, ep);
      }
      SparseListKept(init, cap);
      assert Seen(a, EpisodeOf(h)) <= cap;
      OneMore(init, h, cap, EpisodeOf(h));
    }
  }

  lemma {:induction false} OverflowEpisodesFull(hits: seq<Hit>, cap: nat, h: Hit)
    requires h in Overflow(hits, cap)
    ensures Seen(hits, EpisodeOf(h)) >= cap
    decreases |hits|
  {
    var n := |hits| - 1;
    if h in Overflow(hits[..n], cap) {
      OverflowEpisodesFull(hits[..n], cap, h);
    }
  }

  /** Main result: applying it again changes nothing. */
  lemma DiverseIdempotent(hits: seq<Hit>, cap: nat)
    ensures Diverse(Diverse(hits, cap), cap) == Diverse(hits, cap)
  {
    hide Seen, Kept, Overflow;
    if cap > 0 {
      var k, o := Kept(hits, cap), Overflow(hits, cap);
      forall ep ensures Seen(k, ep) <= cap {
        KeptCounts(hits, cap, ep);
      }
      forall h | h in o ensures Seen(k, EpisodeOf(h)) >= cap {
        OverflowEpisodesFull(hits, cap, h);
        KeptCounts(hits, cap, EpisodeOf(h));
      }
      SparseListKept(k, cap);
      FullEpisodesOverflow(k, o, cap);
    }
  }

  // ---- which hits are kept, by position

  /** A missing episode id is replaced by what stands before the first colon of the key, or by the whole key
      if it has none. */
  lemma EpisodeMeans(h: Hit, p: string, rest: string)
    requires forall i :: 0 <= i < |p| ==> p[i] != ':'
    ensures h.episode.Some? ==> EpisodeOf(h) == h.episode.value
    ensures h.episode.None? && (h.key == p + ":" + rest || h.key == p) ==> EpisodeOf(h) == p
  {
    PrefixMeans(p, rest);
  }

  lemma {:induction false} PrefixMeans(p: string, rest: string)
    requires forall i :: 0 <= i < |p| ==> p[i] != ':'
    ensures Prefix(p + ":" + rest) == p && Prefix(p) == p
  {
    if p == "" {
      assert (p + ":" + rest)[0] == ':';
    } else {
      PrefixMeans(p[1..], rest);
      assert (p + ":" + rest)[1..] == p[1..] + ":" + rest;
      assert p == [p[0]] + p[1..];
    }
  }

  /** The earlier hits of the same episode. */
  ghost function EarlierInEpisode(hits: seq<Hit>, i: nat): set<nat>
    requires i < |hits|
  {
    set k | 0 <= k < i && EpisodeOf(hits[k]) == EpisodeOf(hits[i])
  }

  lemma {:induction false} SeenIsSet(hits: seq<Hit>, ep: string, places: set<nat>)
    requires forall k :: k in places <==> 0 <= k < |hits| && EpisodeOf(hits[k]) == ep
    ensures Seen(hits, ep) == |places|
    decreases |hits|
  {
    hide EpisodeOf;
    if hits == [] {
      assert places == {};
    } else {
      var n := |hits| - 1;
      SeenIsSet(hits[..n], ep, places - {n});
    }
  }

  /** Positions of the hits among the first cap of their episode, or of the others, in order. */
  ghost predicate Places(hits: seq<Hit>, cap: nat, kept: bool, places: seq<nat>)
  {
    && (forall j, k :: 0 <= j < k < |places| ==> places[j] < places[k])
    && forall i: nat :: i in places <==> i < |hits| && (|EarlierInEpisode(hits, i)| < cap <==> kept)
  }

  ghost predicate Lists(hits: seq<Hit>, places: seq<nat>, r: seq<Hit>)
  {
    |r| == |places| && forall k :: 0 <= k < |places| ==> places[k] < |hits| && r[k] == hits[places[k]]
  }

  lemma {:induction false} PlacesOf(hits: seq<Hit>, cap: nat) returns (kept: seq<nat>, over: seq<nat>)
    ensures Places(hits, cap, true, kept) && Lists(hits, kept, Kept(hits, cap))
    ensures Places(hits, cap, false, over) && Lists(hits, over, Overflow(hits, cap))
    decreases |hits|
  {
    hide *;
    kept, over := [], [];
    if hits == [] {
      NoPlaces(cap);
    } else {
      var n := |hits| - 1;
      var init, h := hits[..n], hits[n];
      assert hits == init + [h];
      kept, over := PlacesOf(init, cap);
      OneMore(init, h, cap, "");
      FitsBySet(init, h);
      PlacesLonger(init, h, cap, true, kept);
      PlacesLonger(init, h, cap, false, over);
      ListsLonger(init, h, kept, Kept(init, cap));
      ListsLonger(init, h, over, Overflow(init, cap));
      if Seen(init, EpisodeOf(h)) < cap {
        kept := kept + [n];
      } else {
        over := over + [n];
      }
      assert Overflow(init, cap) + [] == Overflow(init, cap) && Kept(init, cap) + [] == Kept(init, cap);
    }
  }

  lemma NoPlaces(cap: nat)
    ensures Places([], cap, true, []) && Lists([], [], Kept([], cap))
    ensures Places([], cap, false, []) && Lists([], [], Overflow([], cap))
  {
  }

  lemma FitsBySet(init: seq<Hit>, h: Hit)
    ensures |EarlierInEpisode(init + [h], |init|)| == Seen(init, EpisodeOf(h))
  {
    hide EpisodeOf;
    assert forall k :: 0 <= k < |init| ==> (init + [h])[k] == init[k];
    SeenIsSet(init, EpisodeOf(h), EarlierInEpisode(init + [h], |init|));
  }

  lemma PlacesLonger(init: seq<Hit>, h: Hit, cap: nat, kept: bool, places: seq<nat>)
    requires Places(init, cap, kept, places)
    ensures Places(init + [h], cap, kept,
                   if |EarlierInEpisode(init + [h], |init|)| < cap <==> kept then places + [|init|] else places)
  {
    var hits, n := init + [h], |init|;
    var more := if |EarlierInEpisode(hits, n)| < cap <==> kept then places + [n] else places;
    forall i: nat | i < n ensures EarlierInEpisode(hits, i) == EarlierInEpisode(init, i) {
      assert hits[i] == init[i] && forall k :: 0 <= k < i ==> hits[k] == init[k];
    }
    hide EarlierInEpisode;
    forall k | 0 <= k < |places| ensures places[k] < n {
      assert places[k] in places;
    }
    forall i: nat ensures i in more <==> i < |hits| && (|EarlierInEpisode(hits, i)| < cap <==> kept) {
      assert i in more <==> i in places || (|more| > |places| && i == n);
    }
  }

  lemma ListsLonger(init: seq<Hit>, h: Hit, places: seq<nat>, r: seq<Hit>)
    requires Lists(init, places, r)
    ensures Lists(init + [h], places, r) && Lists(init + [h], places + [|init|], r + [h])
  {
  }

  /** Main result for the list: it is the hits that have fewer than cap earlier ones of their episode, in
      their order, and then the others, in theirs; with a cap of zero it is left alone. */
  lemma DiverseIs(hits: seq<Hit>, cap: nat)
    ensures cap == 0 ==> Diverse(hits, cap) == hits
    ensures cap > 0 ==>
              exists kept, over ::
                && Places(hits, cap, true, kept) && Places(hits, cap, false, over)
                && Lists(hits, kept + over, Diverse(hits, cap))
  {
    if cap > 0 {
      hide Kept, Overflow, Places, Lists;
      var kept, over := PlacesOf(hits, cap);
      ListsJoin(hits, kept, over, Kept(hits, cap), Overflow(hits, cap));
    }
  }

  lemma ListsJoin(hits: seq<Hit>, places: seq<nat>, more: seq<nat>, r: seq<Hit>, t: seq<Hit>)
    requires Lists(hits, places, r) && Lists(hits, more, t)
    ensures Lists(hits, places + more, r + t)
  {
  }
}
