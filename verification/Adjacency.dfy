/** Emitting the dialogue neighbours of the retrieved turns (`apply_turn_adjacency` in `retrieval.rs`). */
module Adjacency {
  import opened Hits
  import opened Keys
  import opened Options
  import opened Orders
  import opened Sorting

  /** Lookup by key; errors and misses are both None. */
  type Store = string -> Option<Hit>

  const ROLES: seq<string> := ["user", "assistant"]

  /** Signed 64-bit addition as a release build performs it. */
  function Wrap(x: int): int
  {
    if x > I64_MAX then x - 0x1_0000_0000_0000_0000
    else if x < I64_MIN then x + 0x1_0000_0000_0000_0000
    else x
  }

  function HitKeys(hits: seq<Hit>): set<string>
  {
    set h | h in hits :: h.key
  }

  /** k is the key of the turn d places from the one that key names, in the j-th role. */
  ghost predicate NeighbourAt(key: string, radius: int, d: int, j: int, k: string)
  {
    var p := ParseKey(key);
    && p.Some?
    && -radius <= d <= radius && d != 0 && 0 <= j < |ROLES|
    && Wrap(p.value.1 + d) >= 0
    && k == TurnKey(p.value.0, Wrap(p.value.1 + d), ROLES[j])
  }

  /** k is the key of a turn, of either role, within the radius of the turn that key names. */
  ghost predicate NeighbourOf(key: string, radius: int, k: string)
  {
    exists d, j :: NeighbourAt(key, radius, d, j, k)
  }

  ghost predicate Wanted(store: Store, present: set<string>, radius: int, keys: set<string>, k: string)
  {
    k !in present && store(k).Some? && exists key :: key in keys && NeighbourOf(key, radius, k)
  }

  /** The hits added so far: one per wanted key of the processed hits. */
  ghost predicate Gathered(store: Store, present: set<string>, radius: int, keys: set<string>, added: seq<Hit>,
                           seen: set<string>)
  {
    && (forall k :: k in seen <==> k in present || Wanted(store, present, radius, keys, k))
    && (forall h :: h in added ==> store(h.key) == Some(h) && h.key !in present && h.key in seen)
    && (forall i, j :: 0 <= i < j < |added| ==> added[i].key != added[j].key)
    && (forall k :: k in seen && k !in present ==> exists h :: h in added && h.key == k)
  }

  predicate KeyLe(a: Hit, b: Hit)
  {
    LexLe(a.key, b.key)
  }

  predicate KeyLt(a: Hit, b: Hit)
  {
    LexLe(a.key, b.key) && a.key != b.key
  }

  /** What the step must emit: the original hits, then every stored neighbour not already present,
      once, in key order. */
  ghost predicate IsEmission(store: Store, hits: seq<Hit>, radius: int, r: seq<Hit>)
  {
    && |r| >= |hits| && r[..|hits|] == hits
    && Ascending(r[|hits|..], KeyLt)
    && forall h :: h in r[|hits|..] <==>
         store(h.key) == Some(h) && Wanted(store, HitKeys(hits), radius, HitKeys(hits), h.key)
  }

  lemma KeyOrder()
    ensures TotalPreorder(KeyLe)
    ensures forall a: Hit, b: Hit :: KeyLe(a, b) && KeyLe(b, a) ==> a.key == b.key
  {
    LexOrder();
  }

  /** Main result: there is only one emission, so the order in which the hash set of keys is walked
      cannot be seen in the output. */
  lemma EmissionUnique(store: Store, hits: seq<Hit>, radius: int, r: seq<Hit>, r': seq<Hit>)
    requires IsEmission(store, hits, radius, r) && IsEmission(store, hits, radius, r')
    ensures r == r'
  {
    KeyOrder();
    hide Wanted, LexLe;
    var a, b := r[|hits|..], r'[|hits|..];
    AscendingUnique(a, b, KeyLt);
    assert r == r[..|hits|] + a && r' == r'[..|hits|] + b;
  }

  /** The step. The keys are taken from the set in an arbitrary order. */
  method ApplyTurnAdjacency(store: Store, hits: HitList, radius: int)
    requires 1 <= radius <= 10
    requires forall k :: store(k).Some? ==> store(k).value.key == k
    modifies hits
    ensures IsEmission(store, old(hits.items), radius, hits.items)
  {
    var present := HitKeys(hits.items);
    var added, seen := Gather(store, present, radius);
    SortedEmission(store, hits.items, radius, added, seen);
    added := SortBy(added, KeyLe);
    hits.items := hits.items + added;
  }

  /** The loop over the set of keys. */
  method Gather(store: Store, present: set<string>, radius: int) returns (added: seq<Hit>, seen: set<string>)
    requires 1 <= radius <= 10
    requires forall k :: store(k).Some? ==> store(k).value.key == k
    ensures Gathered(store, present, radius, present, added, seen)
  {
    seen, added := present, [];
    var rest := present;
    ghost var done: set<string> := {};
    while rest != {}
      invariant done + rest == present && done !! rest
      invariant Gathered(store, present, radius, done, added, seen)
      decreases |rest|
    {
      hide Gathered;
      var key :| key in rest;
      rest := rest - {key};
      added, seen := AddNeighbours(store, present, radius, key, done, added, seen);
      done := done + {key};
    }
    assert done == present;
  }

  lemma SortedEmission(store: Store, hits: seq<Hit>, radius: int, added: seq<Hit>, seen: set<string>)
    requires Gathered(store, HitKeys(hits), radius, HitKeys(hits), added, seen)
    ensures IsEmission(store, hits, radius, hits + SortBy(added, KeyLe))
  {
    var sorted := SortBy(added, KeyLe);
    var r := hits + sorted;
    KeyOrder();
    SortBySorts(added, KeyLe);
    UntiedPermuted(added, sorted, KeyLe);
    hide SortBy, Wanted, LexLe;
    assert r[|hits|..] == sorted;
    forall h
      ensures h in sorted <==> store(h.key) == Some(h) && Wanted(store, HitKeys(hits), radius, HitKeys(hits), h.key)
    {
      assert h in sorted <==> h in multiset(sorted);
      assert h in added <==> h in multiset(added);
    }
  }

  /** One hit's neighbours: offsets outward from -radius to radius, both roles. */
  method AddNeighbours(store: Store, present: set<string>, radius: int, key: string,
                       ghost done: set<string>, added: seq<Hit>, seen: set<string>)
    returns (added': seq<Hit>, seen': set<string>)
    requires 1 <= radius <= 10
    requires forall k :: store(k).Some? ==> store(k).value.key == k
    requires Gathered(store, present, radius, done, added, seen)
    ensures Gathered(store, present, radius, done + {key}, added', seen')
  {
    hide *;
    added', seen' := added, seen;
    var parsed := ParseKey(key);
    if parsed.None? {
      NothingParsed(store, present, radius, key, done, added, seen);
      return;
    }
    var session, idx := parsed.value.0, parsed.value.1;
    var d := -radius;
    StartTrying(store, present, radius, key, done, added, seen);
    while d <= radius
      invariant -radius <= d <= radius + 1
      invariant Trying(store, present, radius, key, done, d, 0, added', seen')
    {
      var n := Wrap(idx + d);
      if d == 0 || n < 0 {
        NothingAt(store, present, radius, key, done, d, added', seen');
      } else {
        added', seen' := TryRoles(store, present, radius, key, done, d, session, n, added', seen');
      }
      d := d + 1;
    }
    AllTried(store, present, radius, key, done, added', seen');
  }

  /** The innermost loop: the turn at offset d, once per role. */
  method TryRoles(store: Store, ghost present: set<string>, ghost radius: int, ghost key: string,
                  ghost done: set<string>, ghost d: int, session: string, n: int,
                  added: seq<Hit>, seen: set<string>)
    returns (added': seq<Hit>, seen': set<string>)
    requires forall k :: store(k).Some? ==> store(k).value.key == k
    requires -radius <= d <= radius && d != 0 && n >= 0
    requires ParseKey(key).Some? && session == ParseKey(key).value.0 && n == Wrap(ParseKey(key).value.1 + d)
    requires Trying(store, present, radius, key, done, d, 0, added, seen)
    ensures Trying(store, present, radius, key, done, d + 1, 0, added', seen')
  {
    hide *;
    added', seen' := added, seen;
    var i := 0;
    while i < |ROLES|
      invariant 0 <= i <= |ROLES|
      invariant Trying(store, present, radius, key, done, d, i, added', seen')
    {
      var nkey := TurnKey(session, n, ROLES[i]);
      TryKey(store, present, radius, key, done, d, i, added', seen');
      if nkey !in seen' {
        var m := store(nkey);
        if m.Some? {
          seen' := seen' + {nkey};
          added' := added' + [m.value];
        }
      }
      i := i + 1;
    }
    RolesDone(store, present, radius, key, done, d, added', seen');
  }

  lemma NothingParsed(store: Store, present: set<string>, radius: int, key: string, done: set<string>,
                      added: seq<Hit>, seen: set<string>)
    requires ParseKey(key).None? && Gathered(store, present, radius, done, added, seen)
    ensures Gathered(store, present, radius, done + {key}, added, seen)
  {
    assert forall k :: Wanted(store, present, radius, done + {key}, k) <==> Wanted(store, present, radius, done, k);
  }

  /** k is a neighbour of key at an offset before d, or at d with one of the first i roles. */
  ghost predicate Before(key: string, radius: int, d: int, i: int, k: string)
  {
    exists e, j :: NeighbourAt(key, radius, e, j, k) && (e < d || (e == d && j < i))
  }

  ghost predicate WantedSoFar(store: Store, present: set<string>, radius: int, key: string, done: set<string>,
                              d: int, i: int, k: string)
  {
    k !in present && store(k).Some?
    && (Before(key, radius, d, i, k) || exists q :: q in done && NeighbourOf(q, radius, k))
  }

  ghost predicate Trying(store: Store, present: set<string>, radius: int, key: string, done: set<string>, d: int,
                         i: int,
                         added: seq<Hit>, seen: set<string>)
  {
    && (forall k :: k in seen <==> k in present || WantedSoFar(store, present, radius, key, done, d, i, k))
    && (forall h :: h in added ==> store(h.key) == Some(h) && h.key !in present && h.key in seen)
    && (forall i, j :: 0 <= i < j < |added| ==> added[i].key != added[j].key)
    && (forall k :: k in seen && k !in present ==> exists h :: h in added && h.key == k)
  }

  lemma StartTrying(store: Store, present: set<string>, radius: int, key: string, done: set<string>, added: seq<Hit>,
                    seen: set<string>)
    requires Gathered(store, present, radius, done, added, seen)
    ensures Trying(store, present, radius, key, done, -radius, 0, added, seen)
  {
    hide NeighbourOf;
    forall k
      ensures WantedSoFar(store, present, radius, key, done, -radius, 0, k) <==> Wanted(store, present, radius, done, k)
    {
    }
  }

  lemma NothingAt(store: Store, present: set<string>, radius: int, key: string, done: set<string>, d: int,
                  added: seq<Hit>, seen: set<string>)
    requires ParseKey(key).Some? && (d == 0 || Wrap(ParseKey(key).value.1 + d) < 0)
    requires Trying(store, present, radius, key, done, d, 0, added, seen)
    ensures Trying(store, present, radius, key, done, d + 1, 0, added, seen)
  {
    forall k ensures Before(key, radius, d + 1, 0, k) <==> Before(key, radius, d, 0, k) {
      forall j ensures !NeighbourAt(key, radius, d, j, k) {
      }
      hide NeighbourAt;
    }
    hide Before, NeighbourOf;
  }

  lemma RolesDone(store: Store, present: set<string>, radius: int, key: string, done: set<string>, d: int,
                  added: seq<Hit>, seen: set<string>)
    requires Trying(store, present, radius, key, done, d, |ROLES|, added, seen)
    ensures Trying(store, present, radius, key, done, d + 1, 0, added, seen)
  {
    forall k ensures Before(key, radius, d + 1, 0, k) <==> Before(key, radius, d, |ROLES|, k) {
      forall j ensures NeighbourAt(key, radius, d, j, k) ==> j < |ROLES| {
      }
      hide NeighbourAt;
    }
    hide Before, NeighbourOf;
  }

  lemma BeforeStep(radius: int, key: string, d: int, i: int, k: string)
    requires ParseKey(key).Some? && -radius <= d <= radius && d != 0 && 0 <= i < |ROLES|
    requires Wrap(ParseKey(key).value.1 + d) >= 0
    ensures Before(key, radius, d, i + 1, k) <==>
              || Before(key, radius, d, i, k)
              || k == TurnKey(ParseKey(key).value.0, Wrap(ParseKey(key).value.1 + d), ROLES[i])
  {
    hide ParseKey, TurnKey, Wrap;
    assert NeighbourAt(key, radius, d, i, k)
      <==> k == TurnKey(ParseKey(key).value.0, Wrap(ParseKey(key).value.1 + d), ROLES[i]);
    hide NeighbourAt;
    if Before(key, radius, d, i + 1, k) {
      var e, j :| NeighbourAt(key, radius, e, j, k) && (e < d || (e == d && j < i + 1));
      if e == d && j == i {
        assert NeighbourAt(key, radius, d, i, k);
      } else {
        assert e < d || (e == d && j < i);
      }
    }
    if Before(key, radius, d, i, k) {
      var e, j :| NeighbourAt(key, radius, e, j, k) && (e < d || (e == d && j < i));
      assert e < d || (e == d && j < i + 1);
    }
  }

  lemma TryKey(store: Store, present: set<string>, radius: int, key: string, done: set<string>, d: int, i: int,
               added: seq<Hit>, seen: set<string>)
    requires forall k :: store(k).Some? ==> store(k).value.key == k
    requires ParseKey(key).Some? && -radius <= d <= radius && d != 0 && 0 <= i < |ROLES|
    requires Wrap(ParseKey(key).value.1 + d) >= 0
    requires Trying(store, present, radius, key, done, d, i, added, seen)
    ensures var nkey := TurnKey(ParseKey(key).value.0, Wrap(ParseKey(key).value.1 + d), ROLES[i]);
            if nkey !in seen && store(nkey).Some? then
              Trying(store, present, radius, key, done, d, i + 1, added + [store(nkey).value], seen + {nkey})
            else Trying(store, present, radius, key, done, d, i + 1, added, seen)
  {
    var nkey := TurnKey(ParseKey(key).value.0, Wrap(ParseKey(key).value.1 + d), ROLES[i]);
    forall k ensures Before(key, radius, d, i + 1, k) <==> Before(key, radius, d, i, k) || k == nkey {
      BeforeStep(radius, key, d, i, k);
    }
    hide Before, NeighbourOf, ParseKey, TurnKey, Wrap;
    if nkey !in seen && store(nkey).Some? {
      var m := store(nkey).value;
      var more := added + [m];
      forall k | k in seen + {nkey} && k !in present ensures exists h :: h in more && h.key == k {
        if k == nkey {
          assert m in more;
        } else {
          var h :| h in added && h.key == k;
          assert h in more;
        }
      }
      forall j | 0 <= j < |added| ensures added[j].key != nkey {
        assert added[j] in added;
      }
    }
  }

  lemma AllTried(store: Store, present: set<string>, radius: int, key: string, done: set<string>, added: seq<Hit>,
                 seen: set<string>)
    requires Trying(store, present, radius, key, done, radius + 1, 0, added, seen)
    ensures Gathered(store, present, radius, done + {key}, added, seen)
  {
    forall k ensures Before(key, radius, radius + 1, 0, k) <==> NeighbourOf(key, radius, k) {
    }
    hide Before, NeighbourOf;
    forall k ensures WantedSoFar(store, present, radius, key, done, radius + 1, 0, k)
                     <==> Wanted(store, present, radius, done + {key}, k)
    {
    }
  }

  /** On keys printed by memory_key for a colon-free session, the neighbours are the printed keys of the
      turns of the same session, of either role, at distance 1 to radius; the 64-bit addition cannot
      wrap for indices an ingested session can have. */
  lemma NeighboursOfPrintedKey(session: string, turn: nat, role: string, radius: int, k: string)
    requires ColonFree(session) && 1 <= radius <= 10 && turn <= I64_MAX - 10
    ensures NeighbourOf(MemoryKey(PerTurn, session, turn, role), radius, k)
            <==> exists n: nat, other :: other in ROLES && n != turn && -radius <= n - turn <= radius
                   && k == MemoryKey(PerTurn, session, n, other)
  {
    var key := MemoryKey(PerTurn, session, turn, role);
    KeyRoundTrip(PerTurn, session, turn, role);
    hide ParseKey, TurnKey;
    if NeighbourOf(key, radius, k) {
      var d, j :| NeighbourAt(key, radius, d, j, k);
      var n: nat := Wrap(turn + d);
      assert n == turn + d && ROLES[j] in ROLES;
      assert k == MemoryKey(PerTurn, session, n, ROLES[j]);
    }
    if n: nat, other :| other in ROLES && n != turn && -radius <= n - turn <= radius
                        && k == MemoryKey(PerTurn, session, n, other)
    {
      var d := n - turn;
      var j :| 0 <= j < |ROLES| && ROLES[j] == other;
      assert Wrap(turn + d) == n;
      assert NeighbourAt(key, radius, d, j, k);
    }
  }

  /** Session keys have no neighbours. */
  lemma SessionKeysHaveNoNeighbours(session: string, turn: nat, role: string, radius: int, k: string)
    requires ColonFree(session)
    ensures !NeighbourOf(MemoryKey(PerSession, session, turn, role), radius, k)
  {
    KeyRoundTrip(PerSession, session, turn, role);
  }

  /** k names a turn of the session, said by either side, that stands within the radius of the given one. */
  ghost predicate NearTurn(session: string, turn: nat, radius: int, k: string)
  {
    exists n: nat, role ::
      && n != turn && -radius <= n - turn <= radius && (role == "user" || role == "assistant")
      && k == session + ":turn:" + Decimal(n) + ":" + role
  }

  lemma NearTurnIsNeighbour(session: string, turn: nat, role: string, radius: int, k: string)
    requires ColonFree(session) && 1 <= radius <= 10 && turn <= I64_MAX - 10
    ensures NeighbourOf(MemoryKey(PerTurn, session, turn, role), radius, k) <==> NearTurn(session, turn, radius, k)
  {
    NeighboursOfPrintedKey(session, turn, role, radius, k);
    hide NeighbourOf, MemoryKey, Decimal;
    assert forall other :: other in ROLES <==> other == "user" || other == "assistant";
    forall n, other ensures MemoryKey(PerTurn, session, n, other) == session + ":turn:" + Decimal(n) + ":" + other {
      KeyText(session, n, other);
    }
    hide *;
    if NearTurn(session, turn, radius, k) {
      NearTurnWitness(session, turn, radius, k);
    }
    if n: nat, other :| (other == "user" || other == "assistant") && n != turn && -radius <= n - turn <= radius
                        && k == MemoryKey(PerTurn, session, n, other)
    {
      TurnIsNear(session, turn, radius, k, n, other);
    }
  }

  lemma NearTurnWitness(session: string, turn: nat, radius: int, k: string)
    requires NearTurn(session, turn, radius, k)
    ensures exists n: nat, other ::
              && (other == "user" || other == "assistant") && n != turn && -radius <= n - turn <= radius
              && k == session + ":turn:" + Decimal(n) + ":" + other
  {
  }

  lemma TurnIsNear(session: string, turn: nat, radius: int, k: string, n: nat, other: string)
    requires (other == "user" || other == "assistant") && n != turn && -radius <= n - turn <= radius
    requires k == session + ":turn:" + Decimal(n) + ":" + other
    ensures NearTurn(session, turn, radius, k)
  {
  }

  /** Main result in plain terms, for hits that are turns: after the hits come, each once and in key order,
      exactly the stored turns of a hit's session within the radius of its turn, said by either side, whose
      keys no hit has. */
  lemma EmittedTurns(store: Store, hits: seq<Hit>, radius: int, r: seq<Hit>, sessions: seq<string>, turns: seq<nat>,
                     roles: seq<string>, h: Hit)
    requires IsEmission(store, hits, radius, r) && 1 <= radius <= 10
    requires |sessions| == |turns| == |roles| == |hits|
    requires forall i :: 0 <= i < |hits| ==>
               && ColonFree(sessions[i]) && turns[i] <= I64_MAX - 10
               && hits[i].key == MemoryKey(PerTurn, sessions[i], turns[i], roles[i])
    ensures |r| >= |hits| && r[..|hits|] == hits
    ensures forall x, y :: |hits| <= x < y < |r| ==> r[x].key != r[y].key && LexLe(r[x].key, r[y].key)
    ensures h in r[|hits|..] <==>
              && store(h.key) == Some(h) && (forall g :: g in hits ==> g.key != h.key)
              && exists i :: 0 <= i < |hits| && NearTurn(sessions[i], turns[i], radius, h.key)
  {
    forall i | 0 <= i < |hits|
      ensures NeighbourOf(hits[i].key, radius, h.key) <==> NearTurn(sessions[i], turns[i], radius, h.key)
    {
      NearTurnIsNeighbour(sessions[i], turns[i], roles[i], radius, h.key);
    }
    hide NeighbourOf, NearTurn, MemoryKey, LexLe, ColonFree;
    EmissionOrdered(store, hits, radius, r);
    var keys := HitKeys(hits);
    assert h.key in keys <==> exists g :: g in hits && g.key == h.key;
    assert (exists key :: key in keys && NeighbourOf(key, radius, h.key))
      <==> exists i :: 0 <= i < |hits| && NeighbourOf(hits[i].key, radius, h.key) by {
      if key :| key in keys && NeighbourOf(key, radius, h.key) {
        var g :| g in hits && g.key == key;
        var i :| 0 <= i < |hits| && hits[i] == g;
        assert NeighbourOf(hits[i].key, radius, h.key);
      }
      if i :| 0 <= i < |hits| && NeighbourOf(hits[i].key, radius, h.key) {
        assert hits[i] in hits;
        assert hits[i].key in keys;
      }
    }
  }

  lemma EmissionOrdered(store: Store, hits: seq<Hit>, radius: int, r: seq<Hit>)
    requires IsEmission(store, hits, radius, r)
    ensures forall x, y :: |hits| <= x < y < |r| ==> r[x].key != r[y].key && LexLe(r[x].key, r[y].key)
  {
    hide Wanted, LexLe;
    var a := r[|hits|..];
    forall x, y | |hits| <= x < y < |r| ensures r[x].key != r[y].key && LexLe(r[x].key, r[y].key) {
      assert KeyLt(a[x - |hits|], a[y - |hits|]);
    }
  }
}
