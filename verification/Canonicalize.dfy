/** The ontology canonicalizer of `canonicalize.rs`: tokenizing, exact longest-first matching of alias
    windows, then fuzzy matching of the words left over. */
module Canonicalize {
  import opened Options
  import opened Sorting

  datatype Entity = Entity(entityType: string, canonical: string, aliases: seq<string>)

  /** What the code takes from the standard library and from `strsim`. */
  datatype Foreign = Foreign(
    isAlphanumeric: char -> bool,
    isWhitespace: char -> bool,
    lowercase: string -> string,
    similarity: (string, string) -> real)

  datatype Canonicalizer = Canonicalizer(entities: seq<Entity>, threshold: real, foreign: Foreign)

  datatype AliasEntry = AliasEntry(aliasLower: string, wordCount: nat, entity: Entity)

  datatype MatchKind = Exact | Fuzzy(score: real)

  datatype Match = Match(mention: string, span: (nat, nat), entity: Entity, kind: MatchKind)

  datatype Nearest = Nearest(entity: Entity, score: real)

  datatype Unresolved = Unresolved(mention: string, span: (nat, nat), nearest: Nearest)

  /** A call that returns, or panics on an unwrap that has nothing to unwrap. */
  datatype Call<+T> = Returned(value: T) | Panicked

  const MIN_WORD_LEN: nat := 3
  const NEAREST_THRESHOLD: real := 0.5

  // ---- words

  /** The characters lo, ..., hi - 1 of the text. */
  datatype Word = Word(lo: nat, hi: nat)

  predicate IsWordChar(c: Canonicalizer, ch: char)
  {
    c.foreign.isAlphanumeric(ch) || ch == '-' || ch == '\''
  }

  /** Bytes of a character in UTF-8. */
  function Width(ch: char): nat
  {
    if ch < '\U{80}' then 1 else if ch < '\U{800}' then 2 else if ch < '\U{10000}' then 3 else 4
  }

  function ByteLen(s: string): nat
  {
    if s == "" then 0 else ByteLen(s[..|s| - 1]) + Width(s[|s| - 1])
  }

  /** The byte offset of character i. */
  function Offset(text: string, i: nat): nat
    requires i <= |text|
  {
    ByteLen(text[..i])
  }

  function ByteSpan(text: string, w: Word): (nat, nat)
    requires w.lo <= w.hi <= |text|
  {
    (Offset(text, w.lo), Offset(text, w.hi))
  }

  /** A maximal nonempty run of word characters. */
  ghost predicate IsRun(c: Canonicalizer, text: string, w: Word)
  {
    && w.lo < w.hi <= |text|
    && (forall i :: w.lo <= i < w.hi ==> IsWordChar(c, text[i]))
    && (w.lo > 0 ==> !IsWordChar(c, text[w.lo - 1]))
    && (w.hi < |text| ==> !IsWordChar(c, text[w.hi]))
  }

  predicate Before(v: Word, w: Word) { v.hi < w.lo }

  /** All the runs of the text and nothing else, from left to right. */
  ghost predicate IsWordList(c: Canonicalizer, text: string, words: seq<Word>)
  {
    && Ascending(words, Before)
    && forall w :: w in words <==> IsRun(c, text, w)
  }

  lemma WordListUnique(c: Canonicalizer, text: string, a: seq<Word>, b: seq<Word>)
    requires IsWordList(c, text, a) && IsWordList(c, text, b)
    ensures a == b
  {
    AscendingUnique(a, b, Before);
  }

  /** A run ending at or before i is one of the words found so far. */
  ghost predicate WordsBelow(c: Canonicalizer, text: string, words: seq<Word>, i: nat)
  {
    && Ascending(words, Before)
    && (forall w :: w in words ==> IsRun(c, text, w) && w.hi < i)
    && forall w :: IsRun(c, text, w) && w.hi < i ==> w in words
  }

  method ExtractWords(c: Canonicalizer, text: string) returns (words: seq<Word>)
    ensures IsWordList(c, text, words)
  {
    words := [];
    var start: Option<nat> := None;
    var i := 0;
    while i < |text|
      invariant i <= |text|
      invariant WordsBelow(c, text, words, i)
      invariant start.None? ==> i == 0 || !IsWordChar(c, text[i - 1])
      invariant start.Some? ==>
                  && start.value < i
                  && (forall k :: start.value <= k < i ==> IsWordChar(c, text[k]))
                  && (start.value > 0 ==> !IsWordChar(c, text[start.value - 1]))
    {
      if IsWordChar(c, text[i]) {
        if start.None? {
          start := Some(i);
        }
      } else if start.Some? {
        var w := Word(start.value, i);
        AddWord(c, text, words, w);
        words := words + [w];
        start := None;
        i := i + 1;
        continue;
      }
      NoWordEndsAt(c, text, words, i, start);
      i := i + 1;
    }
    if start.Some? {
      var w := Word(start.value, |text|);
      AddWord(c, text, words, w);
      words := words + [w];
    } else {
      NoWordEndsAt(c, text, words, |text|, start);
    }
    forall w ensures w in words <==> IsRun(c, text, w) {
      assert IsRun(c, text, w) ==> w.hi < |text| + 1;
    }
  }

  lemma AddWord(c: Canonicalizer, text: string, words: seq<Word>, w: Word)
    requires WordsBelow(c, text, words, w.hi) && IsRun(c, text, w)
    ensures WordsBelow(c, text, words + [w], w.hi + 1)
  {
    forall v | v in words ensures Before(v, w) {
      assert IsRun(c, text, v) && v.hi < w.hi;
      RunsApart(c, text, v, w);
    }
    forall v | IsRun(c, text, v) && v.hi < w.hi + 1 ensures v in words + [w] {
      if v.hi == w.hi {
        RunsEndDistinct(c, text, v, w);
      } else {
        assert v in words;
      }
    }
  }

  lemma RunsApart(c: Canonicalizer, text: string, v: Word, w: Word)
    requires IsRun(c, text, v) && IsRun(c, text, w) && v.hi < w.hi
    ensures v.hi < w.lo
  {
    assert !IsWordChar(c, text[v.hi]) && IsWordChar(c, text[w.lo]);
  }

  lemma RunsEndDistinct(c: Canonicalizer, text: string, v: Word, w: Word)
    requires IsRun(c, text, v) && IsRun(c, text, w) && v.hi == w.hi
    ensures v == w
  {
    assert IsWordChar(c, text[v.lo]) && IsWordChar(c, text[w.lo]);
  }

  lemma NoWordEndsAt(c: Canonicalizer, text: string, words: seq<Word>, i: nat, start: Option<nat>)
    requires i <= |text| && WordsBelow(c, text, words, i)
    requires (i < |text| && IsWordChar(c, text[i])) || i == 0 || !IsWordChar(c, text[i - 1])
    ensures WordsBelow(c, text, words, i + 1)
  {
    forall w | IsRun(c, text, w) && w.hi < i + 1 ensures w in words {
      assert IsWordChar(c, text[w.hi - 1]);
    }
  }

  // ---- the alias index

  /** Number of maximal runs of non-whitespace characters. */
  function WordCount(f: Foreign, s: string): nat
  {
    if s == "" then 0
    else
      WordCount(f, s[1..])
      + (if !f.isWhitespace(s[0]) && (|s| == 1 || f.isWhitespace(s[1])) then 1 else 0)
  }

  function EntryFor(f: Foreign, alias: string, entity: Entity): AliasEntry
  {
    AliasEntry(f.lowercase(alias), WordCount(f, f.lowercase(alias)), entity)
  }

  /** The canonical name, which is implicitly an alias, and then the aliases. */
  function Names(e: Entity): seq<string>
  {
    [e.canonical] + e.aliases
  }

  function EntriesOf(f: Foreign, e: Entity, names: seq<string>): seq<AliasEntry>
  {
    if names == [] then []
    else EntriesOf(f, e, names[..|names| - 1]) + [EntryFor(f, names[|names| - 1], e)]
  }

  /** Every alias of every entity, in declaration order. */
  function AliasIndex(f: Foreign, entities: seq<Entity>): seq<AliasEntry>
  {
    if entities == [] then []
    else
      var e := entities[|entities| - 1];
      AliasIndex(f, entities[..|entities| - 1]) + EntriesOf(f, e, Names(e))
  }

  /** The entries before the j-th name of the i-th entity. */
  ghost function IndexPrefix(f: Foreign, entities: seq<Entity>, i: nat, j: nat): seq<AliasEntry>
    requires i < |entities| && j <= |Names(entities[i])|
  {
    AliasIndex(f, entities[..i]) + EntriesOf(f, entities[i], Names(entities[i])[..j])
  }

  lemma IndexPrefixStep(f: Foreign, entities: seq<Entity>, i: nat, j: nat)
    requires i < |entities| && j < |Names(entities[i])|
    ensures IndexPrefix(f, entities, i, j + 1)
         == IndexPrefix(f, entities, i, j) + [EntryFor(f, Names(entities[i])[j], entities[i])]
  {
    var names := Names(entities[i]);
    assert names[..j + 1][..j] == names[..j];
  }

  lemma IndexPrefixEnd(f: Foreign, entities: seq<Entity>, i: nat)
    requires i < |entities|
    ensures IndexPrefix(f, entities, i, |Names(entities[i])|) == AliasIndex(f, entities[..i + 1])
    ensures IndexPrefix(f, entities, i, 0) == AliasIndex(f, entities[..i])
  {
    var names := Names(entities[i]);
    assert names[..|names|] == names;
    assert entities[..i + 1][..i] == entities[..i];
  }

  method BuildAliasIndex(c: Canonicalizer) returns (entries: seq<AliasEntry>)
    ensures entries == AliasIndex(c.foreign, c.entities)
  {
    entries := [];
    for i := 0 to |c.entities|
      invariant entries == AliasIndex(c.foreign, c.entities[..i])
    {
      var entity := c.entities[i];
      IndexPrefixEnd(c.foreign, c.entities, i);
      IndexPrefixStep(c.foreign, c.entities, i, 0);
      entries := entries + [EntryFor(c.foreign, entity.canonical, entity)];
      for j := 0 to |entity.aliases|
        invariant entries == IndexPrefix(c.foreign, c.entities, i, j + 1)
      {
        IndexPrefixStep(c.foreign, c.entities, i, j + 1);
        entries := entries + [EntryFor(c.foreign, entity.aliases[j], entity)];
      }
    }
    assert c.entities[..|c.entities|] == c.entities;
  }

  /** The first entry whose lowered alias is the key. */
  function FindAlias(index: seq<AliasEntry>, key: string): (r: Option<AliasEntry>)
    ensures r.Some? ==> r.value in index && r.value.aliasLower == key
    ensures r.None? <==> forall e :: e in index ==> e.aliasLower != key
  {
    if index == [] then None
    else
      var n := |index| - 1;
      assert index == index[..n] + [index[n]];
      var r := FindAlias(index[..n], key);
      if r.Some? then r
      else if index[n].aliasLower == key then Some(index[n])
      else None
  }

  lemma {:induction false} FindAliasExtends(a: seq<AliasEntry>, b: seq<AliasEntry>, key: string)
    requires FindAlias(a, key).Some?
    ensures FindAlias(a + b, key) == FindAlias(a, key)
  {
    if b == [] {
      assert a + b == a;
    } else {
      var n := |b| - 1;
      assert (a + b)[..|a + b| - 1] == a + b[..n];
      FindAliasExtends(a, b[..n], key);
    }
  }

  function MaxWordCount(index: seq<AliasEntry>): (m: nat)
    ensures forall e :: e in index ==> e.wordCount <= m
    ensures index != [] ==> exists e :: e in index && e.wordCount == m
  {
    if index == [] then 0
    else
      var n := |index| - 1;
      assert index == index[..n] + [index[n]];
      var m := MaxWordCount(index[..n]);
      if index[n].wordCount >= m then index[n].wordCount else m
  }

  /** The widest window tried. */
  function WidestWindow(index: seq<AliasEntry>, words: seq<Word>): nat
  {
    var m := if index == [] then 1 else MaxWordCount(index);
    if m <= |words| then m else |words|
  }

  // ---- fuzzy scores

  /** The best score, and the first entity that reaches it; none while every score is zero. */
  function Best(c: Canonicalizer, index: seq<AliasEntry>, mention: string): (r: (real, Option<Entity>))
  {
    if index == [] then (0.0, None)
    else
      var n := |index| - 1;
      var r := Best(c, index[..n], mention);
      var score := Score(c, index[n], mention);
      if score > r.0 then (score, Some(index[n].entity)) else r
  }

  function Score(c: Canonicalizer, e: AliasEntry, mention: string): real
  {
    c.foreign.similarity(c.foreign.lowercase(mention), e.aliasLower)
  }

  function BestFor(c: Canonicalizer, mention: string): (real, Option<Entity>)
  {
    Best(c, AliasIndex(c.foreign, c.entities), mention)
  }

  /** The k-th entry is the first to reach the score, with its entity. */
  ghost predicate FirstReaching(c: Canonicalizer, index: seq<AliasEntry>, mention: string, r: (real, Option<Entity>),
                                k: nat)
  {
    && k < |index|
    && r.1 == Some(index[k].entity) && Score(c, index[k], mention) == r.0
    && forall j :: 0 <= j < k ==> Score(c, index[j], mention) < r.0
  }

  /** What Best means: no alias scores higher, and the entity is that of the first alias reaching the
      score, which exists exactly when some alias scores above zero. */
  lemma {:induction false} BestIsFirstMaximum(c: Canonicalizer, index: seq<AliasEntry>, mention: string)
    ensures var r := Best(c, index, mention);
            && (forall e :: e in index ==> Score(c, e, mention) <= r.0)
            && (r.1.None? <==> r.0 == 0.0)
            && r.0 >= 0.0
            && (r.1.Some? ==> exists k: nat :: FirstReaching(c, index, mention, r, k))
    decreases |index|
  {
    hide Score;
    if index != [] {
      var n := |index| - 1;
      var init := index[..n];
      var r, s := Best(c, index, mention), Best(c, init, mention);
      BestIsFirstMaximum(c, init, mention);
      assert r == if Score(c, index[n], mention) > s.0 then (Score(c, index[n], mention), Some(index[n].entity)) else s;
      hide Best;
      forall e | e in index ensures Score(c, e, mention) <= r.0 {
        assert index == init + [index[n]];
        assert e in init || e == index[n];
      }
      if Score(c, index[n], mention) > s.0 {
        forall j | 0 <= j < n ensures Score(c, index[j], mention) < r.0 {
          assert init[j] in init;
        }
        assert FirstReaching(c, index, mention, r, n);
      } else if r.1.Some? {
        var k: nat :| FirstReaching(c, init, mention, s, k);
        assert index[k] == init[k] && forall j :: 0 <= j < k ==> index[j] == init[j];
        assert FirstReaching(c, index, mention, r, k);
      }
    }
  }

  method BestFuzzyMatch(c: Canonicalizer, mention: string) returns (bestScore: real, bestEntity: Option<Entity>)
    ensures (bestScore, bestEntity) == BestFor(c, mention)
  {
    var mentionLower := c.foreign.lowercase(mention);
    bestScore, bestEntity := 0.0, None;
    for i := 0 to |c.entities|
      invariant (bestScore, bestEntity) == Best(c, AliasIndex(c.foreign, c.entities[..i]), mention)
    {
      var entity := c.entities[i];
      var names := Names(entity);
      IndexPrefixEnd(c.foreign, c.entities, i);
      for j := 0 to |names|
        invariant (bestScore, bestEntity) == Best(c, IndexPrefix(c.foreign, c.entities, i, j), mention)
      {
        var score := c.foreign.similarity(mentionLower, c.foreign.lowercase(names[j]));
        BestStep(c, i, j, mention);
        if score > bestScore {
          bestScore, bestEntity := score, Some(entity);
        }
      }
    }
    assert c.entities[..|c.entities|] == c.entities;
  }

  lemma BestStep(c: Canonicalizer, i: nat, j: nat, mention: string)
    requires i < |c.entities| && j < |Names(c.entities[i])|
    ensures var r := Best(c, IndexPrefix(c.foreign, c.entities, i, j), mention);
            var score := Score(c, EntryFor(c.foreign, Names(c.entities[i])[j], c.entities[i]), mention);
            Best(c, IndexPrefix(c.foreign, c.entities, i, j + 1), mention) ==
              if score > r.0 then (score, Some(c.entities[i])) else r
  {
    hide IndexPrefix;
    IndexPrefixStep(c.foreign, c.entities, i, j);
    var p := IndexPrefix(c.foreign, c.entities, i, j);
    var q := IndexPrefix(c.foreign, c.entities, i, j + 1);
    assert q[..|q| - 1] == p;
  }

  // ---- resolving one mention

  ghost function ResolveOneSpec(c: Canonicalizer, mention: string): Call<Option<Match>>
  {
    var exact := FindAlias(AliasIndex(c.foreign, c.entities), c.foreign.lowercase(mention));
    if exact.Some? then
      Returned(Some(Match(mention, (0, ByteLen(mention)), exact.value.entity, Exact)))
    else
      var best := BestFor(c, mention);
      if best.0 < c.threshold then Returned(None)
      else if best.1.None? then Panicked
      else Returned(Some(Match(mention, (0, ByteLen(mention)), best.1.value, Fuzzy(best.0))))
  }

  method ResolveOne(c: Canonicalizer, mention: string) returns (r: Call<Option<Match>>)
    ensures r == ResolveOneSpec(c, mention)
  {
    var mentionLower := c.foreign.lowercase(mention);
    for i := 0 to |c.entities|
      invariant FindAlias(AliasIndex(c.foreign, c.entities[..i]), mentionLower).None?
    {
      var entity := c.entities[i];
      var names := Names(entity);
      IndexPrefixEnd(c.foreign, c.entities, i);
      for j := 0 to |names|
        invariant FindAlias(IndexPrefix(c.foreign, c.entities, i, j), mentionLower).None?
      {
        IndexPrefixStep(c.foreign, c.entities, i, j);
        if c.foreign.lowercase(names[j]) == mentionLower {
          FoundAlias(c, i, j, mentionLower);
          return Returned(Some(Match(mention, (0, ByteLen(mention)), entity, Exact)));
        }
      }
    }
    assert c.entities[..|c.entities|] == c.entities;
    var bestScore, bestEntity := BestFuzzyMatch(c, mention);
    if bestScore >= c.threshold {
      if bestEntity.None? {
        return Panicked;
      }
      return Returned(Some(Match(mention, (0, ByteLen(mention)), bestEntity.value, Fuzzy(bestScore))));
    }
    return Returned(None);
  }

  lemma {:induction false} IndexExtends(f: Foreign, entities: seq<Entity>, i: nat)
    requires i <= |entities|
    ensures AliasIndex(f, entities[..i]) <= AliasIndex(f, entities)
    decreases |entities|
  {
    if i == |entities| {
      assert entities[..i] == entities;
    } else {
      var shorter := entities[..|entities| - 1];
      IndexExtends(f, shorter, i);
      assert shorter[..i] == entities[..i];
    }
  }

  lemma FoundAlias(c: Canonicalizer, i: nat, j: nat, key: string)
    requires i < |c.entities| && j < |Names(c.entities[i])|
    requires FindAlias(IndexPrefix(c.foreign, c.entities, i, j), key).None?
    requires c.foreign.lowercase(Names(c.entities[i])[j]) == key
    ensures FindAlias(AliasIndex(c.foreign, c.entities), key)
         == Some(EntryFor(c.foreign, Names(c.entities[i])[j], c.entities[i]))
  {
    hide IndexPrefix, AliasIndex;
    var f, es := c.foreign, c.entities;
    var p, q, all := IndexPrefix(f, es, i, j), IndexPrefix(f, es, i, j + 1), AliasIndex(f, es);
    IndexPrefixStep(f, es, i, j);
    assert q[..|q| - 1] == p;
    assert FindAlias(q, key) == Some(q[|q| - 1]);
    PrefixExtends(f, es, i, j + 1);
    FindAliasExtends(q, all[|q|..], key);
    assert q + all[|q|..] == all;
  }

  lemma PrefixExtends(f: Foreign, entities: seq<Entity>, i: nat, j: nat)
    requires i < |entities| && j <= |Names(entities[i])|
    ensures IndexPrefix(f, entities, i, j) <= AliasIndex(f, entities)
  {
    hide AliasIndex, EntriesOf;
    EntriesExtend(f, entities[i], Names(entities[i]), j);
    assert Names(entities[i])[..|Names(entities[i])|] == Names(entities[i]);
    assert IndexPrefix(f, entities, i, j) <= IndexPrefix(f, entities, i, |Names(entities[i])|);
    IndexPrefixEnd(f, entities, i);
    IndexExtends(f, entities, i + 1);
  }

  lemma {:induction false} EntriesExtend(f: Foreign, e: Entity, names: seq<string>, j: nat)
    requires j <= |names|
    ensures EntriesOf(f, e, names[..j]) <= EntriesOf(f, e, names)
    decreases |names|
  {
    if j == |names| {
      assert names[..j] == names;
    } else {
      var shorter := names[..|names| - 1];
      EntriesExtend(f, e, shorter, j);
      assert shorter[..j] == names[..j];
    }
  }

  ghost function FindNearestSpec(c: Canonicalizer, mention: string): Option<Nearest>
  {
    var best := BestFor(c, mention);
    BestIsFirstMaximum(c, AliasIndex(c.foreign, c.entities), mention);
    if best.0 >= NEAREST_THRESHOLD then Some(Nearest(best.1.value, best.0)) else None
  }

  method FindNearest(c: Canonicalizer, mention: string) returns (r: Option<Nearest>)
    ensures r == FindNearestSpec(c, mention)
  {
    BestIsFirstMaximum(c, AliasIndex(c.foreign, c.entities), mention);
    var bestScore, bestEntity := BestFuzzyMatch(c, mention);
    r := if bestScore >= NEAREST_THRESHOLD then Some(Nearest(bestEntity.value, bestScore)) else None;
  }

  /** No alias resembles the mention at all. */
  ghost predicate Unlike(c: Canonicalizer, mention: string)
  {
    forall e :: e in AliasIndex(c.foreign, c.entities) ==> Score(c, e, mention) <= 0.0
  }

  /** The unwrap after a fuzzy match has nothing to unwrap exactly when the threshold is not positive
      and no alias resembles the mention. */
  lemma NothingToUnwrap(c: Canonicalizer, mention: string)
    ensures var best := BestFor(c, mention);
            best.0 >= c.threshold && best.1.None? <==> c.threshold <= 0.0 && Unlike(c, mention)
  {
    hide AliasIndex, Best, Score;
    var index := AliasIndex(c.foreign, c.entities);
    var best := BestFor(c, mention);
    BestIsFirstMaximum(c, index, mention);
    assert forall k :: 0 <= k < |index| ==> index[k] in index;
    if best.1.Some? {
      var k: nat :| FirstReaching(c, index, mention, best, k);
    }
  }

  /** resolve_one panics exactly when the mention is no alias, the threshold is not positive and no alias
      resembles the mention. */
  lemma ResolveOnePanics(c: Canonicalizer, mention: string)
    ensures ResolveOneSpec(c, mention).Panicked? <==>
              && c.threshold <= 0.0 && Unlike(c, mention)
              && forall e :: e in AliasIndex(c.foreign, c.entities) ==> e.aliasLower != c.foreign.lowercase(mention)
  {
    hide AliasIndex, Best, Score;
    NothingToUnwrap(c, mention);
  }
}
