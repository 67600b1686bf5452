/** The alias index in terms of the entities' names: which texts are aliases, of which entity, how wide the
    windows get, and what the fuzzy score is. */
module CanonicalizeNames {
  import opened Options
  import opened Sorting
  import opened Windows
  import opened Canonicalize
  import opened CanonicalizeText

  ghost predicate HasName(e: Entity, name: string)
  {
    name == e.canonical || name in e.aliases
  }

  /** Some name of the entity has this lower-case form. */
  ghost predicate Named(f: Foreign, e: Entity, key: string)
  {
    exists name :: HasName(e, name) && f.lowercase(name) == key
  }

  /** Entity i is the first with such a name. */
  ghost predicate FirstNamed(f: Foreign, entities: seq<Entity>, key: string, i: nat)
  {
    i < |entities| && Named(f, entities[i], key) && forall k :: 0 <= k < i ==> !Named(f, entities[k], key)
  }

  /** Position i is the last of a maximal run of characters that are no whitespace. */
  ghost predicate EndsPart(f: Foreign, s: string, i: nat)
  {
    i < |s| && !f.isWhitespace(s[i]) && (i + 1 < |s| ==> f.isWhitespace(s[i + 1]))
  }

  /** One position for each whitespace-separated part. */
  ghost function PartEnds(f: Foreign, s: string): set<nat>
  {
    set i | 0 <= i < |s| && EndsPart(f, s, i)
  }

  /** Some name of some entity has at least n whitespace-separated parts in lower case. */
  ghost predicate SomeNameIsAsWide(f: Foreign, entities: seq<Entity>, n: nat)
  {
    exists e, name :: e in entities && HasName(e, name) && |PartEnds(f, f.lowercase(name))| >= n
  }

  // ---- counting words

  lemma {:induction false} ShiftedSize(s: set<nat>, t: set<nat>)
    requires 0 !in s && forall i: nat :: i in t <==> i + 1 in s
    ensures |s| == |t|
    decreases |s|
  {
    if s == {} {
      assert t == {};
    } else {
      var x :| x in s;
      assert x - 1 in t;
      ShiftedSize(s - {x}, t - {x - 1});
    }
  }

  lemma {:induction false} WordCountIs(f: Foreign, s: string)
    ensures WordCount(f, s) == |PartEnds(f, s)|
  {
    if s != "" {
      WordCountIs(f, s[1..]);
      forall i: nat ensures EndsPart(f, s[1..], i) <==> EndsPart(f, s, i + 1) {
      }
      ShiftedSize(PartEnds(f, s) - {0}, PartEnds(f, s[1..]));
      assert 0 in PartEnds(f, s) ==> PartEnds(f, s) == (PartEnds(f, s) - {0}) + {0};
    }
  }

  // ---- the entries

  ghost predicate IsEntry(f: Foreign, e: Entity, x: AliasEntry)
  {
    && x.entity == e
    && x.wordCount == |PartEnds(f, x.aliasLower)|
    && exists name :: HasName(e, name) && x.aliasLower == f.lowercase(name)
  }

  lemma {:induction false} EntriesAre(f: Foreign, e: Entity, names: seq<string>, x: AliasEntry)
    ensures x in EntriesOf(f, e, names) <==> exists name :: name in names && x == EntryFor(f, name, e)
    decreases |names|
  {
    if names != [] {
      var n := |names| - 1;
      EntriesAre(f, e, names[..n], x);
      assert names == names[..n] + [names[n]];
    }
  }

  lemma EntriesAreNames(f: Foreign, e: Entity, x: AliasEntry)
    ensures x in EntriesOf(f, e, Names(e)) <==> IsEntry(f, e, x)
  {
    hide EntriesOf, PartEnds;
    EntriesAre(f, e, Names(e), x);
    assert forall name :: name in Names(e) <==> HasName(e, name);
    WordCountIs(f, x.aliasLower);
    hide Names, WordCount;
    if IsEntry(f, e, x) {
      var name :| HasName(e, name) && x.aliasLower == f.lowercase(name);
      assert x == EntryFor(f, name, e);
    }
  }

  lemma {:induction false} IndexIs(f: Foreign, entities: seq<Entity>, x: AliasEntry)
    ensures x in AliasIndex(f, entities) <==> exists e :: e in entities && IsEntry(f, e, x)
    decreases |entities|
  {
    hide IsEntry;
    if entities != [] {
      var n := |entities| - 1;
      IndexIs(f, entities[..n], x);
      EntriesAreNames(f, entities[n], x);
      assert entities == entities[..n] + [entities[n]];
    }
  }

  lemma IndexNamed(f: Foreign, entities: seq<Entity>, key: string)
    ensures (exists x :: x in AliasIndex(f, entities) && x.aliasLower == key)
            <==> exists e :: e in entities && Named(f, e, key)
  {
    hide AliasIndex, PartEnds;
    if x :| x in AliasIndex(f, entities) && x.aliasLower == key {
      IndexIs(f, entities, x);
    }
    if e :| e in entities && Named(f, e, key) {
      var x := AliasEntry(key, |PartEnds(f, key)|, e);
      assert IsEntry(f, e, x);
      IndexIs(f, entities, x);
    }
  }

  // ---- looking up

  /** A lookup finds the first entity that has such a name, if any has. */
  lemma {:induction false} LookupFindsFirst(f: Foreign, entities: seq<Entity>, key: string)
    ensures var r := FindAlias(AliasIndex(f, entities), key);
            && (r.Some? <==> exists e :: e in entities && Named(f, e, key))
            && (r.Some? ==> exists i: nat :: FirstNamed(f, entities, key, i) && r.value.entity == entities[i])
    decreases |entities|
  {
    hide *;
    if entities == [] {
      NothingListed(f, key);
    } else {
      var n := |entities| - 1;
      LookupFindsFirst(f, entities[..n], key);
      LookupOneMore(f, entities, key);
    }
  }

  lemma NothingListed(f: Foreign, key: string)
    ensures FindAlias(AliasIndex(f, []), key).None?
  {
  }

  lemma LookupOneMore(f: Foreign, entities: seq<Entity>, key: string)
    requires entities != []
    requires var init := entities[..|entities| - 1];
             var r := FindAlias(AliasIndex(f, init), key);
             && (r.Some? <==> exists e :: e in init && Named(f, e, key))
             && (r.Some? ==> exists i: nat :: FirstNamed(f, init, key, i) && r.value.entity == init[i])
    ensures var r := FindAlias(AliasIndex(f, entities), key);
            && (r.Some? <==> exists e :: e in entities && Named(f, e, key))
            && (r.Some? ==> exists i: nat :: FirstNamed(f, entities, key, i) && r.value.entity == entities[i])
  {
    var n := |entities| - 1;
    var init, e := entities[..n], entities[n];
    assert AliasIndex(f, entities) == AliasIndex(f, init) + EntriesOf(f, e, Names(e));
    hide Named, AliasIndex, EntriesOf, Names;
    IndexNamed(f, entities, key);
    var a, b := AliasIndex(f, init), EntriesOf(f, e, Names(e));
    var r := FindAlias(a + b, key);
    hide FindAlias;
    if FindAlias(a, key).Some? {
      FindAliasExtends(a, b, key);
      var i: nat :| FirstNamed(f, init, key, i) && r.value.entity == init[i];
      FirstNamedLonger(f, entities, key, i);
    } else if r.Some? {
      assert r.value in b;
      EntriesAreNames(f, e, r.value);
      NamedByEntry(f, e, r.value);
      assert forall k :: 0 <= k < n ==> entities[k] == init[k] && init[k] in init;
      assert FirstNamed(f, entities, key, n);
    }
  }

  lemma NamedByEntry(f: Foreign, e: Entity, x: AliasEntry)
    requires IsEntry(f, e, x)
    ensures x.entity == e && Named(f, e, x.aliasLower)
  {
  }

  lemma FirstNamedLonger(f: Foreign, entities: seq<Entity>, key: string, i: nat)
    requires entities != [] && FirstNamed(f, entities[..|entities| - 1], key, i)
    ensures FirstNamed(f, entities, key, i)
  {
    hide Named;
  }

  // ---- windows

  ghost function Stretch(text: string, lo: nat, hi: nat): string
  {
    if lo <= hi <= |text| then text[lo..hi] else ""
  }

  /** The text from the first to the last word of a window. */
  ghost function TextOf(text: string, words: seq<Word>, w: Window): string
    requires 1 <= w.size && w.start + w.size <= |words|
  {
    Stretch(text, words[w.start].lo, words[w.start + w.size - 1].hi)
  }

  /** Main result for the windows: those the search looks at and takes for aliases are exactly those whose
      text, from the first to the last word, has the lower-case form of some name of some entity, and
      which have no more words than the widest name has parts. */
  lemma AliasWindowMeans(c: Canonicalizer, text: string, words: seq<Word>, w: Window)
    requires WellPlaced(text, words)
    ensures w in AliasWindows(c, text, words) <==>
              && 1 <= w.size && w.start + w.size <= |words|
              && (exists e :: e in c.entities && Named(c.foreign, e, c.foreign.lowercase(TextOf(text, words, w))))
              && SomeNameIsAsWide(c.foreign, c.entities, w.size)
  {
    AliasWindowsAre(c, text, words, w);
    if InWords(words, w) {
      RegionInText(text, words, w);
      LookupFindsFirst(c.foreign, c.entities, c.foreign.lowercase(TextOf(text, words, w)));
      WidestMeans(c, words, w.size);
    }
    hide AliasIndex, FindAlias, Named, SomeNameIsAsWide, WidestWindow, AliasWindows;
  }

  lemma WidestMeans(c: Canonicalizer, words: seq<Word>, size: nat)
    requires 1 <= size <= |words|
    ensures c.entities != [] ==> (size <= WidestFor(c, words) <==> SomeNameIsAsWide(c.foreign, c.entities, size))
  {
    var f, index := c.foreign, AliasIndex(c.foreign, c.entities);
    hide AliasIndex, PartEnds;
    if c.entities != [] {
      var e := c.entities[0];
      var x := AliasEntry(f.lowercase(e.canonical), |PartEnds(f, f.lowercase(e.canonical))|, e);
      assert HasName(e, e.canonical);
      assert IsEntry(f, e, x);
      IndexIs(f, c.entities, x);
      assert index != [];
      if size <= MaxWordCount(index) {
        var widest :| widest in index && widest.wordCount == MaxWordCount(index);
        IndexIs(f, c.entities, widest);
      }
      if SomeNameIsAsWide(f, c.entities, size) {
        var e', name :| e' in c.entities && HasName(e', name) && |PartEnds(f, f.lowercase(name))| >= size;
        var y := AliasEntry(f.lowercase(name), |PartEnds(f, f.lowercase(name))|, e');
        assert IsEntry(f, e', y);
        IndexIs(f, c.entities, y);
        assert y in index && y.wordCount >= size;
      }
    }
  }

  // ---- fuzzy scores

  ghost function Similarity(c: Canonicalizer, mention: string, name: string): real
  {
    c.foreign.similarity(c.foreign.lowercase(mention), c.foreign.lowercase(name))
  }

  /** No name of the entity resembles the mention more than the score, or as much if strict. */
  ghost predicate AllBelow(c: Canonicalizer, mention: string, e: Entity, score: real, strict: bool)
  {
    forall name :: HasName(e, name) ==>
      Similarity(c, mention, name) < score || (!strict && Similarity(c, mention, name) == score)
  }

  /** The score is the greatest similarity of any name, positive, and the entity the first with it. */
  ghost predicate IsBest(c: Canonicalizer, mention: string, entities: seq<Entity>, score: real, entity: Entity)
  {
    && score > 0.0
    && (forall e :: e in entities ==> AllBelow(c, mention, e, score, false))
    && exists i: nat ::
         && i < |entities| && entity == entities[i]
         && (exists name :: HasName(entity, name) && Similarity(c, mention, name) == score)
         && forall k :: 0 <= k < i ==> AllBelow(c, mention, entities[k], score, true)
  }

  ghost predicate NothingAlike(c: Canonicalizer, mention: string, entities: seq<Entity>)
  {
    forall e :: e in entities ==> AllBelow(c, mention, e, 0.0, false)
  }

  /** Adding the names of one more entity to the index. */
  lemma {:induction false} BestOfMore(c: Canonicalizer, mention: string, index: seq<AliasEntry>, names: seq<string>,
                                      e: Entity)
    ensures var r, s := Best(c, index, mention), Best(c, index + EntriesOf(c.foreign, e, names), mention);
            && s.0 >= r.0
            && (forall name :: name in names ==> Similarity(c, mention, name) <= s.0)
            && (s.0 == r.0 ==> s == r)
            && (s.0 > r.0 ==> s.1 == Some(e) && exists name :: name in names && Similarity(c, mention, name) == s.0)
    decreases |names|
  {
    if names == [] {
      assert index + EntriesOf(c.foreign, e, names) == index;
    } else {
      var n := |names| - 1;
      BestOfMore(c, mention, index, names[..n], e);
      assert names == names[..n] + [names[n]];
      var all := index + EntriesOf(c.foreign, e, names);
      assert all[..|all| - 1] == index + EntriesOf(c.foreign, e, names[..n]);
      assert all[|all| - 1] == EntryFor(c.foreign, names[n], e);
      var r, m := Best(c, index, mention), Best(c, all[..|all| - 1], mention);
      var s := Best(c, all, mention);
      assert s == if Similarity(c, mention, names[n]) > m.0 then (Similarity(c, mention, names[n]), Some(e)) else m;
      hide *;
      if s.0 > r.0 {
        if s.0 > m.0 {
          assert names[n] in names && Similarity(c, mention, names[n]) == s.0;
        } else {
          var name :| name in names[..n] && Similarity(c, mention, name) == s.0;
          assert name in names;
        }
      }
    }
  }

  /** Main result for the scores: the best fuzzy match is the greatest similarity of the lowered mention to
      any lowered name, with the first entity that reaches it, and none when nothing is alike at all. */
  lemma {:induction false} BestMeans(c: Canonicalizer, mention: string, entities: seq<Entity>)
    ensures var r := Best(c, AliasIndex(c.foreign, entities), mention);
            if r.1.Some? then IsBest(c, mention, entities, r.0, r.1.value)
            else r.0 == 0.0 && NothingAlike(c, mention, entities)
    decreases |entities|
  {
    hide Similarity, EntriesOf;
    if entities != [] {
      var n := |entities| - 1;
      var init, e := entities[..n], entities[n];
      BestMeans(c, mention, init);
      BestOfMore(c, mention, AliasIndex(c.foreign, init), Names(e), e);
      BestStays(c, mention, entities, Best(c, AliasIndex(c.foreign, init), mention),
                Best(c, AliasIndex(c.foreign, entities), mention));
    }
  }

  lemma BestStays(c: Canonicalizer, mention: string, entities: seq<Entity>, r: (real, Option<Entity>),
                  s: (real, Option<Entity>))
    requires entities != []
    requires var init := entities[..|entities| - 1];
             if r.1.Some? then IsBest(c, mention, init, r.0, r.1.value)
             else r.0 == 0.0 && NothingAlike(c, mention, init)
    requires var e := entities[|entities| - 1];
             && s.0 >= r.0
             && (forall name :: name in Names(e) ==> Similarity(c, mention, name) <= s.0)
             && (s.0 == r.0 ==> s == r)
             && (s.0 > r.0 ==> s.1 == Some(e) && exists name :: name in Names(e) && Similarity(c, mention, name) == s.0)
    ensures if s.1.Some? then IsBest(c, mention, entities, s.0, s.1.value)
            else s.0 == 0.0 && NothingAlike(c, mention, entities)
  {
    hide Similarity;
    var n := |entities| - 1;
    var init, e := entities[..n], entities[n];
    assert entities == init + [e];
    assert forall name :: name in Names(e) <==> HasName(e, name);
    hide Names, HasName;
    assert forall x :: x in init ==> AllBelow(c, mention, x, r.0, false);
    assert AllBelow(c, mention, e, s.0, false);
    if s.0 > r.0 {
      forall k | 0 <= k < n ensures AllBelow(c, mention, entities[k], s.0, true) {
        assert init[k] in init;
      }
    } else if s.1.Some? {
      var i: nat :| && i < |init| && s.1.value == init[i]
                    && (exists name :: HasName(s.1.value, name) && Similarity(c, mention, name) == s.0)
                    && forall k :: 0 <= k < i ==> AllBelow(c, mention, init[k], s.0, true);
      assert i < |entities| && s.1.value == entities[i];
      assert forall k :: 0 <= k < i ==> init[k] == entities[k];
    }
  }
}
