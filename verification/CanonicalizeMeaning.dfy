/** What canonicalizing a text reports, in terms of the characters of the text and the names of the
    entities. */
module CanonicalizeMeaning {
  import opened Options
  import opened Sorting
  import opened Windows
  import opened Canonicalize
  import opened CanonicalizeText
  import opened CanonicalizeResults
  import opened CanonicalizeNames

  ghost predicate WordLike(f: Foreign, ch: char)
  {
    f.isAlphanumeric(ch) || ch == '-' || ch == '\''
  }

  /** The stretch begins where a word does and ends where one does. */
  ghost predicate AtWords(f: Foreign, text: string, lo: nat, hi: nat)
  {
    && lo < hi <= |text|
    && WordLike(f, text[lo]) && (lo > 0 ==> !WordLike(f, text[lo - 1]))
    && WordLike(f, text[hi - 1]) && (hi < |text| ==> !WordLike(f, text[hi]))
  }

  ghost predicate IsWord(f: Foreign, text: string, lo: nat, hi: nat)
  {
    AtWords(f, text, lo, hi) && forall i :: lo <= i < hi ==> WordLike(f, text[i])
  }

  /** The mention is that stretch, and the span its byte range. */
  ghost predicate Mentions(text: string, lo: nat, hi: nat, mention: string, span: (nat, nat))
  {
    lo <= hi <= |text| && mention == text[lo..hi] && span == (ByteLen(text[..lo]), ByteLen(text[..hi]))
  }

  ghost predicate ExactAt(c: Canonicalizer, text: string, m: Match, lo: nat, hi: nat)
  {
    && AtWords(c.foreign, text, lo, hi) && Mentions(text, lo, hi, m.mention, m.span)
    && m.kind == Exact
    && exists i: nat ::
         FirstNamed(c.foreign, c.entities, c.foreign.lowercase(m.mention), i) && m.entity == c.entities[i]
  }

  ghost predicate FuzzyAt(c: Canonicalizer, text: string, m: Match, lo: nat, hi: nat)
  {
    && IsWord(c.foreign, text, lo, hi) && Mentions(text, lo, hi, m.mention, m.span)
    && m.span.1 - m.span.0 >= 3
    && m.kind.Fuzzy? && m.kind.score >= c.threshold
    && IsBest(c, m.mention, c.entities, m.kind.score, m.entity)
  }

  ghost predicate NearAt(c: Canonicalizer, text: string, u: Unresolved, lo: nat, hi: nat)
  {
    && IsWord(c.foreign, text, lo, hi) && Mentions(text, lo, hi, u.mention, u.span)
    && u.span.1 - u.span.0 >= 3
    && 0.5 <= u.nearest.score < c.threshold
    && IsBest(c, u.mention, c.entities, u.nearest.score, u.nearest.entity)
  }

  /** No name of any entity resembles the mention as much as the score. */
  ghost predicate AllUnder(c: Canonicalizer, mention: string, score: real)
  {
    forall e :: e in c.entities ==> AllBelow(c, mention, e, score, true)
  }

  // ---- words

  lemma RunIsWord(c: Canonicalizer, text: string, w: Word)
    ensures IsRun(c, text, w) <==> IsWord(c.foreign, text, w.lo, w.hi)
  {
    assert forall ch :: IsWordChar(c, ch) <==> WordLike(c.foreign, ch);
    hide IsWordChar, WordLike;
  }

  lemma RegionAtWords(c: Canonicalizer, text: string, words: seq<Word>, w: Window)
    requires IsWordList(c, text, words) && InWords(words, w)
    ensures AtWords(c.foreign, text, Region(words, w).lo, Region(words, w).hi)
  {
    var a, b := words[w.start], words[w.start + w.size - 1];
    assert a in words && b in words;
    RunIsWord(c, text, a);
    RunIsWord(c, text, b);
    assert w.size > 1 ==> Before(a, b);
  }

  // ---- what is reported

  lemma ExactMeans(c: Canonicalizer, text: string, words: seq<Word>, w: Window)
    requires IsWordList(c, text, words) && WellPlaced(text, words) && IsAliasWindow(c, text, words, w)
    ensures ExactAt(c, text, ExactMatch(c, text, words, w), Region(words, w).lo, Region(words, w).hi)
  {
    RegionAtWords(c, text, words, w);
    RegionInText(text, words, w);
    var r := Region(words, w);
    LookupFindsFirst(c.foreign, c.entities, c.foreign.lowercase(text[r.lo..r.hi]));
    hide AtWords, FirstNamed, AliasIndex, FindAlias, ByteLen, WidestFor, Named;
  }

  /** What the phase for single words says of word i. */
  lemma WordMeans(c: Canonicalizer, text: string, words: seq<Word>, chosen: seq<Window>, i: nat)
    requires IsWordList(c, text, words) && WellPlaced(text, words) && i < |words|
    ensures words[i].lo <= words[i].hi <= |text|
    ensures IsWord(c.foreign, text, words[i].lo, words[i].hi)
    ensures BestOfWord(c, text, words, i).1.Some? && Resolvable(c, text, words, chosen)(i) ==>
              FuzzyAt(c, text, FuzzyMatch(c, text, words, i), words[i].lo, words[i].hi)
    ensures BestOfWord(c, text, words, i).1.Some? && Suggestible(c, text, words, chosen)(i) ==>
              NearAt(c, text, NearMiss(c, text, words, i), words[i].lo, words[i].hi)
    ensures var best := BestOfWord(c, text, words, i);
            best.1.None? || best.0 < 0.5 ==> AllUnder(c, text[words[i].lo..words[i].hi], 0.5)
    ensures var best := BestOfWord(c, text, words, i);
            best.0 < c.threshold ==> AllUnder(c, text[words[i].lo..words[i].hi], c.threshold)
  {
    ExaminedIs(c, text, words, chosen, i);
    assert words[i] in words;
    RunIsWord(c, text, words[i]);
    var mention := text[words[i].lo..words[i].hi];
    BestMeans(c, mention, c.entities);
    var best := BestOfWord(c, text, words, i);
    assert best == BestFor(c, mention);
    assert Mentions(text, words[i].lo, words[i].hi, mention, ByteSpan(text, words[i]));
    hide Best, AliasIndex, IsWord, Resolvable, Suggestible, BestOfWord, FuzzyMatch, NearMiss, Mentions, Similarity;
    if best.1.Some? {
      BestBound(c, mention, best.0, best.1.value);
    } else {
      NothingBound(c, mention);
    }
  }

  lemma BestBound(c: Canonicalizer, mention: string, score: real, entity: Entity)
    requires IsBest(c, mention, c.entities, score, entity)
    ensures forall bound: real :: score < bound ==> AllUnder(c, mention, bound)
  {
    hide Similarity;
  }

  lemma NothingBound(c: Canonicalizer, mention: string)
    requires NothingAlike(c, mention, c.entities)
    ensures forall bound: real :: 0.0 < bound ==> AllUnder(c, mention, bound)
  {
    hide Similarity;
  }

  /** Main result for the matches: every match reported is either exact, a stretch from the start of a word
      to the end of one whose lower-case form is that of a name, with the first entity so named; or fuzzy,
      a single word of at least three bytes with the entity whose name resembles it most. */
  lemma MatchMeans(c: Canonicalizer, text: string, r: Result, m: Match)
    requires IsCanonicalized(c, text, Returned(r)) && m in r.matched
    ensures exists lo, hi :: ExactAt(c, text, m, lo, hi) || FuzzyAt(c, text, m, lo, hi)
  {
    hide *;
    var words, chosen := Witness(c, text, Returned(r));
    ResultParts(c, text, words, chosen, Returned(r));
    var exact, fuzzy := ExactMatches(c, text, words, chosen), FuzzyMatches(c, text, words, chosen, |words|);
    var k :| 0 <= k < |r.matched| && r.matched[k] == m;
    if k < |exact| {
      var w := chosen[k];
      assert w in chosen;
      InWindow(c, text, words, w);
      ExactMeans(c, text, words, w);
    } else {
      var i := FuzzyAtWord(c, text, words, chosen, k - |exact|);
      WordMeans(c, text, words, chosen, i);
    }
  }

  lemma InWindow(c: Canonicalizer, text: string, words: seq<Word>, w: Window)
    requires WellPlaced(text, words) && IsAliasWindow(c, text, words, w)
    ensures InWords(words, w) && 1 <= w.size && w.start + w.size <= |words|
  {
  }

  lemma FuzzyAtWord(c: Canonicalizer, text: string, words: seq<Word>, chosen: seq<Window>, k: nat) returns (i: nat)
    requires WellPlaced(text, words) && Safe(c, text, words, chosen, |words|)
    requires k < |FuzzyMatches(c, text, words, chosen, |words|)|
    ensures i < |words| && Resolvable(c, text, words, chosen)(i) && BestOfWord(c, text, words, i).1.Some?
    ensures FuzzyMatches(c, text, words, chosen, |words|)[k] == FuzzyMatch(c, text, words, i)
  {
    hide Resolvable, BestOfWord;
    var ids := Pick(|words|, Resolvable(c, text, words, chosen));
    i := ids[k];
    assert i in ids;
  }

  lemma NearAtWord(c: Canonicalizer, text: string, words: seq<Word>, chosen: seq<Window>, k: nat) returns (i: nat)
    requires WellPlaced(text, words) && k < |NearMisses(c, text, words, chosen, |words|)|
    ensures i < |words| && Suggestible(c, text, words, chosen)(i) && BestOfWord(c, text, words, i).1.Some?
    ensures NearMisses(c, text, words, chosen, |words|)[k] == NearMiss(c, text, words, i)
  {
    var ids := Pick(|words|, Suggestible(c, text, words, chosen));
    i := ids[k];
    assert i in ids;
  }

  /** Every suggestion is for a single word of at least three bytes, with the entity whose name resembles
      it most, at least by half but less than the threshold. */
  lemma SuggestionMeans(c: Canonicalizer, text: string, r: Result, u: Unresolved)
    requires IsCanonicalized(c, text, Returned(r)) && u in r.unresolved
    ensures exists lo, hi :: NearAt(c, text, u, lo, hi)
  {
    hide *;
    var words, chosen := Witness(c, text, Returned(r));
    ResultParts(c, text, words, chosen, Returned(r));
    var k :| 0 <= k < |r.unresolved| && r.unresolved[k] == u;
    var i := NearAtWord(c, text, words, chosen, k);
    WordMeans(c, text, words, chosen, i);
  }

  /** Main result for the words: every word of at least three bytes lies in an exact match, is a fuzzy match,
      gets a suggestion, or resembles no name by half nor by the threshold. */
  lemma WordAccounted(c: Canonicalizer, text: string, r: Result, lo: nat, hi: nat)
    requires IsCanonicalized(c, text, Returned(r))
    requires IsWord(c.foreign, text, lo, hi) && ByteLen(text[..hi]) - ByteLen(text[..lo]) >= 3
    ensures || (exists m, a: nat, b: nat :: m in r.matched && ExactAt(c, text, m, a, b) && a <= lo && hi <= b)
            || (exists m :: m in r.matched && FuzzyAt(c, text, m, lo, hi))
            || (exists u :: u in r.unresolved && NearAt(c, text, u, lo, hi))
            || (AllUnder(c, text[lo..hi], 0.5) && AllUnder(c, text[lo..hi], c.threshold))
  {
    var words, chosen := Witness(c, text, Returned(r));
    hide *;
    ResultParts(c, text, words, chosen, Returned(r));
    var i := IndexOfWord(c, text, words, lo, hi);
    WordMeans(c, text, words, chosen, i);
    WordCases(c, text, words, chosen, i);
    if Covers(chosen, i) {
      var w := CoveringWindow(chosen, i);
      var k :| 0 <= k < |chosen| && chosen[k] == w;
      InWindow(c, text, words, w);
      ExactMeans(c, text, words, w);
      RegionCovers(text, words, w, i);
      assert r.matched[k] == ExactMatch(c, text, words, w);
      assert r.matched[k] in r.matched;
    } else if Resolvable(c, text, words, chosen)(i) {
      var m := FuzzyListed(c, text, words, chosen, i);
      assert m in r.matched;
    } else if Suggestible(c, text, words, chosen)(i) {
      var u := NearListed(c, text, words, chosen, i);
    }
  }

  lemma IndexOfWord(c: Canonicalizer, text: string, words: seq<Word>, lo: nat, hi: nat) returns (i: nat)
    requires IsWordList(c, text, words) && IsWord(c.foreign, text, lo, hi)
    ensures i < |words| && words[i] == Word(lo, hi)
  {
    RunIsWord(c, text, Word(lo, hi));
    assert Word(lo, hi) in words;
    i :| 0 <= i < |words| && words[i] == Word(lo, hi);
  }

  lemma CoveringWindow(chosen: seq<Window>, i: nat) returns (w: Window)
    requires Covers(chosen, i)
    ensures w in chosen && w.start <= i < w.start + w.size
  {
    w :| w in chosen && w.start <= i < w.start + w.size;
  }

  lemma RegionCovers(text: string, words: seq<Word>, w: Window, i: nat)
    requires WellPlaced(text, words) && InWords(words, w) && w.start <= i < w.start + w.size
    ensures Region(words, w).lo <= words[i].lo && words[i].hi <= Region(words, w).hi
  {
    var a, b := words[w.start], words[w.start + w.size - 1];
    assert a in words && b in words && words[i] in words;
    assert w.start < i ==> Before(a, words[i]);
    assert i < w.start + w.size - 1 ==> Before(words[i], b);
  }

  /** A word of three bytes that no exact match covers. */
  lemma WordCases(c: Canonicalizer, text: string, words: seq<Word>, chosen: seq<Window>, i: nat)
    requires WellPlaced(text, words) && i < |words|
    ensures words[i].lo <= words[i].hi <= |text|
    ensures !Covers(chosen, i) && ByteLen(text[..words[i].hi]) - ByteLen(text[..words[i].lo]) >= 3
            && !Resolvable(c, text, words, chosen)(i) && !Suggestible(c, text, words, chosen)(i) ==>
              BestOfWord(c, text, words, i).0 < c.threshold && BestOfWord(c, text, words, i).0 < 0.5
  {
    ExaminedIs(c, text, words, chosen, i);
    hide BestFor, Covers, ByteLen, FuzzyMatch, NearMiss;
  }

  lemma FuzzyListed(c: Canonicalizer, text: string, words: seq<Word>, chosen: seq<Window>, i: nat) returns (m: Match)
    requires WellPlaced(text, words) && Safe(c, text, words, chosen, |words|)
    requires i < |words| && Resolvable(c, text, words, chosen)(i)
    ensures BestOfWord(c, text, words, i).1.Some? && m == FuzzyMatch(c, text, words, i)
    ensures m in FuzzyMatches(c, text, words, chosen, |words|)
  {
    hide Resolvable, BestOfWord;
    var ids := Pick(|words|, Resolvable(c, text, words, chosen));
    assert i in ids;
    var k :| 0 <= k < |ids| && ids[k] == i;
    m := FuzzyMatches(c, text, words, chosen, |words|)[k];
  }

  lemma NearListed(c: Canonicalizer, text: string, words: seq<Word>, chosen: seq<Window>, i: nat)
    returns (u: Unresolved)
    requires WellPlaced(text, words) && i < |words| && Suggestible(c, text, words, chosen)(i)
    ensures BestOfWord(c, text, words, i).1.Some? && u == NearMiss(c, text, words, i)
    ensures u in NearMisses(c, text, words, chosen, |words|)
  {
    var ids := Pick(|words|, Suggestible(c, text, words, chosen));
    assert i in ids;
    var k :| 0 <= k < |ids| && ids[k] == i;
    u := NearMisses(c, text, words, chosen, |words|)[k];
  }

  // ---- which exact matches are chosen

  /** Main result for the choice: every window whose text names an entity, and which is no wider than the
      widest name, is an exact match itself, or overlaps one that has more words, or as many and begins
      further left. */
  lemma ExactChoice(c: Canonicalizer, text: string, words: seq<Word>, r: Result, w: Window)
    requires IsCanonicalized(c, text, Returned(r)) && IsWordList(c, text, words)
    requires 1 <= w.size && w.start + w.size <= |words|
    requires exists e :: e in c.entities && Named(c.foreign, e, c.foreign.lowercase(TextOf(text, words, w)))
    requires SomeNameIsAsWide(c.foreign, c.entities, w.size)
    ensures exists v: Window, m ::
              && m in r.matched
              && 1 <= v.size && v.start + v.size <= |words|
              && ExactAt(c, text, m, words[v.start].lo, words[v.start + v.size - 1].hi)
              && v.start < w.start + w.size && w.start < v.start + v.size
              && (v.size > w.size || (v.size == w.size && v.start <= w.start))
  {
    hide *;
    var words', chosen := Witness(c, text, Returned(r));
    ResultParts(c, text, words', chosen, Returned(r));
    WordListUnique(c, text, words, words');
    AliasWindowMeans(c, text, words, w);
    var v := ChosenOver(c, text, words, chosen, w);
    InWindow(c, text, words, v);
    ExactMeans(c, text, words, v);
    var k :| 0 <= k < |chosen| && chosen[k] == v;
    RegionIs(words, v);
    var m := r.matched[k];
    assert m in r.matched && m == ExactMatch(c, text, words, v);
    assert ExactAt(c, text, m, words[v.start].lo, words[v.start + v.size - 1].hi);
  }

  lemma RegionIs(words: seq<Word>, v: Window)
    requires 1 <= v.size && v.start + v.size <= |words|
    ensures Region(words, v) == Word(words[v.start].lo, words[v.start + v.size - 1].hi)
  {
  }

  lemma ChosenOver(c: Canonicalizer, text: string, words: seq<Word>, chosen: seq<Window>, w: Window)
    returns (v: Window)
    requires WellPlaced(text, words) && Greedy(AliasWindows(c, text, words), chosen)
    requires w in AliasWindows(c, text, words) && w.size >= 1
    ensures v in chosen && v.start < w.start + w.size && w.start < v.start + v.size
    ensures v.size > w.size || (v.size == w.size && v.start <= w.start)
  {
    hide AliasWindows;
    if w in chosen {
      v := w;
    } else {
      v :| v in chosen && Overlap(v, w) && Precedes(v, w);
    }
  }

  // ---- one mention, and lengths

  /** Main result for one mention: it is resolved to the first entity so named; failing that, to the entity
      whose name resembles it most, if at least by the threshold; a suggestion needs half. */
  lemma ResolveOneMeans(c: Canonicalizer, mention: string)
    ensures var named := exists e :: e in c.entities && Named(c.foreign, e, c.foreign.lowercase(mention));
            match ResolveOneSpec(c, mention)
            case Returned(Some(m)) =>
              && m.mention == mention && m.span == (0, ByteLen(mention))
              && (if named then
                    m.kind == Exact
                    && exists i: nat ::
                         FirstNamed(c.foreign, c.entities, c.foreign.lowercase(mention), i) && m.entity == c.entities[i]
                  else
                    m.kind.Fuzzy? && m.kind.score >= c.threshold
                    && IsBest(c, mention, c.entities, m.kind.score, m.entity))
            case Returned(None) => !named && c.threshold > 0.0 && AllUnder(c, mention, c.threshold)
            case Panicked => !named && c.threshold <= 0.0 && NothingAlike(c, mention, c.entities)
    ensures match FindNearestSpec(c, mention)
            case Some(n) => n.score >= 0.5 && IsBest(c, mention, c.entities, n.score, n.entity)
            case None => AllUnder(c, mention, 0.5)
  {
    LookupFindsFirst(c.foreign, c.entities, c.foreign.lowercase(mention));
    BestMeans(c, mention, c.entities);
    hide AliasIndex, FindAlias, Best, Named, FirstNamed, ByteLen, Similarity, IsBest, NothingAlike, AllUnder;
    var best := BestFor(c, mention);
    if best.1.Some? {
      BestBound(c, mention, best.0, best.1.value);
      BestPositive(c, mention, best.0, best.1.value);
    } else {
      NothingBound(c, mention);
    }
  }

  lemma BestPositive(c: Canonicalizer, mention: string, score: real, entity: Entity)
    requires IsBest(c, mention, c.entities, score, entity)
    ensures score > 0.0
  {
  }

  /** A text takes one byte for each character, one more for each from U+0080 on, another for each from
      U+0800 on, and another for each from U+10000 on. */
  lemma {:induction false} ByteLenMeans(s: string, two: set<nat>, three: set<nat>, four: set<nat>)
    requires forall i: nat :: i in two <==> i < |s| && s[i] >= '\U{80}'
    requires forall i: nat :: i in three <==> i < |s| && s[i] >= '\U{800}'
    requires forall i: nat :: i in four <==> i < |s| && s[i] >= '\U{10000}'
    ensures ByteLen(s) == |s| + |two| + |three| + |four|
    decreases |s|
  {
    if s == "" {
      assert two == {} && three == {} && four == {};
    } else {
      var n := |s| - 1;
      ByteLenMeans(s[..n], two - {n}, three - {n}, four - {n});
    }
  }
}
