/** What a canonicalized text amounts to: one result per text, disjoint spans, and agreement with
    resolving a single mention. */
module CanonicalizeResults {
  import opened Options
  import opened Windows
  import opened Canonicalize
  import opened CanonicalizeText

  lemma Witness(c: Canonicalizer, text: string, r: Call<Result>) returns (words: seq<Word>, chosen: seq<Window>)
    requires IsCanonicalized(c, text, r)
    ensures IsResult(c, text, words, chosen, r)
  {
    hide IsResult;
    words, chosen :| IsResult(c, text, words, chosen, r);
  }

  /** Main result: the outcome is determined by the text, although it is described only by what a
      greedy choice must satisfy. */
  lemma ResultUnique(c: Canonicalizer, text: string, r: Call<Result>, r': Call<Result>)
    requires IsCanonicalized(c, text, r) && IsCanonicalized(c, text, r')
    ensures r == r'
  {
    hide *;
    var words, chosen := Witness(c, text, r);
    var words', chosen' := Witness(c, text, r');
    ResultParts(c, text, words', chosen', r');
    SameChoice(c, text, words, chosen, r, words', chosen');
    SameResult(c, text, words, chosen, r, r');
  }

  lemma SameChoice(c: Canonicalizer, text: string, words: seq<Word>, chosen: seq<Window>, r: Call<Result>,
                   words': seq<Word>, chosen': seq<Window>)
    requires IsResult(c, text, words, chosen, r)
    requires IsWordList(c, text, words') && WellPlaced(text, words') && Greedy(AliasWindows(c, text, words'), chosen')
    ensures words == words' && chosen == chosen'
  {
    hide AliasWindows, ExactMatches, FuzzyMatches, NearMisses, Greedy, Safe;
    WordListUnique(c, text, words, words');
    GreedyUnique(AliasWindows(c, text, words), chosen, chosen');
  }

  lemma SameResult(c: Canonicalizer, text: string, words: seq<Word>, chosen: seq<Window>, r: Call<Result>,
                   r': Call<Result>)
    requires IsResult(c, text, words, chosen, r) && IsResult(c, text, words, chosen, r')
    ensures r == r'
  {
    hide AliasWindows, ExactMatches, FuzzyMatches, NearMisses, Greedy, Safe;
  }

  // ---- when the call panics

  /** Word i, left over by the greedy choice and at least three bytes long, resembles no alias. */
  ghost predicate Stumbles(c: Canonicalizer, text: string, words: seq<Word>, chosen: seq<Window>, i: nat)
  {
    && IsWordList(c, text, words) && WellPlaced(text, words)
    && Greedy(AliasWindows(c, text, words), chosen)
    && i < |words| && Examined(text, words, chosen, i)
    && words[i].lo <= words[i].hi <= |text| && Unlike(c, text[words[i].lo..words[i].hi])
  }

  /** Main result: canonicalizing a text panics exactly when the threshold is not positive and some word
      that the exact matches leave over, of at least three bytes, resembles no alias at all. */
  lemma CanonicalizePanics(c: Canonicalizer, text: string, r: Call<Result>)
    requires IsCanonicalized(c, text, r)
    ensures r.Panicked? <==>
              c.threshold <= 0.0 && exists words, chosen, i: nat :: Stumbles(c, text, words, chosen, i)
  {
    hide *;
    var words, chosen := Witness(c, text, r);
    if r.Panicked? {
      var i := PanicWord(c, text, words, chosen, r);
    }
    forall words', chosen', i: nat | c.threshold <= 0.0 && Stumbles(c, text, words', chosen', i) ensures r.Panicked? {
      StumbleParts(c, text, words', chosen', i);
      SameChoice(c, text, words, chosen, r, words', chosen');
      StumblePanics(c, text, words, chosen, r, i);
    }
  }

  lemma PanicWord(c: Canonicalizer, text: string, words: seq<Word>, chosen: seq<Window>, r: Call<Result>)
    returns (i: nat)
    requires IsResult(c, text, words, chosen, r) && r.Panicked?
    ensures c.threshold <= 0.0 && Stumbles(c, text, words, chosen, i)
  {
    hide Greedy, AliasWindows, Best, AliasIndex, IsWordList, Unlike;
    i :| i < |words| && Resolvable(c, text, words, chosen)(i) && BestOfWord(c, text, words, i).1.None?;
    ExaminedIs(c, text, words, chosen, i);
    NothingToUnwrap(c, text[words[i].lo..words[i].hi]);
  }

  lemma StumbleParts(c: Canonicalizer, text: string, words: seq<Word>, chosen: seq<Window>, i: nat)
    requires Stumbles(c, text, words, chosen, i)
    ensures IsWordList(c, text, words) && WellPlaced(text, words) && Greedy(AliasWindows(c, text, words), chosen)
  {
  }

  lemma StumblePanics(c: Canonicalizer, text: string, words: seq<Word>, chosen: seq<Window>, r: Call<Result>, i: nat)
    requires IsResult(c, text, words, chosen, r)
    requires c.threshold <= 0.0 && Stumbles(c, text, words, chosen, i)
    ensures r.Panicked?
  {
    hide Greedy, AliasWindows, Best, AliasIndex, IsWordList, Unlike;
    ExaminedIs(c, text, words, chosen, i);
    NothingToUnwrap(c, text[words[i].lo..words[i].hi]);
    assert Resolvable(c, text, words, chosen)(i);
  }

  /** Such a call: no entities, a threshold of zero, and a text of three hyphens. */
  lemma PanicExample(f: Foreign)
    ensures IsCanonicalized(Canonicalizer([], 0.0, f), "---", Panicked)
  {
    var c, text := Canonicalizer([], 0.0, f), "---";
    var words, chosen: seq<Window> := [Word(0, 3)], [];
    SingleTokenList(c, text);
    assert AliasIndex(f, []) == [];
    assert ByteLen(text) == 3 && ByteLen("") == 0 by {
      assert text[..2] == "--" && "--"[..1] == "-" && "-"[..0] == "";
    }
    assert text[..3] == text && text[..0] == "";
    assert Examined(text, words, chosen, 0);
    assert Resolvable(c, text, words, chosen)(0);
    assert AliasWindows(c, text, words) == {};
    assert IsResult(c, text, words, chosen, Panicked);
  }

  // ---- spans

  lemma {:induction false} OffsetMonotone(text: string, i: nat, j: nat)
    requires i <= j <= |text|
    ensures Offset(text, i) <= Offset(text, j)
    ensures i < j ==> Offset(text, i) < Offset(text, j)
    decreases j
  {
    if i < j {
      OffsetMonotone(text, i, j - 1);
      assert text[..j][..j - 1] == text[..j - 1];
    }
  }

  ghost predicate Apart(a: (nat, nat), b: (nat, nat))
  {
    a.1 <= b.0 || b.1 <= a.0
  }

  ghost predicate WindowsApart(words: seq<Word>, all: seq<Window>)
  {
    && (forall w :: w in all ==> InWords(words, w))
    && forall i, j :: 0 <= i < j < |all| ==> !Overlap(all[i], all[j])
  }

  lemma RegionsApart(text: string, words: seq<Word>, v: Window, w: Window)
    requires WellPlaced(text, words) && InWords(words, v) && InWords(words, w) && !Overlap(v, w)
    ensures Region(words, v).lo < Region(words, v).hi <= |text| && Region(words, w).lo < Region(words, w).hi <= |text|
    ensures Apart(ByteSpan(text, Region(words, v)), ByteSpan(text, Region(words, w)))
  {
    RegionInText(text, words, v);
    RegionInText(text, words, w);
    if v.start < w.start {
      assert Before(words[v.start + v.size - 1], words[w.start]);
      OffsetMonotone(text, Region(words, v).hi, Region(words, w).lo);
    } else {
      assert Before(words[w.start + w.size - 1], words[v.start]);
      OffsetMonotone(text, Region(words, w).hi, Region(words, v).lo);
    }
  }

  /** The single words ids[0], ids[1], ... as windows. */
  ghost function Singles(ids: seq<nat>): (r: seq<Window>)
    ensures |r| == |ids| && forall k :: 0 <= k < |r| ==> r[k] == Window(ids[k], 1)
  {
    seq(|ids|, k requires 0 <= k < |ids| => Window(ids[k], 1))
  }

  /** The windows of all reported mentions: exact, fuzzy, then unresolved. */
  ghost function MentionWindows(c: Canonicalizer, text: string, words: seq<Word>, chosen: seq<Window>): seq<Window>
    requires WellPlaced(text, words)
  {
    chosen
    + Singles(Pick(|words|, Resolvable(c, text, words, chosen)))
    + Singles(Pick(|words|, Suggestible(c, text, words, chosen)))
  }

  ghost function Spans(r: Result): (s: seq<(nat, nat)>)
    ensures |s| == |r.matched| + |r.unresolved|
  {
    seq(|r.matched|, i requires 0 <= i < |r.matched| => r.matched[i].span)
    + seq(|r.unresolved|, i requires 0 <= i < |r.unresolved| => r.unresolved[i].span)
  }

  lemma MentionWindowsApart(c: Canonicalizer, text: string, words: seq<Word>, chosen: seq<Window>)
    requires WellPlaced(text, words) && Greedy(AliasWindows(c, text, words), chosen)
    requires forall w :: w in chosen ==> IsAliasWindow(c, text, words, w)
    ensures WindowsApart(words, MentionWindows(c, text, words, chosen))
  {
    hide AliasWindows, Resolvable, Suggestible, Lookup;
    var fuzzy := Pick(|words|, Resolvable(c, text, words, chosen));
    var near := Pick(|words|, Suggestible(c, text, words, chosen));
    forall i | i in fuzzy || i in near ensures i < |words| && !Covers(chosen, i) && !(i in fuzzy && i in near) {
      NotCovered(c, text, words, chosen, i);
    }
    SinglesApart(words, chosen, fuzzy);
    forall i | i in near ensures !Covers(chosen + Singles(fuzzy), i) {
      CoversSingles(chosen, fuzzy, i);
    }
    SinglesApart(words, chosen + Singles(fuzzy), near);
  }

  lemma CoversSingles(windows: seq<Window>, ids: seq<nat>, i: nat)
    requires !Covers(windows, i) && i !in ids
    ensures !Covers(windows + Singles(ids), i)
  {
  }

  /** Adding words that no window covers, each once, keeps the windows apart. */
  lemma {:induction false} SinglesApart(words: seq<Word>, windows: seq<Window>, ids: seq<nat>)
    requires WindowsApart(words, windows)
    requires forall j, k :: 0 <= j < k < |ids| ==> ids[j] < ids[k]
    requires forall i :: i in ids ==> i < |words| && !Covers(windows, i)
    ensures WindowsApart(words, windows + Singles(ids))
    decreases |ids|
  {
    if ids == [] {
      assert windows + Singles(ids) == windows;
    } else {
      var n := |ids| - 1;
      var init, last := ids[..n], Window(ids[n], 1);
      assert forall i :: i in init ==> i in ids;
      SinglesApart(words, windows, init);
      var all := windows + Singles(init);
      forall v | v in all ensures !Overlap(v, last) {
        if v in windows {
          assert ids[n] in ids;
          UncoveredApart(windows, v, ids[n]);
        }
      }
      assert ids[n] in ids;
      AddApart(words, all, last);
      assert windows + Singles(ids) == all + [last];
    }
  }

  lemma AddApart(words: seq<Word>, windows: seq<Window>, w: Window)
    requires WindowsApart(words, windows) && InWords(words, w)
    requires forall v :: v in windows ==> !Overlap(v, w)
    ensures WindowsApart(words, windows + [w])
  {
    hide InWords, Overlap;
  }

  lemma UncoveredApart(windows: seq<Window>, w: Window, i: nat)
    requires w in windows && !Covers(windows, i)
    ensures !Overlap(w, Window(i, 1))
  {
  }

  lemma NotCovered(c: Canonicalizer, text: string, words: seq<Word>, chosen: seq<Window>, i: nat)
    requires WellPlaced(text, words)
    requires i < |words| && (Resolvable(c, text, words, chosen)(i) || Suggestible(c, text, words, chosen)(i))
    ensures !Covers(chosen, i)
    ensures !(Resolvable(c, text, words, chosen)(i) && Suggestible(c, text, words, chosen)(i))
  {
  }

  /** The span of every reported mention is the byte range of its window. */
  lemma SpansAreRegions(c: Canonicalizer, text: string, words: seq<Word>, chosen: seq<Window>, r: Result, k: nat)
    requires IsResult(c, text, words, chosen, Returned(r))
    requires k < |Spans(r)|
    ensures |MentionWindows(c, text, words, chosen)| == |Spans(r)|
    ensures var w := MentionWindows(c, text, words, chosen)[k];
            && InWords(words, w)
            && Region(words, w).lo < Region(words, w).hi <= |text|
            && Spans(r)[k] == ByteSpan(text, Region(words, w))
  {
    hide AliasWindows, Resolvable, Suggestible, Greedy;
    var w := MentionWindows(c, text, words, chosen)[k];
    var fuzzy := Pick(|words|, Resolvable(c, text, words, chosen));
    var near := Pick(|words|, Suggestible(c, text, words, chosen));
    if k < |chosen| {
      assert w in chosen;
    } else if k < |chosen| + |fuzzy| {
      assert fuzzy[k - |chosen|] in fuzzy;
    } else {
      assert near[k - |chosen| - |fuzzy|] in near;
    }
    RegionInText(text, words, w);
  }

  /** Main result: the spans of all matched and unresolved mentions are pairwise disjoint byte ranges. */
  lemma SpansDisjoint(c: Canonicalizer, text: string, r: Result)
    requires IsCanonicalized(c, text, Returned(r))
    ensures forall k :: 0 <= k < |Spans(r)| ==> Spans(r)[k].0 < Spans(r)[k].1 <= ByteLen(text)
    ensures forall j, k :: 0 <= j < k < |Spans(r)| ==> Apart(Spans(r)[j], Spans(r)[k])
  {
    hide IsResult, IsCanonicalized, MentionWindows, Spans;
    var words, chosen := Witness(c, text, Returned(r));
    assert WellPlaced(text, words) && WindowsApart(words, MentionWindows(c, text, words, chosen)) by {
      ResultPlaced(c, text, words, chosen, r);
    }
    var all := MentionWindows(c, text, words, chosen);
    forall k | 0 <= k < |Spans(r)| ensures Spans(r)[k].0 < Spans(r)[k].1 <= ByteLen(text) {
      SpansAreRegions(c, text, words, chosen, r, k);
      OffsetMonotone(text, Region(words, all[k]).lo, Region(words, all[k]).hi);
      OffsetMonotone(text, Region(words, all[k]).hi, |text|);
      assert text[..|text|] == text;
    }
    forall j, k | 0 <= j < k < |Spans(r)| ensures Apart(Spans(r)[j], Spans(r)[k]) {
      SpansAreRegions(c, text, words, chosen, r, j);
      SpansAreRegions(c, text, words, chosen, r, k);
      RegionsApart(text, words, all[j], all[k]);
    }
  }

  lemma ResultPlaced(c: Canonicalizer, text: string, words: seq<Word>, chosen: seq<Window>, r: Result)
    requires IsResult(c, text, words, chosen, Returned(r))
    ensures WellPlaced(text, words) && WindowsApart(words, MentionWindows(c, text, words, chosen))
  {
    MentionWindowsApart(c, text, words, chosen);
  }

  // ---- a text that is one token

  ghost predicate SingleToken(c: Canonicalizer, text: string)
  {
    text != "" && forall i :: 0 <= i < |text| ==> IsWordChar(c, text[i])
  }

  lemma {:induction false} EntriesCounted(f: Foreign, e: Entity, names: seq<string>, x: AliasEntry)
    requires x in EntriesOf(f, e, names)
    ensures x.wordCount == WordCount(f, x.aliasLower)
    decreases |names|
  {
    if x in EntriesOf(f, e, names[..|names| - 1]) {
      EntriesCounted(f, e, names[..|names| - 1], x);
    }
  }

  lemma {:induction false} IndexCounted(f: Foreign, entities: seq<Entity>, x: AliasEntry)
    requires x in AliasIndex(f, entities)
    ensures x.wordCount == WordCount(f, x.aliasLower)
    decreases |entities|
  {
    var n := |entities| - 1;
    if x in AliasIndex(f, entities[..n]) {
      IndexCounted(f, entities[..n], x);
    } else {
      EntriesCounted(f, entities[n], Names(entities[n]), x);
    }
  }

  lemma SingleTokenList(c: Canonicalizer, text: string)
    requires SingleToken(c, text)
    ensures IsWordList(c, text, [Word(0, |text|)])
  {
    var only := [Word(0, |text|)];
    forall w ensures w in only <==> IsRun(c, text, w) {
      if IsRun(c, text, w) {
        assert w.lo == 0 && w.hi == |text|;
      }
    }
  }

  lemma SingleTokenWords(c: Canonicalizer, text: string, words: seq<Word>)
    requires SingleToken(c, text) && IsWordList(c, text, words)
    ensures words == [Word(0, |text|)]
  {
    SingleTokenList(c, text);
    WordListUnique(c, text, words, [Word(0, |text|)]);
  }

  ghost function ExactAlias(c: Canonicalizer, mention: string): Option<AliasEntry>
  {
    FindAlias(AliasIndex(c.foreign, c.entities), c.foreign.lowercase(mention))
  }

  lemma SingleTokenChoice(c: Canonicalizer, text: string, words: seq<Word>, chosen: seq<Window>)
    requires SingleToken(c, text) && IsWordList(c, text, words) && WellPlaced(text, words)
    requires WordCount(c.foreign, c.foreign.lowercase(text)) >= 1
    requires Greedy(AliasWindows(c, text, words), chosen)
    ensures words == [Word(0, |text|)]
    ensures chosen == if ExactAlias(c, text).Some? then [Window(0, 1)] else []
  {
    hide AliasIndex, FindAlias, MaxWordCount;
    SingleTokenWords(c, text, words);
    var index := AliasIndex(c.foreign, c.entities);
    var expected := if ExactAlias(c, text).Some? then [Window(0, 1)] else [];
    assert text[0..|text|] == text;
    if ExactAlias(c, text).Some? {
      var e := ExactAlias(c, text).value;
      IndexCounted(c.foreign, c.entities, e);
      assert WidestFor(c, words) == 1;
    }
    forall w ensures w in AliasWindows(c, text, words) <==> w in expected {
      AliasWindowsAre(c, text, words, w);
      if InWords(words, w) {
        assert w == Window(0, 1);
      }
    }
    GreedyUnique(AliasWindows(c, text, words), chosen, expected);
  }

  /** The matches a call reports. */
  ghost function MatchesOf(r: Call<Result>): Call<seq<Match>>
  {
    if r.Panicked? then Panicked else Returned(r.value.matched)
  }

  /** The matches a call resolving one mention reports. */
  ghost function Listed(r: Call<Option<Match>>): Call<seq<Match>>
  {
    if r.Panicked? then Panicked else Returned(if r.value.Some? then [r.value.value] else [])
  }

  /** Main result: on a text that is a single token (whose lower-case form holds a word), canonicalize
      does what resolve_one does, panics included, exactly when the token has at least three bytes, is
      an alias, or scores below the threshold; and a token of at least three bytes that stays unmatched
      carries find_nearest's suggestion. */
  lemma SingleTokenAgrees(c: Canonicalizer, text: string, r: Call<Result>)
    requires IsCanonicalized(c, text, r)
    requires SingleToken(c, text)
    requires WordCount(c.foreign, c.foreign.lowercase(text)) >= 1
    ensures MatchesOf(r) == Listed(ResolveOneSpec(c, text))
            <==> ByteLen(text) >= MIN_WORD_LEN || ExactAlias(c, text).Some? || BestFor(c, text).0 < c.threshold
    ensures ByteLen(text) >= MIN_WORD_LEN && ResolveOneSpec(c, text) == Returned(None)
            ==> r == Returned(Result([], Suggested(text, FindNearestSpec(c, text))))
  {
    hide *;
    var words, chosen := Witness(c, text, r);
    TokenResult(c, text, words, chosen, r);
    MentionCases(c, text);
    CasesAgree(c, text, r);
  }

  /** Functions under which "ax" is halfway between nothing and "ab", as edit distance has it. */
  ghost function Halfway(): Foreign
  {
    Foreign((ch: char) => true, (ch: char) => false, (s: string) => s,
            (s: string, t: string) => if s == t then 1.0 else 0.5)
  }

  /** The two do differ: with an entity "ab" and a threshold of one half, resolving the mention "ax"
      finds a fuzzy match, and canonicalizing the text "ax" finds none. */
  lemma ShortTokenDiffers(c: Canonicalizer, text: string, r: Call<Result>)
    requires c == Canonicalizer([Entity("t", "ab", [])], 0.5, Halfway()) && text == "ax"
    requires IsCanonicalized(c, text, r)
    ensures MatchesOf(r) != Listed(ResolveOneSpec(c, text))
  {
    OneAlias(c.foreign, c.entities[0]);
    OneWord(text);
    BestOfOne(c, text);
    assert c.foreign.lowercase(text) == text && c.foreign.lowercase("ab") == "ab" != text;
    assert ByteLen(text) == 2 by {
      assert text[..1] == "a" && "a"[..0] == "";
    }
    assert SingleToken(c, text);
    assert ByteLen(text) < MIN_WORD_LEN && ExactAlias(c, text).None? && BestFor(c, text).0 >= c.threshold;
    hide *;
    SingleTokenAgrees(c, text, r);
  }

  lemma OneAlias(f: Foreign, e: Entity)
    requires e.aliases == []
    ensures AliasIndex(f, [e]) == [EntryFor(f, e.canonical, e)]
  {
    var names := [e.canonical];
    assert Names(e) == names && names[..0] == [] && EntriesOf(f, e, []) == [];
    assert EntriesOf(f, e, names) == [EntryFor(f, e.canonical, e)];
    assert [e][..0] == [] && AliasIndex(f, []) == [];
  }

  lemma {:induction false} OneWord(text: string)
    requires text != ""
    ensures WordCount(Halfway(), text) >= 1
  {
    if |text| > 1 {
      OneWord(text[1..]);
    }
  }

  lemma BestOfOne(c: Canonicalizer, mention: string)
    requires |AliasIndex(c.foreign, c.entities)| == 1
    ensures var e := AliasIndex(c.foreign, c.entities)[0];
            && BestFor(c, mention).0 == (if Score(c, e, mention) > 0.0 then Score(c, e, mention) else 0.0)
            && (ExactAlias(c, mention).None? <==> e.aliasLower != c.foreign.lowercase(mention))
  {
    var index := AliasIndex(c.foreign, c.entities);
    hide AliasIndex, Score;
    assert index[..0] == [] && Best(c, [], mention) == (0.0, None);
    assert index[0] in index;
  }

  ghost function Suggested(text: string, nearest: Option<Nearest>): seq<Unresolved>
  {
    if nearest.Some? then [Unresolved(text, (0, ByteLen(text)), nearest.value)] else []
  }

  ghost predicate IsTokenResult(c: Canonicalizer, text: string, r: Call<Result>)
  {
    var best, span := BestFor(c, text), (0, ByteLen(text));
    var long := ByteLen(text) >= MIN_WORD_LEN;
    && (best.0 > 0.0 ==> best.1.Some?)
    && r == if ExactAlias(c, text).Some? then
              Returned(Result([Match(text, span, ExactAlias(c, text).value.entity, Exact)], []))
            else if long && best.0 >= c.threshold then
              (if best.1.None? then Panicked
               else Returned(Result([Match(text, span, best.1.value, Fuzzy(best.0))], [])))
            else if long && best.0 >= NEAREST_THRESHOLD then
              Returned(Result([], [Unresolved(text, span, Nearest(best.1.value, best.0))]))
            else Returned(Result([], []))
  }

  /** What resolve_one and find_nearest do, case by case. */
  ghost predicate AreMentionCases(c: Canonicalizer, text: string)
  {
    var best := BestFor(c, text);
    && (best.0 > 0.0 ==> best.1.Some?)
    && ResolveOneSpec(c, text) ==
       (if ExactAlias(c, text).Some? then
          Returned(Some(Match(text, (0, ByteLen(text)), ExactAlias(c, text).value.entity, Exact)))
        else if best.0 < c.threshold then Returned(None)
        else if best.1.None? then Panicked
        else Returned(Some(Match(text, (0, ByteLen(text)), best.1.value, Fuzzy(best.0)))))
    && FindNearestSpec(c, text) ==
       (if best.0 >= NEAREST_THRESHOLD then Some(Nearest(best.1.value, best.0)) else None)
  }

  lemma CasesAgree(c: Canonicalizer, text: string, r: Call<Result>)
    requires IsTokenResult(c, text, r) && AreMentionCases(c, text)
    ensures MatchesOf(r) == Listed(ResolveOneSpec(c, text))
            <==> ByteLen(text) >= MIN_WORD_LEN || ExactAlias(c, text).Some? || BestFor(c, text).0 < c.threshold
    ensures ByteLen(text) >= MIN_WORD_LEN && ResolveOneSpec(c, text) == Returned(None)
            ==> r == Returned(Result([], Suggested(text, FindNearestSpec(c, text))))
  {
    hide ResolveOneSpec, FindNearestSpec, BestFor, ExactAlias, ByteLen;
  }

  lemma MentionCases(c: Canonicalizer, text: string)
    ensures AreMentionCases(c, text)
  {
    hide AliasIndex, Best, FindAlias, ByteLen;
    BestIsFirstMaximum(c, AliasIndex(c.foreign, c.entities), text);
  }

  /** What canonicalize does with a single token. */
  lemma TokenResult(c: Canonicalizer, text: string, words: seq<Word>, chosen: seq<Window>, r: Call<Result>)
    requires IsResult(c, text, words, chosen, r)
    requires SingleToken(c, text)
    requires WordCount(c.foreign, c.foreign.lowercase(text)) >= 1
    ensures IsTokenResult(c, text, r)
  {
    hide *;
    ResultParts(c, text, words, chosen, r);
    SingleTokenChoice(c, text, words, chosen);
    TokenMatches(c, text, words, chosen);
    TokenParts(c, text, words, chosen, r);
  }

  lemma ResultParts(c: Canonicalizer, text: string, words: seq<Word>, chosen: seq<Window>, r: Call<Result>)
    requires IsResult(c, text, words, chosen, r)
    ensures IsWordList(c, text, words) && WellPlaced(text, words) && Greedy(AliasWindows(c, text, words), chosen)
    ensures forall w :: w in chosen ==> IsAliasWindow(c, text, words, w)
    ensures r ==
            if Safe(c, text, words, chosen, |words|) then
              Returned(Result(
                ExactMatches(c, text, words, chosen) + FuzzyMatches(c, text, words, chosen, |words|),
                NearMisses(c, text, words, chosen, |words|)))
            else Panicked
  {
    hide AliasWindows, ExactMatches, FuzzyMatches, NearMisses, Greedy, IsWordList, WellPlaced, IsAliasWindow, Safe;
  }

  /** The parts of the outcome for a single token. */
  ghost predicate AreTokenMatches(c: Canonicalizer, text: string, words: seq<Word>, chosen: seq<Window>)
    requires WellPlaced(text, words) && |words| == 1
    requires forall w :: w in chosen ==> IsAliasWindow(c, text, words, w)
  {
    var best, span := BestFor(c, text), (0, ByteLen(text));
    var open := ExactAlias(c, text).None? && ByteLen(text) >= MIN_WORD_LEN;
    && (best.0 > 0.0 ==> best.1.Some?)
    && ExactMatches(c, text, words, chosen)
       == (if ExactAlias(c, text).Some? then [Match(text, span, ExactAlias(c, text).value.entity, Exact)] else [])
    && (Safe(c, text, words, chosen, 1) <==> (open && best.0 >= c.threshold ==> best.1.Some?))
    && (Safe(c, text, words, chosen, 1) ==>
          FuzzyMatches(c, text, words, chosen, 1)
          == (if open && best.0 >= c.threshold then [Match(text, span, best.1.value, Fuzzy(best.0))] else []))
    && NearMisses(c, text, words, chosen, 1)
       == (if open && NEAREST_THRESHOLD <= best.0 < c.threshold
           then [Unresolved(text, span, Nearest(best.1.value, best.0))] else [])
  }

  lemma {:induction false} TokenParts(c: Canonicalizer, text: string, words: seq<Word>, chosen: seq<Window>,
                                      r: Call<Result>)
    requires WellPlaced(text, words) && |words| == 1
    requires forall w :: w in chosen ==> IsAliasWindow(c, text, words, w)
    requires AreTokenMatches(c, text, words, chosen)
    requires r ==
             if Safe(c, text, words, chosen, 1) then
               Returned(Result(
                 ExactMatches(c, text, words, chosen) + FuzzyMatches(c, text, words, chosen, 1),
                 NearMisses(c, text, words, chosen, 1)))
             else Panicked
    ensures IsTokenResult(c, text, r)
  {
    hide ExactMatches, FuzzyMatches, NearMisses, Safe, BestFor, ExactAlias, ByteLen, WellPlaced, IsAliasWindow;
    if Safe(c, text, words, chosen, 1) {
      var exact, fuzzy := ExactMatches(c, text, words, chosen), FuzzyMatches(c, text, words, chosen, 1);
      assert exact + [] == exact && [] + fuzzy == fuzzy;
    }
  }

  lemma TokenMatches(c: Canonicalizer, text: string, words: seq<Word>, chosen: seq<Window>)
    requires WellPlaced(text, words) && words == [Word(0, |text|)]
    requires chosen == if ExactAlias(c, text).Some? then [Window(0, 1)] else []
    requires forall w :: w in chosen ==> IsAliasWindow(c, text, words, w)
    ensures AreTokenMatches(c, text, words, chosen)
  {
    hide AliasIndex, Best, FindAlias, ByteLen, Pick, Resolvable, Suggestible;
    assert text[0..|text|] == text && text[..|text|] == text && text[..0] == "";
    EmptyBytes();
    TokenPicks(c, text, words, chosen);
    assert BestOfWord(c, text, words, 0) == BestFor(c, text);
    if chosen != [] {
      assert chosen[0] == Window(0, 1);
    }
  }

  lemma {:induction false} TokenPicks(c: Canonicalizer, text: string, words: seq<Word>, chosen: seq<Window>)
    requires WellPlaced(text, words) && words == [Word(0, |text|)]
    requires chosen == [Window(0, 1)] || chosen == []
    ensures var best := BestFor(c, text).0;
            var open := chosen == [] && ByteLen(text) >= MIN_WORD_LEN;
            && (Resolvable(c, text, words, chosen)(0) <==> open && best >= c.threshold)
            && Pick(1, Resolvable(c, text, words, chosen)) == (if open && best >= c.threshold then [0] else [])
            && Pick(1, Suggestible(c, text, words, chosen))
               == (if open && NEAREST_THRESHOLD <= best < c.threshold then [0] else [])
  {
    hide AliasIndex, Best, ByteLen, Pick;
    assert text[0..|text|] == text && text[..|text|] == text && text[..0] == "";
    EmptyBytes();
    assert Covers(chosen, 0) <==> chosen != [] by {
      if chosen != [] {
        assert Window(0, 1) in chosen;
      }
    }
    PickOne(Resolvable(c, text, words, chosen));
    PickOne(Suggestible(c, text, words, chosen));
    assert BestOfWord(c, text, words, 0) == BestFor(c, text);
  }

  lemma EmptyBytes()
    ensures ByteLen("") == 0
  {
  }

  lemma PickOne(sel: nat -> bool)
    ensures Pick(1, sel) == if sel(0) then [0] else []
  {
    assert Pick(0, sel) == [];
  }
}
