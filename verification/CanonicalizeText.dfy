/** `Canonicalizer::canonicalize`: both phases over a whole text, and how they relate to resolving one
    mention. */
module CanonicalizeText {
  import opened Options
  import opened Sorting
  import opened Windows
  import opened Canonicalize

  datatype Result = Result(matched: seq<Match>, unresolved: seq<Unresolved>)

  // ---- phase 1

  ghost predicate InWords(words: seq<Word>, w: Window)
  {
    1 <= w.size && w.start + w.size <= |words|
  }

  /** The stretch of text from the first to the last word of a window. */
  function Region(words: seq<Word>, w: Window): Word
    requires 1 <= w.size && w.start + w.size <= |words|
  {
    Word(words[w.start].lo, words[w.start + w.size - 1].hi)
  }

  ghost predicate WellPlaced(text: string, words: seq<Word>)
  {
    && Ascending(words, Before)
    && forall w :: w in words ==> w.lo < w.hi <= |text|
  }

  lemma RegionInText(text: string, words: seq<Word>, w: Window)
    requires WellPlaced(text, words) && InWords(words, w)
    ensures Region(words, w).lo < Region(words, w).hi <= |text|
  {
    var a, b := words[w.start], words[w.start + w.size - 1];
    assert a in words && b in words;
    if w.size > 1 {
      assert Before(a, b);
    }
  }

  ghost function Slice(text: string, w: Word): string
    requires w.lo <= w.hi <= |text|
  {
    text[w.lo..w.hi]
  }

  ghost function Lookup(c: Canonicalizer, text: string, words: seq<Word>, w: Window): Option<AliasEntry>
    requires WellPlaced(text, words) && InWords(words, w)
  {
    RegionInText(text, words, w);
    FindAlias(AliasIndex(c.foreign, c.entities), c.foreign.lowercase(Slice(text, Region(words, w))))
  }

  ghost function WidestFor(c: Canonicalizer, words: seq<Word>): nat
  {
    WidestWindow(AliasIndex(c.foreign, c.entities), words)
  }

  /** The windows, of the sizes tried, whose text is an alias. */
  ghost function AliasWindows(c: Canonicalizer, text: string, words: seq<Word>): (r: set<Window>)
    requires WellPlaced(text, words)
  {
    set start, size | 0 <= start <= |words| && 1 <= size <= WidestFor(c, words)
                      && InWords(words, Window(start, size))
                      && Lookup(c, text, words, Window(start, size)).Some? :: Window(start, size)
  }

  ghost predicate IsAliasWindow(c: Canonicalizer, text: string, words: seq<Word>, w: Window)
    requires WellPlaced(text, words)
  {
    w.size <= WidestFor(c, words) && InWords(words, w) && Lookup(c, text, words, w).Some?
  }

  lemma AliasWindowsAre(c: Canonicalizer, text: string, words: seq<Word>, w: Window)
    requires WellPlaced(text, words)
    ensures w in AliasWindows(c, text, words) <==> IsAliasWindow(c, text, words, w)
  {
    assert w == Window(w.start, w.size);
  }

  ghost function ExactMatch(c: Canonicalizer, text: string, words: seq<Word>, w: Window): Match
    requires WellPlaced(text, words) && IsAliasWindow(c, text, words, w)
  {
    RegionInText(text, words, w);
    var r := Region(words, w);
    Match(Slice(text, r), ByteSpan(text, r), Lookup(c, text, words, w).value.entity, Exact)
  }

  ghost function ExactMatches(c: Canonicalizer, text: string, words: seq<Word>, chosen: seq<Window>): (r: seq<Match>)
    requires WellPlaced(text, words)
    requires forall w :: w in chosen ==> IsAliasWindow(c, text, words, w)
    ensures |r| == |chosen|
    ensures forall i :: 0 <= i < |r| ==> r[i] == ExactMatch(c, text, words, chosen[i])
  {
    seq(|chosen|, i requires 0 <= i < |chosen| => ExactMatch(c, text, words, chosen[i]))
  }

  /** Phase 1 so far: the windows before the next one are decided, and the vectors say so. */
  ghost predicate Searched(c: Canonicalizer, text: string, words: seq<Word>, next: Window,
                           consumed: seq<bool>, matched: seq<Match>, chosen: seq<Window>)
    requires WellPlaced(text, words)
  {
    && Reached(AliasWindows(c, text, words), chosen, next)
    && (forall w :: w in chosen ==> IsAliasWindow(c, text, words, w))
    && matched == ExactMatches(c, text, words, chosen)
    && |consumed| == |words|
    && forall i: nat :: i < |words| ==> (consumed[i] <==> Covers(chosen, i))
  }

  /** Phase 1: windows from the widest to single words, left to right, skipping consumed words. */
  method ExactPhase(c: Canonicalizer, text: string, words: seq<Word>)
    returns (consumed: array<bool>, matched: seq<Match>, ghost chosen: seq<Window>)
    requires WellPlaced(text, words)
    ensures fresh(consumed) && consumed.Length == |words|
    ensures Greedy(AliasWindows(c, text, words), chosen)
    ensures forall w :: w in chosen ==> IsAliasWindow(c, text, words, w)
    ensures matched == ExactMatches(c, text, words, chosen)
    ensures forall i: nat :: i < |words| ==> (consumed[i] <==> Covers(chosen, i))
  {
    hide *;
    var aliases := BuildAliasIndex(c);
    consumed := new bool[|words|](_ => false);
    matched, chosen := [], [];
    var windowSize: nat := WidestWindow(aliases, words);
    StartSearch(c, text, words, consumed[..]);
    while windowSize >= 1
      invariant windowSize <= WidestFor(c, words) <= |words|
      invariant Searched(c, text, words, Window(0, windowSize), consumed[..], matched, chosen)
    {
      matched, chosen := TryWindows(c, text, words, aliases, windowSize, consumed, matched, chosen);
      windowSize := windowSize - 1;
    }
    SearchDone(c, text, words, consumed[..], matched, chosen);
  }

  /** Phase 1's inner loop: every window of one size, left to right. */
  method TryWindows(c: Canonicalizer, text: string, words: seq<Word>, aliases: seq<AliasEntry>, size: nat,
                    consumed: array<bool>, matched: seq<Match>, ghost chosen: seq<Window>)
    returns (matched': seq<Match>, ghost chosen': seq<Window>)
    requires WellPlaced(text, words) && aliases == AliasIndex(c.foreign, c.entities)
    requires 1 <= size <= WidestFor(c, words) <= |words| == consumed.Length
    requires Searched(c, text, words, Window(0, size), consumed[..], matched, chosen)
    modifies consumed
    ensures Searched(c, text, words, Window(0, size - 1), consumed[..], matched', chosen')
  {
    hide *;
    matched', chosen' := matched, chosen;
    var start: nat := 0;
    while start <= |words| - size
      invariant start <= |words| - size + 1
      invariant Searched(c, text, words, Window(start, size), consumed[..], matched', chosen')
    {
      matched', chosen' := TryWindow(c, text, words, aliases, start, size, consumed, matched', chosen');
      start := start + 1;
    }
    NextSize(c, text, words, size, consumed[..], matched', chosen');
  }

  /** The body of the inner loop, at one window. */
  method TryWindow(c: Canonicalizer, text: string, words: seq<Word>, aliases: seq<AliasEntry>, start: nat, size: nat,
                   consumed: array<bool>, matched: seq<Match>, ghost chosen: seq<Window>)
    returns (matched': seq<Match>, ghost chosen': seq<Window>)
    requires WellPlaced(text, words) && aliases == AliasIndex(c.foreign, c.entities)
    requires 1 <= size <= WidestFor(c, words) && start + size <= |words| == consumed.Length
    requires Searched(c, text, words, Window(start, size), consumed[..], matched, chosen)
    modifies consumed
    ensures Searched(c, text, words, Window(start + 1, size), consumed[..], matched', chosen')
  {
    hide *;
    matched', chosen' := matched, chosen;
    var w := Window(start, size);
    ghost var before := consumed[..];
    var busy := AnyConsumed(consumed, start, size);
    InRange(words, w);
    var region := Region(words, w);
    LookupIs(c, text, words, w);
    var candidate := text[region.lo..region.hi];
    var entry := FindAlias(aliases, c.foreign.lowercase(candidate));
    if busy || entry.None? {
      SkipSearched(c, text, words, w, before, matched, chosen);
    } else {
      matched' := matched + [Match(candidate, ByteSpan(text, region), entry.value.entity, Exact)];
      chosen' := chosen + [w];
      MarkConsumed(consumed, start, size);
      TakeSearched(c, text, words, w, before, consumed[..], matched, chosen);
    }
  }

  lemma InRange(words: seq<Word>, w: Window)
    ensures InWords(words, w) <==> 1 <= w.size && w.start + w.size <= |words|
  {
  }

  lemma LookupIs(c: Canonicalizer, text: string, words: seq<Word>, w: Window)
    requires WellPlaced(text, words) && InWords(words, w) && w.size <= WidestFor(c, words)
    ensures Region(words, w).lo < Region(words, w).hi <= |text|
    ensures var r := Region(words, w);
            && Lookup(c, text, words, w)
               == FindAlias(AliasIndex(c.foreign, c.entities), c.foreign.lowercase(text[r.lo..r.hi]))
            && (Lookup(c, text, words, w).Some? ==>
                  && IsAliasWindow(c, text, words, w)
                  && ExactMatch(c, text, words, w)
                     == Match(text[r.lo..r.hi], ByteSpan(text, r), Lookup(c, text, words, w).value.entity, Exact))
  {
    RegionInText(text, words, w);
  }

  lemma SkipSearched(c: Canonicalizer, text: string, words: seq<Word>, w: Window,
                     consumed: seq<bool>, matched: seq<Match>, chosen: seq<Window>)
    requires WellPlaced(text, words) && InWords(words, w) && w.size <= WidestFor(c, words)
    requires Searched(c, text, words, w, consumed, matched, chosen)
    requires Lookup(c, text, words, w).None? || exists i :: w.start <= i < w.start + w.size && consumed[i]
    ensures Searched(c, text, words, Window(w.start + 1, w.size), consumed, matched, chosen)
  {
    hide AliasWindows, Reached, ExactMatches, Covers;
    AliasWindowsAre(c, text, words, w);
    if Lookup(c, text, words, w).Some? {
      var i :| w.start <= i < w.start + w.size && consumed[i];
      assert Covers(chosen, i);
    }
    Skip(AliasWindows(c, text, words), chosen, w);
  }

  lemma TakeSearched(c: Canonicalizer, text: string, words: seq<Word>, w: Window,
                     consumed: seq<bool>, consumed': seq<bool>, matched: seq<Match>, chosen: seq<Window>)
    requires WellPlaced(text, words) && InWords(words, w) && w.size <= WidestFor(c, words)
    requires Searched(c, text, words, w, consumed, matched, chosen)
    requires Lookup(c, text, words, w).Some?
    requires forall i :: w.start <= i < w.start + w.size ==> !consumed[i]
    requires |consumed'| == |consumed|
    requires forall i :: 0 <= i < |consumed| ==> consumed'[i] == (consumed[i] || w.start <= i < w.start + w.size)
    ensures IsAliasWindow(c, text, words, w)
    ensures Searched(c, text, words, Window(w.start + 1, w.size), consumed',
                     matched + [ExactMatch(c, text, words, w)], chosen + [w])
  {
    hide AliasWindows, Reached, ExactMatches, Covers;
    AliasWindowsAre(c, text, words, w);
    Take(AliasWindows(c, text, words), chosen, w);
    MatchesStep(c, text, words, chosen, w);
  }

  lemma MatchesStep(c: Canonicalizer, text: string, words: seq<Word>, chosen: seq<Window>, w: Window)
    requires WellPlaced(text, words)
    requires forall v :: v in chosen ==> IsAliasWindow(c, text, words, v)
    requires IsAliasWindow(c, text, words, w)
    ensures ExactMatches(c, text, words, chosen + [w])
         == ExactMatches(c, text, words, chosen) + [ExactMatch(c, text, words, w)]
  {
  }

  lemma NextSize(c: Canonicalizer, text: string, words: seq<Word>, size: nat,
                 consumed: seq<bool>, matched: seq<Match>, chosen: seq<Window>)
    requires WellPlaced(text, words) && 1 <= size <= |words|
    requires Searched(c, text, words, Window(|words| - size + 1, size), consumed, matched, chosen)
    ensures Searched(c, text, words, Window(0, size - 1), consumed, matched, chosen)
  {
    forall w | w in AliasWindows(c, text, words)
      ensures Precedes(w, Window(0, size - 1)) ==> Precedes(w, Window(|words| - size + 1, size))
    {
      AliasWindowsAre(c, text, words, w);
    }
  }

  lemma SearchDone(c: Canonicalizer, text: string, words: seq<Word>,
                   consumed: seq<bool>, matched: seq<Match>, chosen: seq<Window>)
    requires WellPlaced(text, words)
    requires Searched(c, text, words, Window(0, 0), consumed, matched, chosen)
    ensures Greedy(AliasWindows(c, text, words), chosen)
    ensures forall w :: w in chosen ==> IsAliasWindow(c, text, words, w)
    ensures matched == ExactMatches(c, text, words, chosen)
    ensures forall i: nat :: i < |words| ==> (consumed[i] <==> Covers(chosen, i))
  {
    forall w | w in AliasWindows(c, text, words) ensures Precedes(w, Window(0, 0)) {
      AliasWindowsAre(c, text, words, w);
    }
  }

  lemma StartSearch(c: Canonicalizer, text: string, words: seq<Word>, consumed: seq<bool>)
    requires WellPlaced(text, words)
    requires |consumed| == |words| && forall i :: 0 <= i < |words| ==> !consumed[i]
    ensures WidestFor(c, words) == WidestWindow(AliasIndex(c.foreign, c.entities), words) <= |words|
    ensures Searched(c, text, words, Window(0, WidestFor(c, words)), consumed, [], [])
  {
    forall w | w in AliasWindows(c, text, words) ensures !Precedes(w, Window(0, WidestFor(c, words))) {
      AliasWindowsAre(c, text, words, w);
    }
  }

  method AnyConsumed(consumed: array<bool>, start: nat, size: nat) returns (r: bool)
    requires start + size <= consumed.Length
    ensures r <==> exists i :: start <= i < start + size && consumed[i]
  {
    for i := start to start + size
      invariant forall k :: start <= k < i ==> !consumed[k]
    {
      if consumed[i] {
        return true;
      }
    }
    return false;
  }

  method MarkConsumed(consumed: array<bool>, start: nat, size: nat)
    requires start + size <= consumed.Length
    modifies consumed
    ensures forall i :: 0 <= i < consumed.Length ==>
              consumed[i] == (old(consumed[i]) || start <= i < start + size)
  {
    for i := start to start + size
      invariant forall k :: 0 <= k < consumed.Length ==> consumed[k] == (old(consumed[k]) || start <= k < i)
    {
      consumed[i] := true;
    }
  }

  // ---- phase 2

  /** A word phase 2 looks at: left over by phase 1 and at least three bytes long. */
  ghost predicate Examined(text: string, words: seq<Word>, chosen: seq<Window>, i: nat)
    requires WellPlaced(text, words) && i < |words|
  {
    assert words[i] in words;
    !Covers(chosen, i) && Offset(text, words[i].hi) - Offset(text, words[i].lo) >= MIN_WORD_LEN
  }

  ghost function BestOfWord(c: Canonicalizer, text: string, words: seq<Word>, i: nat): (r: (real, Option<Entity>))
    requires WellPlaced(text, words) && i < |words|
    ensures r.0 > 0.0 ==> r.1.Some?
  {
    assert words[i] in words;
    BestIsFirstMaximum(c, AliasIndex(c.foreign, c.entities), Slice(text, words[i]));
    BestFor(c, Slice(text, words[i]))
  }

  /** The numbers below n that satisfy a condition, in order. */
  ghost function Pick(n: nat, sel: nat -> bool): (r: seq<nat>)
    ensures forall i: nat :: i in r <==> i < n && sel(i)
    ensures forall j, k :: 0 <= j < k < |r| ==> r[j] < r[k]
  {
    if n == 0 then []
    else
      var p := Pick(n - 1, sel);
      assert forall k :: 0 <= k < |p| ==> p[k] in p;
      p + (if sel(n - 1) then [n - 1] else [])
  }

  /** The words that phase 2 resolves. */
  ghost function Resolvable(c: Canonicalizer, text: string, words: seq<Word>, chosen: seq<Window>): nat -> bool
    requires WellPlaced(text, words)
  {
    (i: nat) => i < |words| && Examined(text, words, chosen, i) && BestOfWord(c, text, words, i).0 >= c.threshold
  }

  /** The words that get a suggestion only. */
  ghost function Suggestible(c: Canonicalizer, text: string, words: seq<Word>, chosen: seq<Window>): nat -> bool
    requires WellPlaced(text, words)
  {
    (i: nat) => i < |words| && Examined(text, words, chosen, i)
         && NEAREST_THRESHOLD <= BestOfWord(c, text, words, i).0 < c.threshold
  }

  ghost function FuzzyMatch(c: Canonicalizer, text: string, words: seq<Word>, i: nat): Match
    requires WellPlaced(text, words) && i < |words| && BestOfWord(c, text, words, i).1.Some?
  {
    assert words[i] in words;
    var best := BestOfWord(c, text, words, i);
    Match(Slice(text, words[i]), ByteSpan(text, words[i]), best.1.value, Fuzzy(best.0))
  }

  ghost function NearMiss(c: Canonicalizer, text: string, words: seq<Word>, i: nat): Unresolved
    requires WellPlaced(text, words) && i < |words| && BestOfWord(c, text, words, i).1.Some?
  {
    assert words[i] in words;
    var best := BestOfWord(c, text, words, i);
    Unresolved(Slice(text, words[i]), ByteSpan(text, words[i]), Nearest(best.1.value, best.0))
  }

  /** None of the first n words makes phase 2 unwrap a missing entity. */
  ghost predicate Safe(c: Canonicalizer, text: string, words: seq<Word>, chosen: seq<Window>, n: nat)
    requires WellPlaced(text, words) && n <= |words|
  {
    forall i: nat :: i < n && Resolvable(c, text, words, chosen)(i) ==> BestOfWord(c, text, words, i).1.Some?
  }

  ghost function FuzzyMatches(c: Canonicalizer, text: string, words: seq<Word>, chosen: seq<Window>,
                              n: nat): (r: seq<Match>)
    requires WellPlaced(text, words) && n <= |words| && Safe(c, text, words, chosen, n)
  {
    var ids := Pick(n, Resolvable(c, text, words, chosen));
    assert forall k :: 0 <= k < |ids| ==> ids[k] in ids;
    seq(|ids|, k requires 0 <= k < |ids| => FuzzyMatch(c, text, words, ids[k]))
  }

  ghost function NearMisses(c: Canonicalizer, text: string, words: seq<Word>, chosen: seq<Window>,
                            n: nat): (r: seq<Unresolved>)
    requires WellPlaced(text, words) && n <= |words|
  {
    var ids := Pick(n, Suggestible(c, text, words, chosen));
    assert forall k :: 0 <= k < |ids| ==> ids[k] in ids;
    seq(|ids|, k requires 0 <= k < |ids| => NearMiss(c, text, words, ids[k]))
  }

  lemma PhaseStep(c: Canonicalizer, text: string, words: seq<Word>, chosen: seq<Window>, i: nat)
    requires WellPlaced(text, words) && i < |words| && Safe(c, text, words, chosen, i)
    ensures Safe(c, text, words, chosen, i + 1)
            <==> (Resolvable(c, text, words, chosen)(i) ==> BestOfWord(c, text, words, i).1.Some?)
    ensures Safe(c, text, words, chosen, i + 1) ==>
            FuzzyMatches(c, text, words, chosen, i + 1) ==
            FuzzyMatches(c, text, words, chosen, i)
            + (if Resolvable(c, text, words, chosen)(i) then [FuzzyMatch(c, text, words, i)] else [])
    ensures NearMisses(c, text, words, chosen, i + 1) ==
            NearMisses(c, text, words, chosen, i)
            + (if Suggestible(c, text, words, chosen)(i) then [NearMiss(c, text, words, i)] else [])
  {
    hide Resolvable, Suggestible, BestOfWord;
  }

  /** What the two lists hold at word i, in terms of the word itself. */
  lemma ExaminedIs(c: Canonicalizer, text: string, words: seq<Word>, chosen: seq<Window>, i: nat)
    requires WellPlaced(text, words) && i < |words|
    ensures words[i].lo <= words[i].hi <= |text|
    ensures BestOfWord(c, text, words, i) == BestFor(c, text[words[i].lo..words[i].hi])
    ensures var word, span := text[words[i].lo..words[i].hi], ByteSpan(text, words[i]);
            var best := BestFor(c, word);
            var open := !Covers(chosen, i) && span.1 - span.0 >= MIN_WORD_LEN;
            && (best.0 > 0.0 ==> best.1.Some?)
            && (Resolvable(c, text, words, chosen)(i) <==> open && best.0 >= c.threshold)
            && (Suggestible(c, text, words, chosen)(i) <==> open && NEAREST_THRESHOLD <= best.0 < c.threshold)
            && (best.1.Some? ==>
                  && FuzzyMatch(c, text, words, i) == Match(word, span, best.1.value, Fuzzy(best.0))
                  && NearMiss(c, text, words, i) == Unresolved(word, span, Nearest(best.1.value, best.0)))
  {
    hide Best, AliasIndex;
    assert words[i] in words;
    assert BestOfWord(c, text, words, i) == BestFor(c, text[words[i].lo..words[i].hi]);
  }

  /** Phase 2 over the words phase 1 left. */
  method FuzzyPhase(c: Canonicalizer, text: string, words: seq<Word>, consumed: array<bool>, ghost chosen: seq<Window>)
    returns (r: Call<Result>)
    requires WellPlaced(text, words) && consumed.Length == |words|
    requires forall i: nat :: i < |words| ==> (consumed[i] <==> Covers(chosen, i))
    ensures r.Panicked? <==> !Safe(c, text, words, chosen, |words|)
    ensures r.Returned? ==> r.value.matched == FuzzyMatches(c, text, words, chosen, |words|)
    ensures r.Returned? ==> r.value.unresolved == NearMisses(c, text, words, chosen, |words|)
  {
    var matched, unresolved := [], [];
    for i := 0 to |words|
      invariant Safe(c, text, words, chosen, i)
      invariant matched == FuzzyMatches(c, text, words, chosen, i)
      invariant unresolved == NearMisses(c, text, words, chosen, i)
    {
      assert words[i] in words;
      PhaseStep(c, text, words, chosen, i);
      ExaminedIs(c, text, words, chosen, i);
      SafeBefore(c, text, words, chosen, i + 1);
      hide *;
      var span := ByteSpan(text, words[i]);
      if !consumed[i] && span.1 - span.0 >= MIN_WORD_LEN {
        var word := text[words[i].lo..words[i].hi];
        var bestScore, bestEntity := BestFuzzyMatch(c, word);
        if bestScore >= c.threshold {
          if bestEntity.None? {
            return Panicked;
          }
          matched := matched + [Match(word, span, bestEntity.value, Fuzzy(bestScore))];
        } else if bestScore >= NEAREST_THRESHOLD {
          unresolved := unresolved + [Unresolved(word, span, Nearest(bestEntity.value, bestScore))];
        }
      }
    }
    return Returned(Result(matched, unresolved));
  }

  lemma SafeBefore(c: Canonicalizer, text: string, words: seq<Word>, chosen: seq<Window>, n: nat)
    requires WellPlaced(text, words) && n <= |words|
    ensures Safe(c, text, words, chosen, |words|) ==> Safe(c, text, words, chosen, n)
  {
  }

  // ---- the whole call

  /** What canonicalize does with the words of a text and a greedy choice of alias windows. */
  ghost predicate IsResult(c: Canonicalizer, text: string, words: seq<Word>, chosen: seq<Window>, r: Call<Result>)
  {
    && IsWordList(c, text, words)
    && WellPlaced(text, words)
    && Greedy(AliasWindows(c, text, words), chosen)
    && (forall w :: w in chosen ==> IsAliasWindow(c, text, words, w))
    && r ==
       if Safe(c, text, words, chosen, |words|) then
         Returned(Result(
           ExactMatches(c, text, words, chosen) + FuzzyMatches(c, text, words, chosen, |words|),
           NearMisses(c, text, words, chosen, |words|)))
       else Panicked
  }

  /** r is an outcome of canonicalizing the text. */
  ghost predicate IsCanonicalized(c: Canonicalizer, text: string, r: Call<Result>)
  {
    exists words: seq<Word>, chosen: seq<Window> :: IsResult(c, text, words, chosen, r)
  }

  method CanonicalizeAll(c: Canonicalizer, text: string) returns (r: Call<Result>)
    ensures IsCanonicalized(c, text, r)
  {
    hide IsResult;
    if text == "" {
      NoWords(c, text);
      return Returned(Result([], []));
    }
    var words := ExtractWords(c, text);
    if words == [] {
      NoWords(c, text);
      return Returned(Result([], []));
    }
    WordsPlaced(c, text, words);
    var consumed, exact, chosen := ExactPhase(c, text, words);
    var fuzzy := FuzzyPhase(c, text, words, consumed, chosen);
    r := if fuzzy.Panicked? then Panicked
         else Returned(Result(exact + fuzzy.value.matched, fuzzy.value.unresolved));
    PhasesResult(c, text, words, chosen, fuzzy, r);
  }

  lemma WordsPlaced(c: Canonicalizer, text: string, words: seq<Word>)
    requires IsWordList(c, text, words)
    ensures WellPlaced(text, words)
  {
  }

  lemma PhasesResult(c: Canonicalizer, text: string, words: seq<Word>, chosen: seq<Window>, fuzzy: Call<Result>,
                     r: Call<Result>)
    requires IsWordList(c, text, words) && WellPlaced(text, words)
    requires Greedy(AliasWindows(c, text, words), chosen)
    requires forall w :: w in chosen ==> IsAliasWindow(c, text, words, w)
    requires fuzzy.Panicked? <==> !Safe(c, text, words, chosen, |words|)
    requires fuzzy.Returned? ==> fuzzy.value == Result(FuzzyMatches(c, text, words, chosen, |words|),
                                                       NearMisses(c, text, words, chosen, |words|))
    requires r == if fuzzy.Panicked? then Panicked
                  else Returned(Result(ExactMatches(c, text, words, chosen) + fuzzy.value.matched,
                                       fuzzy.value.unresolved))
    ensures IsResult(c, text, words, chosen, r)
  {
  }

  lemma NoWords(c: Canonicalizer, text: string)
    requires text == "" || IsWordList(c, text, [])
    ensures IsResult(c, text, [], [], Returned(Result([], [])))
  {
    hide *;
    EmptyText(c);
    WordsPlaced(c, text, []);
    NoWindows(c, text);
    NoMatches(c, text);
    assert ExactMatches(c, text, [], []) + [] == [];
    PhasesResult(c, text, [], [], Returned(Result([], [])), Returned(Result([], [])));
  }

  lemma EmptyText(c: Canonicalizer)
    ensures IsWordList(c, "", [])
  {
  }

  lemma NoMatches(c: Canonicalizer, text: string)
    requires WellPlaced(text, [])
    ensures Safe(c, text, [], [], 0) && ExactMatches(c, text, [], []) == []
    ensures FuzzyMatches(c, text, [], [], 0) == [] && NearMisses(c, text, [], [], 0) == []
  {
    hide Resolvable, Suggestible;
  }

  lemma NoWindows(c: Canonicalizer, text: string)
    ensures Greedy(AliasWindows(c, text, []), [])
  {
    forall w ensures w !in AliasWindows(c, text, []) {
      AliasWindowsAre(c, text, [], w);
    }
  }
}
