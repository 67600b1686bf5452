/** Texts that are a name from end to end: one exact match and nothing else, however many words the name
    has. */
module CanonicalizeWhole {
  import opened Options
  import opened Sorting
  import opened Windows
  import opened Canonicalize
  import opened CanonicalizeText
  import opened CanonicalizeResults
  import opened CanonicalizeNames
  import opened CanonicalizeMeaning

  /** Position i is the last of a word. */
  ghost predicate EndsWord(f: Foreign, text: string, i: nat)
  {
    i < |text| && WordLike(f, text[i]) && (i + 1 < |text| ==> !WordLike(f, text[i + 1]))
  }

  /** One position for each word of the text. */
  ghost function WordEnds(f: Foreign, text: string): set<nat>
  {
    set i | 0 <= i < |text| && EndsWord(f, text, i)
  }

  // ---- the words of the text

  lemma {:induction false} WordEndingAt(f: Foreign, text: string, i: nat, lo: nat) returns (w: Word)
    requires lo <= i && EndsWord(f, text, i) && forall k :: lo <= k <= i ==> WordLike(f, text[k])
    ensures w.hi == i + 1 && IsWord(f, text, w.lo, w.hi)
    decreases lo
  {
    hide WordLike;
    if lo > 0 && WordLike(f, text[lo - 1]) {
      w := WordEndingAt(f, text, i, lo - 1);
    } else {
      w := Word(lo, i + 1);
    }
  }

  lemma {:induction false} WordFrom(f: Foreign, text: string, i: nat) returns (w: Word)
    requires i < |text| && forall k :: 0 <= k <= i ==> WordLike(f, text[k])
    ensures w.lo == 0 && IsWord(f, text, w.lo, w.hi)
    decreases |text| - i
  {
    hide WordLike;
    if i + 1 < |text| && WordLike(f, text[i + 1]) {
      w := WordFrom(f, text, i + 1);
    } else {
      w := Word(0, i + 1);
    }
  }

  lemma {:induction false} EndsCounted(words: seq<Word>, ends: set<nat>)
    requires Ascending(words, Before)
    requires forall w :: w in words ==> w.lo < w.hi
    requires forall i: nat :: i in ends <==> exists w :: w in words && w.hi == i + 1
    ensures |words| == |ends|
    decreases |words|
  {
    if words == [] {
      assert ends == {};
    } else {
      var n := |words| - 1;
      var init, last := words[..n], words[n];
      assert words == init + [last];
      forall w | w in init ensures w.hi < last.hi {
        var k :| 0 <= k < n && init[k] == w;
        assert Before(words[k], words[n]);
      }
      assert last.hi - 1 in ends;
      var rest := ends - {last.hi - 1};
      forall i: nat ensures i in rest <==> exists w :: w in init && w.hi == i + 1 {
        if i in rest {
          var w :| w in words && w.hi == i + 1;
          assert w in init;
        }
        if w :| w in init && w.hi == i + 1 {
          assert w in words;
        }
      }
      EndsCounted(init, rest);
    }
  }

  lemma WordsCounted(c: Canonicalizer, text: string, words: seq<Word>)
    requires IsWordList(c, text, words)
    ensures |words| == |WordEnds(c.foreign, text)|
  {
    var f, ends := c.foreign, WordEnds(c.foreign, text);
    forall w ensures w in words <==> IsWord(f, text, w.lo, w.hi) {
      RunIsWord(c, text, w);
    }
    forall i: nat ensures i in ends <==> exists w :: w in words && w.hi == i + 1 {
      if i in ends {
        var w := WordEndingAt(f, text, i, i);
        assert w in words;
      }
      if w :| w in words && w.hi == i + 1 {
        assert IsWord(f, text, w.lo, w.hi);
      }
    }
    hide IsWord, WordEnds;
    assert forall w :: w in words ==> IsRun(c, text, w);
    EndsCounted(words, ends);
  }

  /** The first word begins the text and the last one ends it. */
  lemma WordsReach(c: Canonicalizer, text: string, words: seq<Word>)
    requires IsWordList(c, text, words)
    requires text != "" && WordLike(c.foreign, text[0]) && WordLike(c.foreign, text[|text| - 1])
    ensures words != [] && words[0].lo == 0 && words[|words| - 1].hi == |text|
  {
    hide WordLike;
    var first := WordFrom(c.foreign, text, 0);
    var last := WordEndingAt(c.foreign, text, |text| - 1, |text| - 1);
    RunIsWord(c, text, first);
    RunIsWord(c, text, last);
    hide IsWord;
    assert first in words && last in words;
    var i :| 0 <= i < |words| && words[i] == first;
    var j :| 0 <= j < |words| && words[j] == last;
    assert IsRun(c, text, words[0]) && IsRun(c, text, words[|words| - 1]) by {
      assert words[0] in words && words[|words| - 1] in words;
    }
    assert forall k :: 0 < k < |words| ==> Before(words[0], words[k]);
    assert forall k :: 0 <= k < |words| - 1 ==> Before(words[k], words[|words| - 1]);
  }

  // ---- the choice

  lemma WholeIsGreedy(candidates: set<Window>, whole: Window)
    requires whole in candidates && whole.start == 0 && whole.size >= 1
    requires forall w :: w in candidates ==> w.size >= 1 && w.start + w.size <= whole.size
    ensures Greedy(candidates, [whole])
  {
    forall w | w in candidates && w !in [whole] ensures Blocked(w, [whole]) {
      assert w != whole;
      assert whole in [whole] && Overlap(whole, w) && Precedes(whole, w);
    }
  }

  lemma WholeChosen(c: Canonicalizer, text: string, words: seq<Word>, chosen: seq<Window>)
    requires IsWordList(c, text, words) && WellPlaced(text, words)
    requires Greedy(AliasWindows(c, text, words), chosen)
    requires text != "" && WordLike(c.foreign, text[0]) && WordLike(c.foreign, text[|text| - 1])
    requires exists e :: e in c.entities && Named(c.foreign, e, c.foreign.lowercase(text))
    requires SomeNameIsAsWide(c.foreign, c.entities, |WordEnds(c.foreign, text)|)
    ensures chosen == [Window(0, |words|)]
    ensures |words| >= 1 && Region(words, Window(0, |words|)) == Word(0, |text|)
  {
    var whole := Window(0, |words|);
    WordsReach(c, text, words);
    WordsCounted(c, text, words);
    assert text[0..|text|] == text;
    assert TextOf(text, words, whole) == text;
    AliasWindowMeans(c, text, words, whole);
    forall w | w in AliasWindows(c, text, words) ensures w.size >= 1 && w.start + w.size <= whole.size {
      AliasWindowMeans(c, text, words, w);
    }
    hide *;
    WholeIsGreedy(AliasWindows(c, text, words), whole);
    GreedyUnique(AliasWindows(c, text, words), chosen, [whole]);
  }

  // ---- the result

  lemma {:induction false} NothingPicked(n: nat, sel: nat -> bool)
    requires forall i: nat :: i < n ==> !sel(i)
    ensures Pick(n, sel) == []
  {
    if n > 0 {
      NothingPicked(n - 1, sel);
    }
  }

  lemma NothingLeft(c: Canonicalizer, text: string, words: seq<Word>)
    requires WellPlaced(text, words)
    ensures var chosen := [Window(0, |words|)];
            && Safe(c, text, words, chosen, |words|)
            && FuzzyMatches(c, text, words, chosen, |words|) == []
            && NearMisses(c, text, words, chosen, |words|) == []
  {
    var chosen := [Window(0, |words|)];
    hide BestOfWord, Pick;
    forall i: nat | i < |words| ensures Covers(chosen, i) {
      assert chosen[0] in chosen;
    }
    NothingPicked(|words|, Resolvable(c, text, words, chosen));
    NothingPicked(|words|, Suggestible(c, text, words, chosen));
  }

  /** Main result: a text that begins and ends with a word, is the name of an entity up to case, and has no
      more words than the widest name has parts, yields exactly one match, of the whole text, with the
      first entity of that name. */
  lemma WholeNameMatches(c: Canonicalizer, text: string, r: Call<Result>)
    requires IsCanonicalized(c, text, r)
    requires text != "" && WordLike(c.foreign, text[0]) && WordLike(c.foreign, text[|text| - 1])
    requires exists e :: e in c.entities && Named(c.foreign, e, c.foreign.lowercase(text))
    requires SomeNameIsAsWide(c.foreign, c.entities, |WordEnds(c.foreign, text)|)
    ensures exists i: nat ::
              && FirstNamed(c.foreign, c.entities, c.foreign.lowercase(text), i)
              && r == Returned(Result([Match(text, (0, ByteLen(text)), c.entities[i], Exact)], []))
  {
    hide *;
    var words, chosen := Witness(c, text, r);
    ResultParts(c, text, words, chosen, r);
    WholeChosen(c, text, words, chosen);
    NothingLeft(c, text, words);
    assert chosen[0] in chosen;
    ExactMeans(c, text, words, chosen[0]);
    WholeMatch(c, text, ExactMatch(c, text, words, chosen[0]));
    assert ExactMatches(c, text, words, chosen) == [ExactMatch(c, text, words, chosen[0])];
    var exact := ExactMatches(c, text, words, chosen);
    assert exact + [] == exact;
  }

  lemma WholeMatch(c: Canonicalizer, text: string, m: Match)
    requires ExactAt(c, text, m, 0, |text|)
    ensures exists i: nat ::
              && FirstNamed(c.foreign, c.entities, c.foreign.lowercase(text), i)
              && m == Match(text, (0, ByteLen(text)), c.entities[i], Exact)
  {
    hide AtWords, FirstNamed, Named;
    assert text[0..|text|] == text && text[..|text|] == text;
    assert ByteLen(text[..0]) == 0 by {
      EmptyBytes();
      assert text[..0] == "";
    }
  }

  /** In particular two words with one space between them that spell a name of two parts, in whatever case,
      are one exact match. */
  lemma TwoWordName(c: Canonicalizer, first: string, second: string, e: Entity, name: string, r: Call<Result>)
    requires IsCanonicalized(c, first + " " + second, r)
    requires first != "" && (forall i :: 0 <= i < |first| ==> WordLike(c.foreign, first[i]))
    requires second != "" && (forall i :: 0 <= i < |second| ==> WordLike(c.foreign, second[i]))
    requires !WordLike(c.foreign, ' ')
    requires e in c.entities && (name == e.canonical || name in e.aliases)
    requires c.foreign.lowercase(name) == c.foreign.lowercase(first + " " + second)
    requires |PartEnds(c.foreign, c.foreign.lowercase(name))| >= 2
    ensures exists i: nat ::
              && FirstNamed(c.foreign, c.entities, c.foreign.lowercase(name), i)
              && r == Returned(Result([Match(first + " " + second, (0, ByteLen(first + " " + second)),
                                             c.entities[i], Exact)], []))
  {
    var text, f := first + " " + second, c.foreign;
    TwoWords(f, first, second);
    assert HasName(e, name);
    assert Named(f, e, f.lowercase(text));
    assert SomeNameIsAsWide(f, c.entities, |WordEnds(f, text)|);
    hide *;
    WholeNameMatches(c, text, r);
  }

  lemma TwoWords(f: Foreign, first: string, second: string)
    requires first != "" && (forall i :: 0 <= i < |first| ==> WordLike(f, first[i]))
    requires second != "" && (forall i :: 0 <= i < |second| ==> WordLike(f, second[i]))
    requires !WordLike(f, ' ')
    ensures var text := first + " " + second;
            |WordEnds(f, text)| == 2 && WordLike(f, text[0]) && WordLike(f, text[|text| - 1])
  {
    var text, n := first + " " + second, |first|;
    hide WordLike;
    assert forall i :: 0 <= i < n ==> text[i] == first[i];
    assert text[n] == ' ';
    assert forall i :: n < i < |text| ==> text[i] == second[i - n - 1];
    assert WordEnds(f, text) == {n - 1, |text| - 1};
  }

  // ---- names that are never matched

  /** The window of an exact match whose mention is the whole text holds all the words. */
  lemma WholeWindow(c: Canonicalizer, text: string, words: seq<Word>, w: Window)
    requires IsWordList(c, text, words) && WellPlaced(text, words) && IsAliasWindow(c, text, words, w)
    requires text != "" && WordLike(c.foreign, text[0]) && WordLike(c.foreign, text[|text| - 1])
    requires ExactMatch(c, text, words, w).mention == text
    ensures w == Window(0, |words|)
  {
    WordsReach(c, text, words);
    RegionInText(text, words, w);
    hide AliasIndex, FindAlias, WidestFor, IsRun;
    var r := Region(words, w);
    assert |text[r.lo..r.hi]| == |text|;
    assert r.lo == 0 && r.hi == |text|;
    assert forall k :: 0 < k < |words| ==> Before(words[0], words[k]);
    assert forall k :: 0 <= k < |words| - 1 ==> Before(words[k], words[|words| - 1]);
    FirstAndLast(text, words);
  }

  lemma FirstAndLast(text: string, words: seq<Word>)
    requires WellPlaced(text, words) && words != []
    ensures words[0].hi > 0 && words[|words| - 1].lo < |text|
    ensures forall k :: 0 <= k < |words| - 1 ==> words[k].hi < |text|
  {
    forall k | 0 <= k < |words| - 1 ensures words[k].hi < |text| {
      assert words[k] in words && words[|words| - 1] in words && Before(words[k], words[|words| - 1]);
    }
    assert words[0] in words && words[|words| - 1] in words;
  }

  /** Main result for whole names: a text that begins and ends with a word and is a name up to case is
      matched as a whole exactly when it has no more words than the widest name has parts. A name with
      characters that separate words but are no whitespace may have more words than parts. */
  lemma WholeNameIff(c: Canonicalizer, text: string, r: Result)
    requires IsCanonicalized(c, text, Returned(r))
    requires text != "" && WordLike(c.foreign, text[0]) && WordLike(c.foreign, text[|text| - 1])
    requires exists e :: e in c.entities && Named(c.foreign, e, c.foreign.lowercase(text))
    ensures (exists m :: m in r.matched && m.kind == Exact && m.mention == text)
            <==> SomeNameIsAsWide(c.foreign, c.entities, |WordEnds(c.foreign, text)|)
  {
    hide *;
    if SomeNameIsAsWide(c.foreign, c.entities, |WordEnds(c.foreign, text)|) {
      WholeNameMatches(c, text, Returned(r));
      assert r.matched[0] in r.matched;
    }
    if m :| m in r.matched && m.kind == Exact && m.mention == text {
      WholeIsNarrow(c, text, r, m);
    }
  }

  lemma WholeIsNarrow(c: Canonicalizer, text: string, r: Result, m: Match)
    requires IsCanonicalized(c, text, Returned(r)) && m in r.matched && m.kind == Exact && m.mention == text
    requires text != "" && WordLike(c.foreign, text[0]) && WordLike(c.foreign, text[|text| - 1])
    ensures SomeNameIsAsWide(c.foreign, c.entities, |WordEnds(c.foreign, text)|)
  {
    hide *;
    var words, chosen := Witness(c, text, Returned(r));
    ResultParts(c, text, words, chosen, Returned(r));
    var exact := ExactMatches(c, text, words, chosen);
    var k :| 0 <= k < |r.matched| && r.matched[k] == m;
    if k < |exact| {
      var w := chosen[k];
      assert w in chosen;
      WholeWindow(c, text, words, w);
      WordsCounted(c, text, words);
      WindowIsAlias(c, text, words, w);
      AliasWindowMeans(c, text, words, w);
    } else {
      var i := FuzzyAtWord(c, text, words, chosen, k - |exact|);
      FuzzyKind(c, text, words, i);
    }
  }

  lemma WindowIsAlias(c: Canonicalizer, text: string, words: seq<Word>, w: Window)
    requires WellPlaced(text, words) && IsAliasWindow(c, text, words, w)
    ensures w in AliasWindows(c, text, words)
  {
    AliasWindowsAre(c, text, words, w);
  }

  lemma FuzzyKind(c: Canonicalizer, text: string, words: seq<Word>, i: nat)
    requires WellPlaced(text, words) && i < |words| && BestOfWord(c, text, words, i).1.Some?
    ensures FuzzyMatch(c, text, words, i).kind != Exact
  {
    hide BestOfWord;
  }

  /** Functions for which only the letters a and b make words and nothing changes in lower case. */
  ghost function LettersOnly(similarity: (string, string) -> real): Foreign
  {
    Foreign((ch: char) => ch == 'a' || ch == 'b', (ch: char) => ch == ' ', (s: string) => s, similarity)
  }

  /** Such a name: with "a&b" as the only name, the text "a&b" itself is not an exact match. */
  lemma PunctuatedNameMissed(c: Canonicalizer, text: string, r: Result, m: Match)
    requires c.foreign == LettersOnly(c.foreign.similarity) && c.entities == [Entity("t", text, [])] && text == "a&b"
    requires IsCanonicalized(c, text, Returned(r)) && m in r.matched && m.kind == Exact
    ensures m.mention != text
  {
    var e := c.entities[0];
    LetterParts(c.foreign, text);
    assert c.foreign.lowercase(text) == text;
    assert HasName(e, text) && e in c.entities;
    assert Named(c.foreign, e, text);
    assert forall name :: HasName(e, name) ==> name == text;
    hide WordEnds, PartEnds;
    assert !SomeNameIsAsWide(c.foreign, c.entities, 2);
    hide *;
    if m.mention == text {
      WholeNameIff(c, text, r);
    }
  }

  lemma LetterParts(f: Foreign, text: string)
    requires f == LettersOnly(f.similarity) && text == "a&b"
    ensures |WordEnds(f, text)| == 2 && |PartEnds(f, text)| == 1
    ensures WordLike(f, text[0]) && WordLike(f, text[|text| - 1])
  {
    assert EndsWord(f, text, 0) && EndsWord(f, text, 2) && !EndsWord(f, text, 1);
    assert EndsPart(f, text, 2) && !EndsPart(f, text, 0) && !EndsPart(f, text, 1);
    hide EndsWord, EndsPart;
    assert WordEnds(f, text) == {0, 2};
    assert PartEnds(f, text) == {2};
  }
}
