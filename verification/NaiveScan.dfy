/** The brace-counting extractor of a JSON object (`extract_json_block` in `extract.rs`), and when it
    gives what the string-aware one gives. */
module NaiveScan {
  import opened Options
  import opened JsonScan

  /** The string-aware scan with string literals ignored. */
  ghost function NaiveClose(text: string, i: nat, depth: nat): (r: Option<nat>)
    requires i <= |text|
    ensures r.Some? ==> i < r.value <= |text|
    decreases |text| - i
  {
    if i == |text| then None
    else if text[i] == '{' then NaiveClose(text, i + 1, depth + 1)
    else if text[i] == '}' && depth == 1 then Some(i + 1)
    else if text[i] == '}' && depth > 1 then NaiveClose(text, i + 1, depth - 1)
    else NaiveClose(text, i + 1, depth)
  }

  ghost function NaiveSlice(text: string): Option<string>
  {
    var start := FindFrom(text, 0);
    if start.None? then None
    else
      var end := NaiveClose(text, start.value, 0);
      if end.None? then None else Some(text[start.value..end.value])
  }

  /** `extract_json_block`; its signed depth is positive whenever it is decremented. */
  method ExtractJsonBlock(text: string) returns (r: Option<string>)
    ensures r == NaiveSlice(text)
  {
    var found := Find(text);
    if found.None? {
      return None;
    }
    var start := found.value;
    var depth: int := 0;
    var i := start;
    while i < |text|
      invariant start <= i <= |text|
      invariant if i == start then depth == 0 else depth >= 1
      invariant NaiveClose(text, start, 0) == NaiveClose(text, i, depth)
    {
      if text[i] == '{' {
        depth := depth + 1;
      } else if text[i] == '}' {
        depth := depth - 1;
        if depth == 0 {
          return Some(text[start..i + 1]);
        }
      }
      i := i + 1;
    }
    return None;
  }

  lemma {:induction false} NaiveAgreesBeforeQuote(text: string, i: nat, depth: nat)
    requires i <= |text|
    requires depth >= 1 || (i < |text| && text[i] == '{')
    requires var k := NaiveClose(text, i, depth);
             forall j :: i <= j < (if k.Some? then k.value else |text|) ==> text[j] != '"'
    ensures Close(text, i, depth, Plain) == NaiveClose(text, i, depth)
    decreases |text| - i
  {
    if i < |text| {
      var d := depth + Step(Plain, text[i]);
      if d >= 1 {
        NaiveAgreesBeforeQuote(text, i + 1, d);
      }
    }
  }

  // ---- what the naive slice is: the shortest one whose braces balance, in string literals or not

  /** text[start..end] is the shortest nonempty slice from the first opening brace with as many closing
      braces as opening ones. */
  ghost predicate ShortestRaw(text: string, start: nat, end: nat)
  {
    && FirstBrace(text, start)
    && start < end <= |text|
    && Excess(text[start..end]) == 0
    && forall e :: start < e < end ==> Excess(text[start..e]) != 0
  }

  /** Every prefix from i that ends before the naive scanner closes keeps the depth positive. */
  lemma {:induction false} NaiveCloseIsFirstZero(text: string, i: nat, depth: nat, e: nat)
    requires depth >= 1 && i <= e <= |text|
    ensures var k := NaiveClose(text, i, depth);
            var d := depth + Excess(text[i..e]);
            && (k.None? || e < k.value ==> d > 0)
            && (k == Some(e) ==> d == 0)
    decreases |text| - i
  {
    if i < e {
      var d := depth + Step(Plain, text[i]);
      if d >= 1 {
        NaiveCloseIsFirstZero(text, i + 1, d, e);
      } else {
        assert text[i + 1..i + 1] == "";
      }
    }
  }

  lemma NaiveFrom(text: string, start: nat, e: nat)
    requires FirstBrace(text, start) && start < e <= |text|
    ensures var k := NaiveClose(text, start, 0);
            && (k.None? || e < k.value ==> Excess(text[start..e]) != 0)
            && (k == Some(e) ==> Excess(text[start..e]) == 0)
  {
    NaiveCloseIsFirstZero(text, start + 1, 1, e);
  }

  /** Main result for the naive scanner: it returns the shortest slice from the first opening brace
      with as many closing braces as opening ones, and nothing exactly when there is no such slice. */
  lemma NaiveIsShortest(text: string)
    ensures forall start: nat, end: nat | ShortestRaw(text, start, end) ::
              NaiveSlice(text) == Some(text[start..end])
    ensures NaiveSlice(text).Some? <==> exists start: nat, end: nat :: ShortestRaw(text, start, end)
    ensures NaiveSlice(text).None? <==>
            forall start: nat, end: nat | FirstBrace(text, start) && start < end <= |text| ::
              Excess(text[start..end]) != 0
  {
    hide NaiveClose, Excess;
    var found := FindFrom(text, 0);
    forall start: nat | FirstBrace(text, start) ensures found == Some(start) {
    }
    if found.Some? {
      var start := found.value;
      forall e | start < e <= |text|
        ensures var k := NaiveClose(text, start, 0);
                && (k.None? || e < k.value ==> Excess(text[start..e]) != 0)
                && (k == Some(e) ==> Excess(text[start..e]) == 0)
      {
        NaiveFrom(text, start, e);
      }
      var k := NaiveClose(text, start, 0);
      if k.Some? {
        assert ShortestRaw(text, start, k.value);
      }
    }
  }

  /** The braces of s, counted in string literals too, balance at its end and nowhere before. */
  ghost predicate RawClosesAtEnd(s: string)
  {
    Excess(s) == 0 && forall e :: 0 < e < |s| ==> Excess(s[..e]) != 0
  }

  /** Main result: of an RFC 8259 object, the naive scanner returns exactly the object precisely when
      the braces of the object, those inside its strings counted too, first balance at its end. */
  lemma NaiveRecovers(pre: string, v: Json, post: string)
    requires v.Obj? && Valid(v)
    requires '{' !in pre
    ensures NaiveSlice(pre + Print(v) + post) == Some(Print(v)) <==> RawClosesAtEnd(Print(v))
  {
    var text, obj, start := pre + Print(v) + post, Print(v), |pre|;
    assert obj[0] == '{';
    hide *;
    NaiveSliceIs(text, start, obj);
  }

  lemma NaiveSliceIs(text: string, start: nat, obj: string)
    requires start + |obj| <= |text| && text[start..start + |obj|] == obj
    requires obj != "" && obj[0] == '{' && '{' !in text[..start]
    ensures NaiveSlice(text) == Some(obj) <==> RawClosesAtEnd(obj)
  {
    hide NaiveSlice, Excess;
    var end := start + |obj|;
    NaiveIsShortest(text);
    assert text[start] == obj[0];
    assert forall j :: 0 <= j < start ==> text[j] == text[..start][j];
    assert FirstBrace(text, start);
    forall e | start <= e <= end ensures text[start..e] == obj[..e - start] {
    }
    assert obj[..|obj|] == obj;
    assert ShortestRaw(text, start, end) <==> RawClosesAtEnd(obj) by {
      forall e | 0 < e < |obj| ensures obj[..e] == text[start..start + e] {
      }
    }
    if NaiveSlice(text) == Some(obj) {
      var s: nat, e: nat :| ShortestRaw(text, s, e);
      assert s == start && |text[s..e]| == e - s;
    }
  }

  // ---- when the two scanners agree

  /** The two scanners give the same answer exactly when the slices from the first brace that balance
      outside string literals and those that balance outright have the same shortest one, or neither
      kind has any. */
  lemma ScannersAgree(text: string)
    ensures NaiveSlice(text) == ObjectSlice(text)
            <==> forall start: nat, end: nat :: ShortestRaw(text, start, end) <==> ShortestBalanced(text, start, end)
  {
    NaiveIsShortest(text);
    SliceIsShortestBalanced(text);
    hide NaiveSlice, ObjectSlice, Excess, Balanced;
    if NaiveSlice(text) == ObjectSlice(text) {
      forall start: nat, end: nat
        ensures ShortestRaw(text, start, end) <==> ShortestBalanced(text, start, end)
      {
        SameEnd(text, start, end);
      }
    } else if NaiveSlice(text).Some? {
      var start: nat, end: nat :| ShortestRaw(text, start, end);
      assert !ShortestBalanced(text, start, end);
    } else {
      var start: nat, end: nat :| ShortestBalanced(text, start, end);
      assert !ShortestRaw(text, start, end);
    }
  }

  lemma SameEnd(text: string, start: nat, end: nat)
    requires NaiveSlice(text) == ObjectSlice(text)
    ensures ShortestRaw(text, start, end) <==> ShortestBalanced(text, start, end)
  {
    NaiveIsShortest(text);
    SliceIsShortestBalanced(text);
    hide NaiveSlice, ObjectSlice, Excess, Balanced;
    if ShortestRaw(text, start, end) {
      var s: nat, e: nat :| ShortestBalanced(text, s, e);
      assert s == start && |text[s..e]| == |text[start..end]|;
    }
  }

  /** In particular they agree whenever the part the naive one reads holds no quote, so whenever no
      quote follows the first opening brace. */
  lemma AgreeWithoutQuotes(text: string)
    requires forall start: nat | FirstBrace(text, start) ::
               '"' !in (if NaiveSlice(text).Some? then NaiveSlice(text).value else text[start..])
    ensures NaiveSlice(text) == ObjectSlice(text)
  {
    hide Close, NaiveClose;
    var f := FindFrom(text, 0);
    if f.Some? {
      var start := f.value;
      assert FirstBrace(text, start);
      var k := NaiveClose(text, start, 0);
      var end := if k.Some? then k.value else |text|;
      forall j | start <= j < end ensures text[j] != '"' {
        assert text[start..end][j - start] == text[j];
      }
      NaiveAgreesBeforeQuote(text, start, 0);
    }
  }

  /** A valid object with a closing brace inside its key. */
  const BRACE_IN_KEY: string := "{\"}\":0}"

  /** The two can differ on a valid object: the naive scanner cuts this one short. */
  lemma NaiveTruncates()
    ensures NaiveSlice(BRACE_IN_KEY) == Some(BRACE_IN_KEY[..3]) && ObjectSlice(BRACE_IN_KEY) == Some(BRACE_IN_KEY)
  {
    var text := BRACE_IN_KEY;
    assert FindFrom(text, 0) == Some(0);
    assert NaiveClose(text, 2, 1) == Some(3);
    assert NaiveClose(text, 1, 1) == Some(3);
    assert NaiveClose(text, 0, 0) == Some(3);
    hide *;
    var ms := BraceInKey();
    PrintedObjectRecovered("", Obj("", ms), "");
    assert "" + text + "" == text;
  }

  lemma BraceInKey() returns (ms: Members)
    ensures Valid(Obj("", ms)) && Print(Obj("", ms)) == BRACE_IN_KEY
  {
    var key := [Raw('}')];
    ms := Member("", key, "", "", Scalar("0"), "", NoMember);
    assert key[1..] == [];
    assert PrintLiteral(key) == "\"}\"";
    assert PrintMembers(ms) == "\"}\":0";
  }
}
