/** The string-aware extractor of a JSON object from model output (`first_json_object` in `judge.rs`).
    Every character it reacts to is ASCII, so the text is modelled as a sequence of characters rather
    than of UTF-8 bytes. */
module JsonScan {
  import opened Options

  /** Where the scanner stands relative to string literals. */
  datatype Mode = Plain | InString | Escaped

  function Next(m: Mode, c: char): Mode
  {
    match m
    case Escaped => InString
    case InString => if c == '\\' then Escaped else if c == '"' then Plain else InString
    case Plain => if c == '"' then InString else Plain
  }

  /** The end of the slice the scanner accepts, reading from index i at the given depth; None when the
      depth never returns to zero, or a closing brace arrives at depth zero. */
  ghost function Close(text: string, i: nat, depth: nat, m: Mode): (r: Option<nat>)
    requires i <= |text|
    ensures r.Some? ==> i < r.value <= |text|
    decreases |text| - i
  {
    if i == |text| then None
    else if m == Plain && text[i] == '{' then Close(text, i + 1, depth + 1, m)
    else if m == Plain && text[i] == '}' then
      if depth == 0 then None
      else if depth == 1 then Some(i + 1)
      else Close(text, i + 1, depth - 1, m)
    else Close(text, i + 1, depth, Next(m, text[i]))
  }

  /** Index of the first opening brace at or after i. */
  ghost function FindFrom(text: string, i: nat): (r: Option<nat>)
    requires i <= |text|
    ensures r.Some? ==> i <= r.value < |text| && text[r.value] == '{'
    ensures r.Some? ==> forall j :: i <= j < r.value ==> text[j] != '{'
    ensures r.None? ==> forall j :: i <= j < |text| ==> text[j] != '{'
    decreases |text| - i
  {
    if i == |text| then None
    else if text[i] == '{' then Some(i)
    else FindFrom(text, i + 1)
  }

  ghost function ObjectSlice(text: string): Option<string>
  {
    var start := FindFrom(text, 0);
    if start.None? then None
    else
      var end := Close(text, start.value, 0, Plain);
      if end.None? then None else Some(text[start.value..end.value])
  }

  method Find(text: string) returns (r: Option<nat>)
    ensures r == FindFrom(text, 0)
  {
    var i := 0;
    while i < |text| && text[i] != '{'
      invariant i <= |text|
      invariant FindFrom(text, 0) == FindFrom(text, i)
    {
      i := i + 1;
    }
    r := if i < |text| then Some(i) else None;
  }

  /** `first_json_object`. The source's checked subtraction cannot fail: the depth is at least one
      whenever a closing brace outside a string is read. */
  method FirstJsonObject(text: string) returns (r: Option<string>)
    ensures r == ObjectSlice(text)
  {
    var found := Find(text);
    if found.None? {
      return None;
    }
    var start := found.value;
    var depth, inString, escaped := 0, false, false;
    var i := start;
    while i < |text|
      invariant start <= i <= |text|
      invariant escaped ==> inString
      invariant i == start ==> depth == 0 && !inString
      invariant i > start ==> depth >= 1
      invariant Close(text, start, 0, Plain) == Close(text, i, depth, ModeOf(inString, escaped))
    {
      var c := text[i];
      if inString {
        if escaped {
          escaped := false;
        } else if c == '\\' {
          escaped := true;
        } else if c == '"' {
          inString := false;
        }
      } else if c == '"' {
        inString := true;
      } else if c == '{' {
        depth := depth + 1;
      } else if c == '}' {
        assert depth >= 1;
        depth := depth - 1;
        if depth == 0 {
          return Some(text[start..i + 1]);
        }
      }
      i := i + 1;
    }
    return None;
  }

  ghost function ModeOf(inString: bool, escaped: bool): Mode
  {
    if escaped then Escaped else if inString then InString else Plain
  }

  // ---- what the slice is: the shortest one whose braces outside string literals balance

  /** What follows the string literal whose opening quote has just been read. */
  ghost function AfterLiteral(s: string): (r: string)
    ensures |r| <= |s|
    decreases |s|
  {
    if s == "" || s == "\\" then ""
    else if s[0] == '"' then s[1..]
    else if s[0] == '\\' then AfterLiteral(s[2..])
    else AfterLiteral(s[1..])
  }

  /** The text with its string literals removed. */
  ghost function Outside(s: string): string
    decreases |s|
  {
    if s == "" then ""
    else if s[0] == '"' then Outside(AfterLiteral(s[1..]))
    else [s[0]] + Outside(s[1..])
  }

  /** Opening braces minus closing braces. */
  ghost function Excess(s: string): int
  {
    if s == "" then 0
    else (if s[0] == '{' then 1 else if s[0] == '}' then -1 else 0) + Excess(s[1..])
  }

  ghost predicate Balanced(s: string)
  {
    Excess(Outside(s)) == 0
  }

  ghost predicate FirstBrace(text: string, start: nat)
  {
    start < |text| && text[start] == '{' && forall j :: 0 <= j < start ==> text[j] != '{'
  }

  /** text[start..end] is the shortest nonempty balanced slice from the first opening brace. */
  ghost predicate ShortestBalanced(text: string, start: nat, end: nat)
  {
    && FirstBrace(text, start)
    && start < end <= |text|
    && Balanced(text[start..end])
    && forall e :: start < e < end ==> !Balanced(text[start..e])
  }

  /** Outside, for text that begins in the given mode. */
  ghost function Remaining(m: Mode, s: string): string
  {
    match m
    case Plain => Outside(s)
    case InString => Outside(AfterLiteral(s))
    case Escaped => if s == "" then "" else Outside(AfterLiteral(s[1..]))
  }

  ghost function Step(m: Mode, c: char): int
  {
    if m == Plain && c == '{' then 1 else if m == Plain && c == '}' then -1 else 0
  }

  lemma ExcessStep(m: Mode, s: string)
    requires s != ""
    ensures Excess(Remaining(m, s)) == Step(m, s[0]) + Excess(Remaining(Next(m, s[0]), s[1..]))
  {
    match m {
      case Plain =>
        if s[0] != '"' {
          var t := Outside(s[1..]);
          assert ([s[0]] + t)[1..] == t;
        }
      case InString =>
        if s[0] == '\\' && |s| > 1 {
          assert s[2..] == s[1..][1..];
        }
      case Escaped =>
    }
  }

  lemma SliceExcess(m: Mode, text: string, i: nat, e: nat)
    requires i < e <= |text|
    ensures Excess(Remaining(m, text[i..e])) == Step(m, text[i]) + Excess(Remaining(Next(m, text[i]), text[i + 1..e]))
  {
    hide Excess, Remaining;
    assert text[i..e][1..] == text[i + 1..e];
    ExcessStep(m, text[i..e]);
  }

  /** Every prefix from i that ends before the scanner closes keeps the depth positive. */
  lemma {:induction false} CloseIsFirstZero(text: string, i: nat, depth: nat, m: Mode, e: nat)
    requires depth >= 1 && i <= e <= |text|
    ensures var k := Close(text, i, depth, m);
            var d := depth + Excess(Remaining(m, text[i..e]));
            && (k.None? || e < k.value ==> d > 0)
            && (k == Some(e) ==> d == 0)
    decreases |text| - i
  {
    if i < e {
      SliceExcess(m, text, i, e);
      var d := depth + Step(m, text[i]);
      if d >= 1 {
        CloseIsFirstZero(text, i + 1, d, Next(m, text[i]), e);
      } else {
        assert text[i + 1..i + 1] == "";
      }
    }
  }

  lemma SliceFrom(text: string, start: nat, e: nat)
    requires FirstBrace(text, start) && start < e <= |text|
    ensures var k := Close(text, start, 0, Plain);
            && (k.None? || e < k.value ==> !Balanced(text[start..e]))
            && (k == Some(e) ==> Balanced(text[start..e]))
  {
    SliceExcess(Plain, text, start, e);
    CloseIsFirstZero(text, start + 1, 1, Plain, e);
  }

  /** Main result for the scanner: it returns the shortest balanced slice from the first opening
      brace, and nothing exactly when there is no such slice. */
  lemma SliceIsShortestBalanced(text: string)
    ensures forall start: nat, end: nat | ShortestBalanced(text, start, end) ::
              ObjectSlice(text) == Some(text[start..end])
    ensures ObjectSlice(text).Some? <==> exists start: nat, end: nat :: ShortestBalanced(text, start, end)
    ensures ObjectSlice(text).None? <==>
            forall start: nat, end: nat | FirstBrace(text, start) && start < end <= |text| ::
              !Balanced(text[start..end])
  {
    hide Close, Balanced;
    var found := FindFrom(text, 0);
    forall start: nat | FirstBrace(text, start) ensures found == Some(start) {
    }
    if found.Some? {
      var start := found.value;
      forall e | start < e <= |text|
        ensures var k := Close(text, start, 0, Plain);
                && (k.None? || e < k.value ==> !Balanced(text[start..e]))
                && (k == Some(e) ==> Balanced(text[start..e]))
      {
        SliceFrom(text, start, e);
      }
      var k := Close(text, start, 0, Plain);
      if k.Some? {
        assert ShortestBalanced(text, start, k.value);
      }
    }
  }

  lemma {:induction false} CloseExtends(text: string, more: string, i: nat, depth: nat, m: Mode)
    requires i <= |text| && Close(text, i, depth, m).Some?
    ensures Close(text + more, i, depth, m) == Close(text, i, depth, m)
    decreases |text| - i
  {
    var d := depth + Step(m, text[i]);
    if d > 0 || text[i] != '}' || m != Plain {
      CloseExtends(text, more, i + 1, d, Next(m, text[i]));
    }
  }

  /** Text after a found object never changes the answer. */
  lemma TrailingTextIgnored(text: string, more: string)
    requires ObjectSlice(text).Some?
    ensures ObjectSlice(text + more) == ObjectSlice(text)
  {
    hide Close;
    var start := FindFrom(text, 0).value;
    var longer := text + more;
    assert FindFrom(longer, 0) == Some(start) by {
      assert longer[start] == '{' && forall j :: 0 <= j < start ==> longer[j] == text[j];
    }
    CloseExtends(text, more, start, 0, Plain);
    var end := Close(text, start, 0, Plain).value;
    assert longer[start..end] == text[start..end];
  }

  // ---- every RFC 8259 object is recovered

  /** One character of a string literal (RFC 8259 section 7): itself, a two-character escape, or a
      \u escape. */
  datatype StrItem = Raw(c: char) | Esc(c: char) | Hex(digits: string)
  {
    ghost predicate Valid()
    {
      match this
      case Raw(c) => c != '"' && c != '\\' && c >= ' '
      case Esc(c) => c in "\"\\/bfnrt"
      case Hex(d) => |d| == 4 && forall i :: 0 <= i < 4 ==> d[i] in "0123456789abcdefABCDEF"
    }

    ghost function Text(): string
    {
      match this
      case Raw(c) => [c]
      case Esc(c) => ['\\', c]
      case Hex(d) => "\\u" + d
    }
  }

  /** A JSON text with all its insignificant whitespace (sections 2 to 5 and 7). */
  datatype Json =
    | Scalar(lexeme: string)
    | Str(items: seq<StrItem>)
    | Arr(inner: string, elems: Elems)
    | Obj(inner: string, members: Members)

  datatype Elems = NoElem | Elem(before: string, value: Json, after: string, rest: Elems)

  datatype Members =
    | NoMember
    | Member(before: string, key: seq<StrItem>, mid: string, before2: string, value: Json, after: string, rest: Members)

  ghost predicate IsSpace(s: string)
  {
    forall i :: 0 <= i < |s| ==> s[i] in " \t\n\r"
  }

  /** A literal name, or a text over the alphabet of section 6's numbers. */
  ghost predicate IsScalar(s: string)
  {
    s in {"null", "true", "false"} || forall i :: 0 <= i < |s| ==> s[i] in "0123456789+-.eE"
  }

  ghost predicate ValidItems(items: seq<StrItem>)
  {
    forall i :: 0 <= i < |items| ==> items[i].Valid()
  }

  ghost predicate Valid(v: Json)
  {
    match v
    case Scalar(l) => IsScalar(l)
    case Str(items) => ValidItems(items)
    case Arr(ws, es) => IsSpace(ws) && ValidElems(es)
    case Obj(ws, ms) => IsSpace(ws) && ValidMembers(ms)
  }

  ghost predicate ValidElems(es: Elems)
  {
    es.Elem? ==> IsSpace(es.before) && Valid(es.value) && IsSpace(es.after) && ValidElems(es.rest)
  }

  ghost predicate ValidMembers(ms: Members)
  {
    ms.Member? ==>
      && IsSpace(ms.before) && ValidItems(ms.key) && IsSpace(ms.mid) && IsSpace(ms.before2)
      && Valid(ms.value) && IsSpace(ms.after) && ValidMembers(ms.rest)
  }

  ghost function PrintItems(items: seq<StrItem>): string
  {
    if items == [] then "" else items[0].Text() + PrintItems(items[1..])
  }

  ghost function PrintLiteral(items: seq<StrItem>): string
  {
    "\"" + (PrintItems(items) + "\"")
  }

  ghost function Print(v: Json): string
  {
    match v
    case Scalar(l) => l
    case Str(items) => PrintLiteral(items)
    case Arr(ws, es) => "[" + (ws + (PrintElems(es) + "]"))
    case Obj(ws, ms) => "{" + (ws + (PrintMembers(ms) + "}"))
  }

  ghost function PrintElems(es: Elems): string
  {
    match es
    case NoElem => ""
    case Elem(b, v, a, rest) =>
      b + (Print(v) + (a + ((if rest.Elem? then "," else "") + PrintElems(rest))))
  }

  ghost function PrintMembers(ms: Members): string
  {
    match ms
    case NoMember => ""
    case Member(b, k, m, b2, v, a, rest) =>
      b + (PrintLiteral(k) + (m + (":" + (b2 + (Print(v) + (a
        + ((if rest.Member? then "," else "") + PrintMembers(rest))))))))
  }

  /** s occurs in text at index i. */
  ghost predicate At(text: string, i: nat, s: string)
  {
    i + |s| <= |text| && text[i..i + |s|] == s
  }

  lemma AtSplit(text: string, i: nat, a: string, b: string)
    requires At(text, i, a + b)
    ensures At(text, i, a) && At(text, i + |a|, b)
  {
    assert text[i..i + |a|] == (a + b)[..|a|];
    assert text[i + |a|..i + |a| + |b|] == (a + b)[|a|..];
  }

  /** Reading s from index i leaves the scanner in the same mode and depth. */
  ghost predicate Passes(text: string, i: nat, s: string, depth: nat, m: Mode)
  {
    i + |s| <= |text| && Close(text, i, depth, m) == Close(text, i + |s|, depth, m)
  }

  /** No character of s is a quote or a brace. */
  ghost predicate Ordinary(s: string)
  {
    forall k :: 0 <= k < |s| ==> s[k] != '"' && s[k] != '{' && s[k] != '}'
  }

  lemma SpaceIsOrdinary(s: string)
    requires IsSpace(s)
    ensures Ordinary(s)
  {
  }

  lemma ScalarIsOrdinary(s: string)
    requires IsScalar(s)
    ensures Ordinary(s)
  {
  }

  lemma PunctuationIsOrdinary()
    ensures Ordinary("") && Ordinary(",") && Ordinary(":") && Ordinary("[") && Ordinary("]")
  {
  }

  lemma PassesOne(text: string, i: nat, c: char, depth: nat)
    requires At(text, i, [c]) && c != '"' && c != '{' && c != '}'
    ensures Passes(text, i, [c], depth, Plain)
  {
    assert text[i..i + 1][0] == c;
  }

  lemma {:induction false} PassesOrdinary(text: string, i: nat, s: string, depth: nat)
    requires At(text, i, s)
    requires Ordinary(s)
    ensures Passes(text, i, s, depth, Plain)
    decreases |s|
  {
    if s != "" {
      assert s == [s[0]] + s[1..];
      AtSplit(text, i, [s[0]], s[1..]);
      PassesOne(text, i, s[0], depth);
      PassesOrdinary(text, i + 1, s[1..], depth);
    }
  }

  lemma {:induction false} PassesInside(text: string, i: nat, s: string, depth: nat)
    requires At(text, i, s)
    requires forall k :: 0 <= k < |s| ==> s[k] != '"' && s[k] != '\\'
    ensures Passes(text, i, s, depth, InString)
    decreases |s|
  {
    if s != "" {
      assert s == [s[0]] + s[1..];
      AtSplit(text, i, [s[0]], s[1..]);
      assert text[i..i + 1][0] == s[0];
      PassesInside(text, i + 1, s[1..], depth);
    }
  }

  lemma PassesEscape(text: string, i: nat, c: char, depth: nat)
    requires At(text, i, ['\\', c])
    ensures Passes(text, i, ['\\', c], depth, InString)
  {
    assert text[i..i + 2][0] == '\\' && text[i..i + 2][1] == c;
    assert Close(text, i, depth, InString) == Close(text, i + 1, depth, Escaped);
  }

  lemma PassesItem(text: string, i: nat, item: StrItem, depth: nat)
    requires item.Valid() && At(text, i, item.Text())
    ensures Passes(text, i, item.Text(), depth, InString)
  {
    match item {
      case Raw(c) =>
        PassesInside(text, i, [c], depth);
      case Esc(c) =>
        PassesEscape(text, i, c, depth);
      case Hex(d) =>
        assert item.Text() == ['\\', 'u'] + d;
        AtSplit(text, i, ['\\', 'u'], d);
        PassesEscape(text, i, 'u', depth);
        HexDigits(d);
        PassesInside(text, i + 2, d, depth);
    }
  }

  lemma HexDigits(d: string)
    requires Hex(d).Valid()
    ensures forall i :: 0 <= i < |d| ==> d[i] != '"' && d[i] != '\\'
  {
    var digits := "0123456789abcdefABCDEF";
    assert '"' !in digits && '\\' !in digits;
  }

  lemma {:induction false} PassesItems(text: string, i: nat, items: seq<StrItem>, depth: nat)
    requires ValidItems(items) && At(text, i, PrintItems(items))
    ensures Passes(text, i, PrintItems(items), depth, InString)
    decreases |items|
  {
    if items != [] {
      var head, rest := items[0].Text(), PrintItems(items[1..]);
      assert PrintItems(items) == head + rest && items[0].Valid() && ValidItems(items[1..]);
      hide *;
      AtSplit(text, i, head, rest);
      PassesItem(text, i, items[0], depth);
      PassesItems(text, i + |head|, items[1..], depth);
      PassesInStringBoth(text, i, head, rest, depth);
    }
  }

  lemma PassesInStringBoth(text: string, i: nat, a: string, b: string, depth: nat)
    requires Passes(text, i, a, depth, InString) && Passes(text, i + |a|, b, depth, InString)
    ensures Passes(text, i, a + b, depth, InString)
  {
    hide Close;
  }

  lemma {:induction false} PassesLiteral(text: string, i: nat, items: seq<StrItem>, depth: nat)
    requires ValidItems(items) && At(text, i, PrintLiteral(items))
    ensures Passes(text, i, PrintLiteral(items), depth, Plain)
  {
    hide PrintItems;
    var body := PrintItems(items);
    AtSplit(text, i, "\"", body + "\"");
    AtSplit(text, i + 1, body, "\"");
    PassesItems(text, i + 1, items, depth);
    var q := i + 1 + |body|;
    assert text[i..i + 1][0] == '"' && text[q..q + 1][0] == '"';
    assert Close(text, i, depth, Plain) == Close(text, i + 1, depth, InString);
  }

  /** Two pieces in a row. */
  lemma {:induction false} PassesBoth(text: string, i: nat, a: string, b: string, depth: nat)
    requires Passes(text, i, a, depth, Plain) && Passes(text, i + |a|, b, depth, Plain)
    ensures Passes(text, i, a + b, depth, Plain)
  {
    hide Close;
  }

  /** An ordinary piece followed by the rest. */
  lemma {:induction false} PassesThen(text: string, i: nat, a: string, b: string, depth: nat)
    requires At(text, i, a + b)
    requires Ordinary(a)
    requires At(text, i + |a|, b) ==> Passes(text, i + |a|, b, depth, Plain)
    ensures Passes(text, i, a + b, depth, Plain)
  {
    hide Close;
    AtSplit(text, i, a, b);
    PassesOrdinary(text, i, a, depth);
    PassesBoth(text, i, a, b, depth);
  }

  lemma {:induction false} PassesValue(text: string, i: nat, v: Json, depth: nat)
    requires Valid(v) && depth >= 1 && At(text, i, Print(v))
    ensures Passes(text, i, Print(v), depth, Plain)
    decreases v
  {
    hide Close, At, Passes, Ordinary, IsSpace, IsScalar;
    PunctuationIsOrdinary();
    match v {
      case Scalar(l) =>
        ScalarIsOrdinary(l);
        PassesOrdinary(text, i, l, depth);
      case Str(items) =>
        PassesLiteral(text, i, items, depth);
      case Arr(ws, es) =>
        SpaceIsOrdinary(ws);
        var body := PrintElems(es);
        var i1 := i + 1;
        var i2 := i1 + |ws|;
        AtSplit(text, i, "[", ws + (body + "]"));
        AtSplit(text, i1, ws, body + "]");
        AtSplit(text, i2, body, "]");
        PassesElems(text, i2, es, depth);
        PassesOrdinary(text, i2 + |body|, "]", depth);
        PassesBoth(text, i2, body, "]", depth);
        PassesThen(text, i1, ws, body + "]", depth);
        PassesThen(text, i, "[", ws + (body + "]"), depth);
      case Obj(ws, ms) =>
        ObjectParts(text, i, ws, ms);
        PassesMembers(text, i + 1 + |ws|, ms, depth + 1);
        ObjectPasses(text, i, ws, ms, depth);
    }
  }

  lemma {:induction false} FourParts(text: string, i: nat, a: string, b: string, c: string, d: string)
    requires At(text, i, a + (b + (c + d)))
    ensures At(text, i, a) && At(text, i + |a|, b) && At(text, i + |a| + |b|, c)
    ensures At(text, i + |a| + |b| + |c|, d)
  {
    hide At;
    AtSplit(text, i, a, b + (c + d));
    AtSplit(text, i + |a|, b, c + d);
    AtSplit(text, i + |a| + |b|, c, d);
  }

  /** Two ordinary pieces around a piece that passes, and one that passes after them. */
  lemma {:induction false} FourPass(text: string, i: nat, a: string, b: string, c: string, d: string, depth: nat)
    requires At(text, i, a + (b + (c + d))) && Ordinary(a) && Ordinary(c)
    requires Passes(text, i + |a|, b, depth, Plain)
    requires Passes(text, i + |a| + |b| + |c|, d, depth, Plain)
    ensures Passes(text, i, a + (b + (c + d)), depth, Plain)
  {
    hide Close, At, Ordinary, Passes;
    FourParts(text, i, a, b, c, d);
    PassesOrdinary(text, i + |a| + |b|, c, depth);
    PassesOrdinary(text, i, a, depth);
    PassesBoth(text, i + |a| + |b|, c, d, depth);
    PassesBoth(text, i + |a|, b, c + d, depth);
    PassesBoth(text, i, a, b + (c + d), depth);
  }

  lemma {:induction false} PassesElems(text: string, i: nat, es: Elems, depth: nat)
    requires ValidElems(es) && depth >= 1 && At(text, i, PrintElems(es))
    ensures Passes(text, i, PrintElems(es), depth, Plain)
    decreases es
  {
    hide Close;
    match es {
      case NoElem =>
      case Elem(b, v, a, rest) =>
        hide At, Passes, Ordinary, IsSpace, Print;
        PunctuationIsOrdinary();
        SpaceIsOrdinary(b);
        SpaceIsOrdinary(a);
        var comma := if rest.Elem? then "," else "";
        var s1, s2 := Print(v), PrintElems(rest);
        var i1 := i + |b|;
        var i3 := i1 + |s1| + |a|;
        FourParts(text, i, b, s1, a, comma + s2);
        AtSplit(text, i3, comma, s2);
        PassesElems(text, i3 + |comma|, rest, depth);
        PassesThen(text, i3, comma, s2, depth);
        PassesValue(text, i1, v, depth);
        FourPass(text, i, b, s1, a, comma + s2, depth);
    }
  }

  /** The part of a nonempty member list after the first colon. */
  ghost function AfterColon(ms: Members): string
    requires ms.Member?
  {
    ms.before2 + (Print(ms.value) + (ms.after + ((if ms.rest.Member? then "," else "") + PrintMembers(ms.rest))))
  }

  lemma {:induction false} PassesMembers(text: string, i: nat, ms: Members, depth: nat)
    requires ValidMembers(ms) && depth >= 1 && At(text, i, PrintMembers(ms))
    ensures Passes(text, i, PrintMembers(ms), depth, Plain)
    decreases ms, 1
  {
    hide Close, AfterColon;
    if ms.Member? {
      var s1, t := PrintLiteral(ms.key), AfterColon(ms);
      assert PrintMembers(ms) == ms.before + (s1 + (ms.mid + (":" + t))) by { MembersShape(ms); }
      hide PrintMembers, At, Passes, Ordinary, IsSpace, PrintLiteral, ValidItems;
      PunctuationIsOrdinary();
      SpaceIsOrdinary(ms.before);
      SpaceIsOrdinary(ms.mid);
      var i1 := i + |ms.before|;
      var i2 := i1 + |s1| + |ms.mid|;
      FourParts(text, i, ms.before, s1, ms.mid, ":" + t);
      AtSplit(text, i2, ":", t);
      PassesAfterColon(text, i2 + 1, ms, depth);
      PassesThen(text, i2, ":", t, depth);
      PassesLiteral(text, i1, ms.key, depth);
      FourPass(text, i, ms.before, s1, ms.mid, ":" + t, depth);
    }
  }

  lemma {:induction false} MembersShape(ms: Members)
    requires ms.Member?
    ensures PrintMembers(ms) == ms.before + (PrintLiteral(ms.key) + (ms.mid + (":" + AfterColon(ms))))
  {
    hide Print, PrintLiteral;
  }

  lemma {:induction false} PassesAfterColon(text: string, i: nat, ms: Members, depth: nat)
    requires ms.Member? && ValidMembers(ms) && depth >= 1 && At(text, i, AfterColon(ms))
    ensures Passes(text, i, AfterColon(ms), depth, Plain)
    decreases ms, 0
  {
    hide Close, At, Passes, Ordinary, IsSpace, Print, PrintMembers;
    PunctuationIsOrdinary();
    SpaceIsOrdinary(ms.before2);
    SpaceIsOrdinary(ms.after);
    var comma := if ms.rest.Member? then "," else "";
    var s2, s3 := Print(ms.value), PrintMembers(ms.rest);
    var i4 := i + |ms.before2|;
    var i5 := i4 + |s2| + |ms.after|;
    FourParts(text, i, ms.before2, s2, ms.after, comma + s3);
    AtSplit(text, i5, comma, s3);
    PassesMembers(text, i5 + |comma|, ms.rest, depth);
    PassesThen(text, i5, comma, s3, depth);
    PassesValue(text, i4, ms.value, depth);
    FourPass(text, i, ms.before2, s2, ms.after, comma + s3, depth);
  }

  lemma {:induction false} ObjectPasses(text: string, i: nat, ws: string, ms: Members, depth: nat)
    requires IsSpace(ws) && depth >= 1 && At(text, i, Print(Obj(ws, ms)))
    requires Passes(text, i + 1 + |ws|, PrintMembers(ms), depth + 1, Plain)
    ensures Passes(text, i, Print(Obj(ws, ms)), depth, Plain)
  {
    hide Close, Print;
    ObjectCloses(text, i, ws, ms, depth);
  }

  lemma {:induction false} ObjectParts(text: string, i: nat, ws: string, ms: Members)
    requires At(text, i, Print(Obj(ws, ms)))
    ensures var body := PrintMembers(ms);
            && At(text, i, "{") && At(text, i + 1, ws) && At(text, i + 1 + |ws|, body)
            && At(text, i + 1 + |ws| + |body|, "}")
  {
    hide PrintMembers;
    var body := PrintMembers(ms);
    AtSplit(text, i, "{", ws + (body + "}"));
    AtSplit(text, i + 1, ws, body + "}");
    AtSplit(text, i + 1 + |ws|, body, "}");
  }

  /** An object returns the scanner to the depth it was opened at, or ends the scan at depth zero. */
  lemma {:induction false} ObjectCloses(text: string, i: nat, ws: string, ms: Members, depth: nat)
    requires IsSpace(ws) && At(text, i, Print(Obj(ws, ms)))
    requires Passes(text, i + 1 + |ws|, PrintMembers(ms), depth + 1, Plain)
    ensures var end := i + |Print(Obj(ws, ms))|;
            Close(text, i, depth, Plain) == if depth == 0 then Some(end) else Close(text, end, depth, Plain)
  {
    var body := PrintMembers(ms);
    assert |Print(Obj(ws, ms))| == |ws| + |body| + 2;
    hide Print, PrintMembers, Close, IsSpace;
    ObjectParts(text, i, ws, ms);
    SpaceIsOrdinary(ws);
    PassesOrdinary(text, i + 1, ws, depth + 1);
    var q := i + 1 + |ws| + |body|;
    assert text[i] == text[i..i + 1][0] && text[q] == text[q..q + 1][0];
    BracesClose(text, i, q, depth);
  }

  lemma {:induction false} BracesClose(text: string, i: nat, q: nat, depth: nat)
    requires i < q < |text| && text[i] == '{' && text[q] == '}'
    requires Close(text, i + 1, depth + 1, Plain) == Close(text, q, depth + 1, Plain)
    ensures Close(text, i, depth, Plain) == if depth == 0 then Some(q + 1) else Close(text, q + 1, depth, Plain)
  {
  }

  /** Main result for the judge: whatever prose precedes it (without an opening brace) and whatever
      follows it, an RFC 8259 object is returned exactly. */
  lemma {:induction false} PrintedObjectRecovered(pre: string, v: Json, post: string)
    requires v.Obj? && Valid(v)
    requires '{' !in pre
    ensures ObjectSlice(pre + Print(v) + post) == Some(Print(v))
  {
    hide Close, PrintMembers;
    var text, obj, start := pre + Print(v) + post, Print(v), |pre|;
    assert text[start..start + |obj|] == obj;
    assert obj[0] == '{' && text[start] == text[start..start + |obj|][0];
    assert forall j :: 0 <= j < start ==> text[j] == pre[j] != '{';
    assert FindFrom(text, 0) == Some(start);
    ObjectParts(text, start, v.inner, v.members);
    PassesMembers(text, start + 1 + |v.inner|, v.members, 1);
    ObjectCloses(text, start, v.inner, v.members, 0);
  }
}
