/** The bench's turn keys: printed by `memory_key` in `ingest.rs`, parsed back by the adjacency step. */
module Keys {
  import opened Options

  // ---- decimal numbers

  function Digit(d: nat): char
    requires d < 10
  {
    "0123456789"[d]
  }

  function DigitValue(c: char): Option<nat>
  {
    if '0' <= c <= '9' then Some(c as int - '0' as int) else None
  }

  /** Decimal digits without leading zeros. */
  function Decimal(n: nat): (r: string)
    ensures r != ""
    ensures forall i :: 0 <= i < |r| ==> '0' <= r[i] <= '9'
  {
    if n < 10 then [Digit(n)] else Decimal(n / 10) + [Digit(n % 10)]
  }

  /** The value of a nonempty string of digits. */
  function DigitsValue(s: string): Option<nat>
  {
    if s == "" then None
    else
      var last := DigitValue(s[|s| - 1]);
      if last.None? then None
      else if |s| == 1 then last
      else
        var init := DigitsValue(s[..|s| - 1]);
        if init.None? then None else Some(10 * init.value + last.value)
  }

  const I64_MIN: int := -0x8000_0000_0000_0000
  const I64_MAX: int := 0x7fff_ffff_ffff_ffff

  /** `str::parse::<i64>`: an optional sign, then digits, within range. */
  function ParseI64(s: string): Option<int>
  {
    var signed := s != "" && (s[0] == '-' || s[0] == '+');
    var v := DigitsValue(if signed then s[1..] else s);
    if v.None? then None
    else
      var x := if signed && s[0] == '-' then -(v.value as int) else v.value as int;
      if I64_MIN <= x <= I64_MAX then Some(x) else None
  }

  lemma {:induction false} DecimalRoundTrip(n: nat)
    ensures DigitsValue(Decimal(n)) == Some(n)
    decreases n
  {
    if n >= 10 {
      var r := Decimal(n);
      DecimalRoundTrip(n / 10);
      assert r[..|r| - 1] == Decimal(n / 10);
      assert r[|r| - 1] == Digit(n % 10);
    }
  }

  lemma {:induction false} ParsePrinted(n: nat)
    ensures ParseI64(Decimal(n)) == if n <= I64_MAX then Some(n) else None
  {
    DecimalRoundTrip(n);
    assert '0' <= Decimal(n)[0] <= '9';
  }

  lemma DecimalInjective(m: nat, n: nat)
    requires Decimal(m) == Decimal(n)
    ensures m == n
  {
    DecimalRoundTrip(m);
    DecimalRoundTrip(n);
  }

  // ---- colon-separated keys

  predicate ColonFree(s: string)
  {
    forall i :: 0 <= i < |s| ==> s[i] != ':'
  }

  /** `str::split(':')`. */
  function Split(s: string): (r: seq<string>)
    ensures r != []
  {
    if s == "" then [""]
    else
      var rest := Split(s[1..]);
      if s[0] == ':' then [""] + rest else [[s[0]] + rest[0]] + rest[1..]
  }

  lemma {:induction false} SplitFirst(a: string, b: string)
    requires ColonFree(a)
    ensures Split(a + ":" + b) == [a] + Split(b)
  {
    if a == "" {
      assert (a + ":" + b)[1..] == b;
    } else {
      assert (a + ":" + b)[1..] == a[1..] + ":" + b;
      SplitFirst(a[1..], b);
      assert [a[0]] + a[1..] == a;
    }
  }

  lemma {:induction false} SplitOnly(a: string)
    requires ColonFree(a)
    ensures Split(a) == [a]
  {
    if a != "" {
      SplitOnly(a[1..]);
      assert [a[0]] + a[1..] == a;
    }
  }

  datatype Strategy = PerTurn | PerSession

  function TurnKey(session: string, turn: nat, role: string): string
  {
    session + ":" + ("turn" + ":" + (Decimal(turn) + ":" + role))
  }

  /** `memory_key`. */
  function MemoryKey(strategy: Strategy, session: string, turn: nat, role: string): string
  {
    match strategy
    case PerTurn => TurnKey(session, turn, role)
    case PerSession => session + ":" + "session"
  }

  /** The session and turn index the adjacency step reads off a key. */
  function ParseKey(key: string): Option<(string, int)>
  {
    var parts := Split(key);
    if |parts| < 4 || parts[1] != "turn" then None
    else
      var idx := ParseI64(parts[2]);
      if idx.None? then None else Some((parts[0], idx.value))
  }

  lemma SplitTurnKey(session: string, turn: nat, role: string)
    requires ColonFree(session)
    ensures Split(TurnKey(session, turn, role)) == [session, "turn", Decimal(turn)] + Split(role)
  {
    SplitFirst(session, "turn" + ":" + (Decimal(turn) + ":" + role));
    SplitFirst("turn", Decimal(turn) + ":" + role);
    SplitFirst(Decimal(turn), role);
  }

  /** A printed turn key of a colon-free session parses back to its session and index, unless the index
      does not fit a signed 64-bit integer; a printed session key never parses. */
  lemma KeyRoundTrip(strategy: Strategy, session: string, turn: nat, role: string)
    requires ColonFree(session)
    ensures ParseKey(MemoryKey(strategy, session, turn, role)) ==
            if strategy == PerTurn && turn <= I64_MAX then Some((session, turn)) else None
  {
    match strategy {
      case PerTurn =>
        SplitTurnKey(session, turn, role);
        ParsePrinted(turn);
      case PerSession =>
        SplitFirst(session, "session");
        SplitOnly("session");
    }
  }

  lemma NoColonAfter(a: string, b: string, k: nat)
    requires ColonFree(b) && |a| < k < |a| + 1 + |b|
    ensures (a + ":" + b)[k] != ':'
  {
    assert (a + ":" + b)[k] == b[k - |a| - 1];
  }

  /** A string has one last colon. */
  lemma CutAtLastColon(a: string, b: string, a': string, b': string)
    requires ColonFree(b) && ColonFree(b') && a + ":" + b == a' + ":" + b'
    ensures a == a' && b == b'
  {
    var s, s' := a + ":" + b, a' + ":" + b';
    forall k | |a| < k < |s| ensures s[k] != ':' {
      NoColonAfter(a, b, k);
    }
    forall k | |a'| < k < |s'| ensures s'[k] != ':' {
      NoColonAfter(a', b', k);
    }
    assert s[|a|] == ':' && s'[|a'|] == ':';
    assert |a| == |a'|;
    assert s[..|a|] == a && s'[..|a'|] == a';
    assert s[|a| + 1..] == b && s'[|a'| + 1..] == b';
  }

  /** Printed turn keys of distinct turns are distinct, whatever the session ids are made of, when the
      roles hold no colon. */
  lemma TurnKeyInjective(s: string, m: nat, r: string, s': string, m': nat, r': string)
    requires ColonFree(r) && ColonFree(r')
    requires TurnKey(s, m, r) == TurnKey(s', m', r')
    ensures s == s' && m == m' && r == r'
  {
    var d, d' := Decimal(m), Decimal(m');
    var t, t' := s + ":" + "turn", s' + ":" + "turn";
    assert TurnKey(s, m, r) == (t + ":" + d) + ":" + r;
    assert TurnKey(s', m', r') == (t' + ":" + d') + ":" + r';
    assert ColonFree(d) && ColonFree(d') && ColonFree("turn");
    hide *;
    CutAtLastColon(t + ":" + d, r, t' + ":" + d', r');
    CutAtLastColon(t, d, t', d');
    CutAtLastColon(s, "turn", s', "turn");
    DecimalInjective(m, m');
  }

  // ---- what keys look like

  /** A turn key, character by character. */
  lemma KeyExample()
    ensures MemoryKey(PerTurn, "s1", 1204, "user") == "s1:turn:1204:user"
    ensures MemoryKey(PerSession, "s1", 1204, "user") == "s1:session"
  {
    hide *;
    TwelveHundredAndFour();
    KeyText("s1", 1204, "user");
    assert "s1" + ":" + "session" == "s1:session";
    assert "s1" + ":turn:" + "1204" + ":" + "user" == "s1:turn:1204:user";
    SessionKeyText("s1", 1204, "user");
  }

  /** The digits of a number are those of its tenth and its last one. */
  lemma DecimalStep(n: nat, d: nat, init: string)
    requires n >= 1 && d < 10 && Decimal(n) == init
    ensures Decimal(10 * n + d) == init + [Digit(d)]
  {
    hide Digit;
    assert (10 * n + d) / 10 == n && (10 * n + d) % 10 == d;
  }

  lemma TwelveHundredAndFour()
    ensures Decimal(1204) == "1204"
  {
    assert Digit(1) == '1' && Digit(2) == '2' && Digit(0) == '0' && Digit(4) == '4';
    OneDigit(1);
    hide *;
    DecimalStep(1, 2, "1");
    DecimalStep(12, 0, "12");
    DecimalStep(120, 4, "120");
  }

  lemma OneDigit(a: nat)
    requires a < 10
    ensures Decimal(a) == [Digit(a)]
  {
    hide Digit;
  }

  lemma KeyText(session: string, turn: nat, role: string)
    ensures MemoryKey(PerTurn, session, turn, role) == session + ":turn:" + Decimal(turn) + ":" + role
  {
    hide Decimal;
    assert session + ":turn:" == session + ":" + "turn" + ":";
  }

  lemma SessionKeyText(session: string, turn: nat, role: string)
    ensures MemoryKey(PerSession, session, turn, role) == session + ":" + "session"
  {
  }

  lemma {:induction false} SplitJoins(s: string)
    ensures ColonFree(Split(s)[0])
    ensures |Split(s)| == 1 ==> s == Split(s)[0]
    ensures |Split(s)| > 1 ==>
              |Split(s)[0]| < |s| && s == Split(s)[0] + ":" + s[|Split(s)[0]| + 1..]
              && Split(s[|Split(s)[0]| + 1..]) == Split(s)[1..]
  {
    if s != "" {
      SplitJoins(s[1..]);
      SplitStep(s);
      hide Split;
      var rest := Split(s[1..]);
      assert s == [s[0]] + s[1..];
      if s[0] != ':' && |rest| > 1 {
        assert s[|rest[0]| + 2..] == s[1..][|rest[0]| + 1..];
      }
    }
  }

  lemma SplitStep(s: string)
    requires s != ""
    ensures var rest := Split(s[1..]);
            Split(s) == if s[0] == ':' then [""] + rest else [[s[0]] + rest[0]] + rest[1..]
  {
  }

  /** Main result for parsing: a key parses exactly when it is a session id without a colon, the word turn, a
      64-bit number, and at least one more part, separated by colons; and then to that id and number. */
  lemma ParseMeans(key: string, session: string, index: int)
    ensures ParseKey(key) == Some((session, index)) <==>
              exists number, rest ::
                && key == session + ":turn:" + number + ":" + rest
                && ColonFree(session) && ColonFree(number) && ParseI64(number) == Some(index)
  {
    if ParseKey(key) == Some((session, index)) {
      var number, rest := KeyParts(key);
    }
    forall number, rest
      | && key == session + ":turn:" + number + ":" + rest
        && ColonFree(session) && ColonFree(number) && ParseI64(number) == Some(index)
      ensures ParseKey(key) == Some((session, index))
    {
      assert key == session + ":" + ("turn" + ":" + (number + ":" + rest));
      hide *;
      SplitFour(session, number, rest);
      FourParts(key, session, number, rest);
    }
  }

  lemma FourParts(key: string, session: string, number: string, rest: string)
    requires Split(key) == [session, "turn", number] + Split(rest)
    ensures ParseI64(number).Some? ==> ParseKey(key) == Some((session, ParseI64(number).value))
  {
    hide Split, ParseI64;
  }

  lemma SplitFour(session: string, number: string, rest: string)
    requires ColonFree(session) && ColonFree(number)
    ensures Split(session + ":" + ("turn" + ":" + (number + ":" + rest))) == [session, "turn", number] + Split(rest)
  {
    assert ColonFree("turn");
    hide *;
    SplitFirst(session, "turn" + ":" + (number + ":" + rest));
    SplitFirst("turn", number + ":" + rest);
    SplitFirst(number, rest);
    ThreeFirst(session, "turn", number, Split(rest));
  }

  lemma ThreeFirst(a: string, b: string, c: string, rest: seq<string>)
    ensures [a] + ([b] + ([c] + rest)) == [a, b, c] + rest
  {
  }

  lemma KeyParts(key: string) returns (number: string, rest: string)
    requires ParseKey(key).Some?
    ensures var (session, index) := ParseKey(key).value;
            && key == session + ":turn:" + number + ":" + rest
            && ColonFree(session) && ColonFree(number) && ParseI64(number) == Some(index)
  {
    hide *;
    ParsedParts(key);
    var k1 := CutFirst(key);
    var k2 := CutFirst(k1);
    rest := CutFirst(k2);
    number := Split(key)[2];
    KeySpelled(ParseKey(key).value.0, number, rest);
  }

  lemma ParsedParts(key: string)
    requires ParseKey(key).Some?
    ensures var parts := Split(key);
            && |parts| >= 4 && parts[1] == "turn"
            && Some(ParseKey(key).value.1) == ParseI64(parts[2]) && ParseKey(key).value.0 == parts[0]
  {
    hide Split, ParseI64;
  }

  lemma KeySpelled(session: string, number: string, rest: string)
    ensures session + ":" + ("turn" + ":" + (number + ":" + rest)) == session + ":turn:" + number + ":" + rest
  {
  }

  /** What follows the first part and its colon. */
  lemma CutFirst(s: string) returns (rest: string)
    requires |Split(s)| > 1
    ensures s == Split(s)[0] + ":" + rest && Split(rest) == Split(s)[1..] && ColonFree(Split(s)[0])
  {
    hide *;
    SplitJoins(s);
    rest := s[|Split(s)[0]| + 1..];
  }

  /** Numbers are read as they are written: an optional sign, then digits, each worth ten times the next. */
  lemma {:induction false} NumbersMean(s: string, d: nat)
    requires d < 10
    ensures ParseI64("") == None && ParseI64("-") == None && ParseI64("+") == None
    ensures ParseI64(["0123456789"[d]]) == Some(d)
    ensures DigitsValue(s).Some? ==> DigitsValue(s + ["0123456789"[d]]) == Some(10 * DigitsValue(s).value + d)
    ensures DigitsValue(s).Some? && DigitsValue(s).value <= I64_MAX ==>
              && ParseI64(s) == Some(DigitsValue(s).value)
              && ParseI64("+" + s) == Some(DigitsValue(s).value)
              && ParseI64("-" + s) == Some(-(DigitsValue(s).value as int))
  {
    assert (s + ["0123456789"[d]])[..|s|] == s;
    assert ("-" + s)[1..] == s && ("+" + s)[1..] == s;
    assert "-"[1..] == "" && "+"[1..] == "";
    if DigitsValue(s).Some? {
      FirstIsDigit(s);
    }
  }

  lemma {:induction false} FirstIsDigit(s: string)
    requires DigitsValue(s).Some?
    ensures s != "" && '0' <= s[0] <= '9'
    decreases |s|
  {
    if |s| > 1 {
      FirstIsDigit(s[..|s| - 1]);
    }
  }
}
