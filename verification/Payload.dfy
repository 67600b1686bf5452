/** Length-prefixed signing payloads of `identity.rs`, as byte encodings. */
module Payload {
  import opened Options

  newtype byte = b: int | 0 <= b < 256

  type Bytes = seq<byte>

  /** The ASCII bytes of a tag. */
  function Ascii(s: string): (r: Bytes)
    requires forall i :: 0 <= i < |s| ==> s[i] < '\U{80}'
    ensures |r| == |s| && forall i :: 0 <= i < |r| ==> r[i] as int == s[i] as int
  {
    seq(|s|, i requires 0 <= i < |s| => s[i] as int as byte)
  }

  const TWO_32: nat := 0x1_0000_0000
  const BRAIN_ID_LEN: nat := 32

  function MemoryDomain(): Bytes { Ascii("spectral-memory-sig-v1") }
  function MemoryDomainV2(): Bytes { Ascii("spectral-memory-sig-v2") }
  function ObjectDomain(): Bytes { Ascii("spectral-federation-obj-sig-v1") }
  function TombstoneDomain(): Bytes { Ascii("spectral-federation-tombstone-sig-v1") }

  /** The length as a u32, which keeps the low 32 bits only, in little-endian order. */
  function LengthBytes(n: nat): (r: Bytes)
    ensures |r| == 4
  {
    var w := n % TWO_32;
    [(w % 256) as byte, (w / 256 % 256) as byte, (w / 65536 % 256) as byte, (w / 16777216) as byte]
  }

  function FromLength(s: Bytes): (n: nat)
    requires |s| == 4
    ensures n < TWO_32
  {
    s[0] as nat + 256 * s[1] as nat + 65536 * s[2] as nat + 16777216 * s[3] as nat
  }

  lemma LengthRoundTrip(n: nat)
    ensures FromLength(LengthBytes(n)) == n % TWO_32
  {
    var w := n % TWO_32;
    var x := w / 256;
    var y := x / 256;
    assert w / 65536 == y && w / 16777216 == y / 256;
    assert w == 256 * x + w % 256 && x == 256 * y + x % 256 && y == 256 * (y / 256) + y % 256;
  }

  /** Each field after its length. */
  function EncodeFields(fields: seq<Bytes>): Bytes
  {
    if fields == [] then []
    else EncodeFields(fields[..|fields| - 1]) + LengthBytes(|fields[|fields| - 1]|) + fields[|fields| - 1]
  }

  method AppendFields(prefix: Bytes, fields: seq<Bytes>) returns (buf: Bytes)
    ensures buf == prefix + EncodeFields(fields)
  {
    buf := prefix;
    for i := 0 to |fields|
      invariant buf == prefix + EncodeFields(fields[..i])
    {
      assert fields[..i + 1][..i] == fields[..i];
      buf := buf + LengthBytes(|fields[i]|);
      buf := buf + fields[i];
    }
    assert fields[..|fields|] == fields;
  }

  // ---- the four builders

  method MemorySigningPayload(brain: Bytes, contentHash: Bytes, createdAt: Bytes,
                              visibility: Bytes) returns (buf: Bytes)
    requires |brain| == BRAIN_ID_LEN
    ensures buf == Memory(brain, contentHash, createdAt, visibility).Payload()
    ensures buf == MemoryDomain() + brain + EncodeFields([contentHash, createdAt, visibility])
  {
    buf := AppendFields(MemoryDomain() + brain, [contentHash, createdAt, visibility]);
  }

  method MemorySigningPayloadV2(brain: Bytes, key: Bytes, contentHash: Bytes, createdAt: Bytes, visibility: Bytes)
    returns (buf: Bytes)
    requires |brain| == BRAIN_ID_LEN
    ensures buf == MemoryV2(brain, key, contentHash, createdAt, visibility).Payload()
    ensures buf == MemoryDomainV2() + brain + EncodeFields([key, contentHash, createdAt, visibility])
  {
    buf := AppendFields(MemoryDomainV2() + brain, [key, contentHash, createdAt, visibility]);
  }

  method FederationObjectPayload(objectHash: Bytes) returns (buf: Bytes)
    ensures buf == Object(objectHash).Payload()
    ensures buf == ObjectDomain() + EncodeFields([objectHash])
  {
    buf := AppendFields(ObjectDomain(), [objectHash]);
  }

  method FederationTombstonePayload(wing: Bytes, target: Bytes, ts: Bytes) returns (buf: Bytes)
    ensures buf == Tombstone(wing, target, ts).Payload()
    ensures buf == TombstoneDomain() + EncodeFields([wing, target, ts])
  {
    buf := AppendFields(TombstoneDomain(), [wing, target, ts]);
  }

  /** A signed statement: what a payload is built from. */
  datatype Statement =
    | Memory(brain: Bytes, contentHash: Bytes, createdAt: Bytes, visibility: Bytes)
    | MemoryV2(brain: Bytes, key: Bytes, contentHash: Bytes, createdAt: Bytes, visibility: Bytes)
    | Object(objectHash: Bytes)
    | Tombstone(wing: Bytes, target: Bytes, ts: Bytes)
  {
    function Domain(): Bytes
    {
      match this
      case Memory(_, _, _, _) => MemoryDomain()
      case MemoryV2(_, _, _, _, _) => MemoryDomainV2()
      case Object(_) => ObjectDomain()
      case Tombstone(_, _, _) => TombstoneDomain()
    }

    function Head(): Bytes
    {
      match this
      case Memory(b, _, _, _) => b
      case MemoryV2(b, _, _, _, _) => b
      case Object(_) => []
      case Tombstone(_, _, _) => []
    }

    function Fields(): seq<Bytes>
    {
      match this
      case Memory(_, h, c, v) => [h, c, v]
      case MemoryV2(_, k, h, c, v) => [k, h, c, v]
      case Object(h) => [h]
      case Tombstone(w, t, ts) => [w, t, ts]
    }

    function Payload(): Bytes
    {
      Domain() + Head() + EncodeFields(Fields())
    }

    ghost predicate WellFormed()
    {
      (Memory? || MemoryV2?) ==> |Head()| == BRAIN_ID_LEN
    }

    ghost predicate Short()
    {
      forall i :: 0 <= i < |Fields()| ==> |Fields()[i]| < TWO_32
    }
  }

  // ---- decoding

  /** Reads exactly count length-prefixed fields and nothing more. */
  function DecodeFields(s: Bytes, count: nat): Option<seq<Bytes>>
  {
    if count == 0 then (if s == [] then Some([]) else None)
    else if |s| < 4 then None
    else
      var n := FromLength(s[..4]);
      if |s| < 4 + n then None
      else
        match DecodeFields(s[4 + n..], count - 1)
        case None => None
        case Some(rest) => Some([s[4..4 + n]] + rest)
  }

  lemma {:induction false} EncodeFirst(fields: seq<Bytes>)
    requires fields != []
    ensures EncodeFields(fields) == LengthBytes(|fields[0]|) + fields[0] + EncodeFields(fields[1..])
    decreases |fields|
  {
    var n := |fields| - 1;
    if n == 0 {
      assert EncodeFields([]) == [];
      hide *;
      assert fields[1..] == [] && fields == [] + [fields[0]];
    } else {
      hide *;
      var init, last := fields[..n], fields[n];
      EncodeFirst(init);
      assert fields == init + [last] && fields[1..] == init[1..] + [last];
    }
  }

  /** A decoded field is always shorter than 2^32. */
  lemma {:induction false} DecodedAreShort(s: Bytes, count: nat)
    requires DecodeFields(s, count).Some?
    ensures forall i :: 0 <= i < |DecodeFields(s, count).value| ==> |DecodeFields(s, count).value[i]| < TWO_32
    decreases count
  {
    if count > 0 {
      DecodedAreShort(s[4 + FromLength(s[..4])..], count - 1);
    }
  }

  lemma {:induction false} ShortFieldsDecode(fields: seq<Bytes>)
    requires forall i :: 0 <= i < |fields| ==> |fields[i]| < TWO_32
    ensures DecodeFields(EncodeFields(fields), |fields|) == Some(fields)
    decreases |fields|
  {
    hide EncodeFields, DecodeFields, LengthBytes;
    if fields == [] {
      NoFields();
    } else {
      EncodeFirst(fields);
      ShortFieldsDecode(fields[1..]);
      DecodeStep(fields[0], EncodeFields(fields[1..]), |fields| - 1);
      assert [fields[0]] + fields[1..] == fields;
    }
  }

  lemma NoFields()
    ensures DecodeFields(EncodeFields([]), 0) == Some([])
  {
  }

  lemma DecodeStep(f: Bytes, tail: Bytes, count: nat)
    requires |f| < TWO_32
    ensures var rest := DecodeFields(tail, count);
            DecodeFields(LengthBytes(|f|) + f + tail, count + 1) ==
              if rest.None? then None else Some([f] + rest.value)
  {
    hide LengthBytes, FromLength;
    var s := LengthBytes(|f|) + f + tail;
    LengthRoundTrip(|f|);
    assert s[..4] == LengthBytes(|f|);
    assert s[4..4 + |f|] == f && s[4 + |f|..] == tail;
  }

  /** Fields can be read back exactly when every one is shorter than 2^32 bytes. */
  lemma FieldsRoundTrip(fields: seq<Bytes>)
    ensures DecodeFields(EncodeFields(fields), |fields|) == Some(fields)
            <==> forall i :: 0 <= i < |fields| ==> |fields[i]| < TWO_32
  {
    if DecodeFields(EncodeFields(fields), |fields|) == Some(fields) {
      DecodedAreShort(EncodeFields(fields), |fields|);
    } else if forall i :: 0 <= i < |fields| ==> |fields[i]| < TWO_32 {
      ShortFieldsDecode(fields);
    }
  }

  // ---- domain separation

  /** Payloads of different kinds are never equal, whatever the fields. */
  lemma KindsNeverCollide(s: Statement, t: Statement)
    requires s.Payload() == t.Payload()
    ensures s.Domain() == t.Domain()
    ensures (s.Memory? <==> t.Memory?) && (s.MemoryV2? <==> t.MemoryV2?)
    ensures (s.Object? <==> t.Object?) && (s.Tombstone? <==> t.Tombstone?)
  {
    hide EncodeFields;
    var p, q := s.Payload(), t.Payload();
    assert p[9] == s.Domain()[9] && q[9] == t.Domain()[9];
    assert p[20] == s.Domain()[20] && q[20] == t.Domain()[20];
    assert p[21] == s.Domain()[21] && q[21] == t.Domain()[21];
  }

  /** Main result: a payload identifies its statement. Two well-formed statements with fields shorter
      than 2^32 bytes and the same payload are equal. */
  lemma PayloadInjective(s: Statement, t: Statement)
    requires s.WellFormed() && t.WellFormed() && s.Short() && t.Short()
    requires s.Payload() == t.Payload()
    ensures s == t
  {
    hide EncodeFields, DecodeFields, MemoryDomain, MemoryDomainV2, ObjectDomain, TombstoneDomain;
    KindsNeverCollide(s, t);
    ShortFieldsDecode(s.Fields());
    ShortFieldsDecode(t.Fields());
    var d, h := |s.Domain()|, |s.Head()|;
    assert |t.Head()| == h;
    assert s.Payload()[d..d + h] == s.Head() && t.Payload()[d..d + h] == t.Head();
    assert s.Payload()[d + h..] == EncodeFields(s.Fields());
    assert t.Payload()[d + h..] == EncodeFields(t.Fields());
    assert s.Fields() == t.Fields();
    SameFields(s, t);
  }

  lemma SameFields(s: Statement, t: Statement)
    requires (s.Memory? <==> t.Memory?) && (s.MemoryV2? <==> t.MemoryV2?)
    requires (s.Object? <==> t.Object?) && (s.Tombstone? <==> t.Tombstone?)
    requires s.Head() == t.Head() && s.Fields() == t.Fields()
    ensures s == t
  {
    var a, b := s.Fields(), t.Fields();
    assert a[0] == b[0];
    assert |a| > 1 ==> a[1] == b[1];
    assert |a| > 2 ==> a[2] == b[2];
    assert |a| > 3 ==> a[3] == b[3];
  }

  function Zeros(n: nat): (r: Bytes)
    ensures |r| == n && forall i :: 0 <= i < n ==> r[i] == 0
  {
    seq(n, _ => 0 as byte)
  }

  /** The bound is needed: a field of 2^32 bytes has its length written as zero, and two different
      tombstones then have the same payload. */
  lemma LongFieldsCollide()
    ensures var long := Zeros(TWO_32);
            Tombstone(long, [], []).Payload() == Tombstone([], [], long).Payload()
  {
    var long := Zeros(TWO_32);
    ThreeFields(long, [], []);
    ThreeFields([], [], long);
    var four := Zeros(4);
    assert EncodeFields([long, [], []]) == four + long + (four + (four + []));
    assert EncodeFields([long, [], []]) == Zeros(TWO_32 + 12);
    assert EncodeFields([[], [], long]) == Zeros(TWO_32 + 12);
  }

  lemma ThreeFields(a: Bytes, b: Bytes, c: Bytes)
    ensures EncodeFields([a, b, c])
         == LengthBytes(|a|) + a + (LengthBytes(|b|) + b + (LengthBytes(|c|) + c))
  {
    EncodeFirst([a, b, c]);
    assert [a, b, c][1..] == [b, c] && [b, c][1..] == [c] && [c][1..] == [];
    EncodeFirst([b, c]);
    EncodeFirst([c]);
  }

  // ---- the layout

  /** The field stands at this place, after four bytes that hold its length, lowest byte first. */
  ghost predicate FieldAt(buf: Bytes, at: nat, field: Bytes)
  {
    && at + 4 + |field| <= |buf|
    && buf[at + 4..at + 4 + |field|] == field
    && buf[at] as int + 256 * buf[at + 1] as int + 65536 * buf[at + 2] as int + 16777216 * buf[at + 3] as int
       == |field| % 0x1_0000_0000
  }

  ghost predicate TextAt(buf: Bytes, at: nat, text: string)
  {
    at + |text| <= |buf| && forall i :: 0 <= i < |text| ==> buf[at + i] as int == text[i] as int
  }

  lemma FieldIsAt(before: Bytes, field: Bytes, after: Bytes)
    ensures FieldAt(before + (LengthBytes(|field|) + field + after), |before|, field)
  {
    var buf := before + (LengthBytes(|field|) + field + after);
    LengthRoundTrip(|field|);
    var n := |before|;
    assert buf[n..n + 4] == LengthBytes(|field|);
    hide LengthBytes;
    assert buf[n] == buf[n..n + 4][0] && buf[n + 1] == buf[n..n + 4][1];
    assert buf[n + 2] == buf[n..n + 4][2] && buf[n + 3] == buf[n..n + 4][3];
  }

  lemma {:induction false} FieldsAre(before: Bytes, fields: seq<Bytes>, i: nat, at: nat)
    requires i < |fields| && at == |before| + |EncodeFields(fields[..i])|
    ensures FieldAt(before + EncodeFields(fields), at, fields[i])
    ensures at + 4 + |fields[i]| == |before| + |EncodeFields(fields[..i + 1])|
    decreases |fields|
  {
    hide FieldAt, LengthBytes;
    assert fields[..i + 1][..i] == fields[..i];
    EncodeSplit(fields, i);
    var head, tail := EncodeFields(fields[..i]), EncodeFields(fields[i + 1..]);
    FieldIsAt(before + head, fields[i], tail);
    assert before + EncodeFields(fields) == before + head + (LengthBytes(|fields[i]|) + fields[i] + tail);
  }

  lemma {:induction false} EncodeSplit(fields: seq<Bytes>, i: nat)
    requires i < |fields|
    ensures EncodeFields(fields)
         == EncodeFields(fields[..i]) + (LengthBytes(|fields[i]|) + fields[i] + EncodeFields(fields[i + 1..]))
    decreases |fields|
  {
    hide LengthBytes;
    var n := |fields| - 1;
    if i == n {
      assert EncodeFields(fields[i + 1..]) == [];
    } else {
      var init := fields[..n];
      EncodeSplit(init, i);
      assert init[..i] == fields[..i] && fields[i + 1..][..n - i - 1] == init[i + 1..];
      assert fields[i + 1..][n - i - 1] == fields[n];
    }
  }

  /** The fields stand one after the other from this place to the end. */
  ghost predicate FieldsAt(buf: Bytes, at: nat, fields: seq<Bytes>)
    decreases |fields|
  {
    if fields == [] then at == |buf|
    else FieldAt(buf, at, fields[0]) && FieldsAt(buf, at + 4 + |fields[0]|, fields[1..])
  }

  lemma {:induction false} FieldsFrom(before: Bytes, fields: seq<Bytes>, i: nat)
    requires i <= |fields|
    ensures FieldsAt(before + EncodeFields(fields), |before| + |EncodeFields(fields[..i])|, fields[i..])
    decreases |fields| - i
  {
    hide FieldAt, EncodeFields;
    if i == |fields| {
      assert fields[..i] == fields;
    } else {
      FieldsAre(before, fields, i, |before| + |EncodeFields(fields[..i])|);
      FieldsFrom(before, fields, i + 1);
      assert fields[i..][1..] == fields[i + 1..];
    }
  }

  lemma TaggedFields(before: Bytes, fields: seq<Bytes>)
    ensures FieldsAt(before + EncodeFields(fields), |before|, fields)
  {
    hide FieldsAt;
    assert EncodeFields([]) == [];
    assert fields[..0] == [] && fields[0..] == fields;
    FieldsFrom(before, fields, 0);
  }

  /** Main result for the layout: byte for byte, a payload is its tag, for a memory the 32 bytes of the brain,
      and then every field after its length, in this order and with nothing after the last. */
  lemma PayloadLayout(s: Statement)
    requires s.WellFormed()
    ensures match s
            case Memory(brain, hash, created, visibility) =>
              && TextAt(s.Payload(), 0, "spectral-memory-sig-v1")
              && FieldsAt(s.Payload(), 54, [hash, created, visibility]) && s.Payload()[22..54] == brain
            case MemoryV2(brain, key, hash, created, visibility) =>
              && TextAt(s.Payload(), 0, "spectral-memory-sig-v2")
              && FieldsAt(s.Payload(), 54, [key, hash, created, visibility]) && s.Payload()[22..54] == brain
            case Object(hash) =>
              && TextAt(s.Payload(), 0, "spectral-federation-obj-sig-v1")
              && FieldsAt(s.Payload(), 30, [hash])
            case Tombstone(wing, target, ts) =>
              && TextAt(s.Payload(), 0, "spectral-federation-tombstone-sig-v1")
              && FieldsAt(s.Payload(), 36, [wing, target, ts])
  {
    hide EncodeFields, FieldsAt;
    TaggedFields(s.Domain() + s.Head(), s.Fields());
    var buf, d := s.Payload(), s.Domain();
    assert forall i :: 0 <= i < |d| ==> buf[i] == d[i];
    if s.Memory? || s.MemoryV2? {
      assert buf[|d|..|d| + 32] == s.Head();
    }
  }
}
