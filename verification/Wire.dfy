/**
 The wire-format primitives the generated message classes call: base-128 varints,
 length-delimited byte strings and the fields a message does not know.
 Semantics: the Protocol Buffers "Encoding" document, sections "Base 128 Varints"
 and "Message Structure". The runtime library itself is not part of this model.
 */
module Wire {
  import opened Bytes

  const TWO_32: nat := 0x1_0000_0000
  const TWO_64: nat := 0x1_0000_0000_0000_0000
  /** Lengths travel through a C++ int. */
  const LENGTH_LIMIT: nat := 0x8000_0000
  /** A varint of at most 64 bits takes at most this many bytes. */
  const MAX_VARINT: nat := 10

  const VARINT: nat := 0
  const FIXED64: nat := 1
  const DELIMITED: nat := 2
  const START_GROUP: nat := 3
  const END_GROUP: nat := 4
  const FIXED32: nat := 5

  // ---------------------------------------------------------------- varints

  function Varint(n: nat): (bs: Bytes)
    ensures bs != []
  {
    if n < 128 then [n] else [n % 128 + 128] + Varint(n / 128)
  }

  /** Reads at most `k` bytes; the value is not yet truncated to a width. */
  function ReadRaw(s: Bytes, k: nat): (r: Read<nat>)
    ensures r.Good? ==> |r.rest| < |s|
  {
    if s == [] || k == 0 then Bad
    else if s[0] < 128 then Good(s[0], s[1..])
    else match ReadRaw(s[1..], k - 1)
      case Bad => Bad
      case Good(v, rest) => Good(s[0] - 128 + 128 * v, rest)
  }

  function ReadVarint32(s: Bytes): (r: Read<nat>)
    ensures r.Good? ==> |r.rest| < |s| && r.value < TWO_32
  {
    match ReadRaw(s, MAX_VARINT)
    case Bad => Bad
    case Good(v, rest) => Good(v % TWO_32, rest)
  }

  function ReadVarint64(s: Bytes): (r: Read<nat>)
    ensures r.Good? ==> |r.rest| < |s| && r.value < TWO_64
  {
    match ReadRaw(s, MAX_VARINT)
    case Bad => Bad
    case Good(v, rest) => Good(v % TWO_64, rest)
  }

  function Pow128(k: nat): (p: nat)
    ensures p > 0
  {
    if k == 0 then 1 else 128 * Pow128(k - 1)
  }

  lemma {:induction false} ReadRawOfVarint(n: nat, k: nat, r: Bytes)
    requires 0 < k && n < Pow128(k)
    ensures ReadRaw(Varint(n) + r, k) == Good(n, r)
    decreases k
  {
    if n < 128 {
      assert (Varint(n) + r)[1..] == r;
    } else {
      var q, p := n / 128, Pow128(k - 1);
      assert 1 <= q < p;
      ReadRawOfVarint(q, k - 1, r);
      var s := Varint(n) + r;
      assert s[0] == n % 128 + 128 && s[1..] == Varint(q) + r;
      assert n == n % 128 + 128 * q;
    }
  }

  lemma Pow128Ten()
    ensures Pow128(MAX_VARINT) > TWO_64
  {
    assert Pow128(2) == 128 * 128;
    assert Pow128(4) == 128 * 128 * Pow128(2);
    assert Pow128(6) == 128 * 128 * Pow128(4);
    assert Pow128(8) == 128 * 128 * Pow128(6);
    assert Pow128(10) == 128 * 128 * Pow128(8);
  }

  lemma ReadRawOfWritten(n: nat, r: Bytes)
    requires n < TWO_64
    ensures ReadRaw(Varint(n) + r, MAX_VARINT) == Good(n, r)
  {
    Pow128Ten();
    ReadRawOfVarint(n, MAX_VARINT, r);
  }

  lemma ModOfSmaller(n: nat, m: nat)
    requires n < m
    ensures n % m == n
  {
  }

  /** What either reader makes of a written varint: the value cut to the reader's width. */
  lemma VarintRoundTrip(n: nat, r: Bytes)
    requires n < TWO_64
    ensures ReadVarint64(Varint(n) + r) == Good(n, r)
    ensures ReadVarint32(Varint(n) + r) == Good(n % TWO_32, r)
  {
    ReadRawOfWritten(n, r);
    ModOfSmaller(n, TWO_64);
  }

  lemma Varint32RoundTrip(n: nat, r: Bytes)
    requires n < TWO_32
    ensures ReadVarint32(Varint(n) + r) == Good(n, r)
  {
    ReadRawOfWritten(n, r);
    ModOfSmaller(n, TWO_32);
  }

  lemma {:induction false} ReadRawLocal(s: Bytes, k: nat, t: Bytes)
    requires ReadRaw(s, k).Good?
    ensures ReadRaw(s + t, k) == Good(ReadRaw(s, k).value, ReadRaw(s, k).rest + t)
  {
    assert (s + t)[1..] == s[1..] + t;
    if s[0] >= 128 {
      ReadRawLocal(s[1..], k - 1, t);
    }
  }

  lemma ReadVarint32Local(s: Bytes, t: Bytes)
    requires ReadVarint32(s).Good?
    ensures ReadVarint32(s + t) == Good(ReadVarint32(s).value, ReadVarint32(s).rest + t)
  {
    ReadRawLocal(s, MAX_VARINT, t);
  }

  // ---------------------------------------------------------------- byte strings

  function Delimited(b: Bytes): Bytes {
    Varint(|b|) + b
  }

  /** A length and that many bytes; a negative int or a length past the input fails. */
  function ReadBytes(s: Bytes): (r: Read<Bytes>)
    ensures r.Good? ==> |r.rest| < |s| && |r.value| < |s| && |r.value| < LENGTH_LIMIT
  {
    match ReadVarint32(s)
    case Bad => Bad
    case Good(n, rest) =>
      if n < LENGTH_LIMIT && n <= |rest| then Good(rest[..n], rest[n..]) else Bad
  }

  lemma ReadBytesOfDelimited(b: Bytes, r: Bytes)
    requires |b| < LENGTH_LIMIT
    ensures ReadBytes(Delimited(b) + r) == Good(b, r)
  {
    assert Delimited(b) + r == Varint(|b|) + (b + r);
    Varint32RoundTrip(|b|, b + r);
  }

  lemma ReadBytesLocal(s: Bytes, t: Bytes)
    requires ReadBytes(s).Good?
    ensures ReadBytes(s + t) == Good(ReadBytes(s).value, ReadBytes(s).rest + t)
  {
    ReadVarint32Local(s, t);
    var n := ReadVarint32(s).value;
    var rest := ReadVarint32(s).rest;
    assert (rest + t)[..n] == rest[..n];
    assert (rest + t)[n..] == rest[n..] + t;
  }

  // ---------------------------------------------------------------- unknown fields

  /** One entry of an unknown field set: the tag it arrived under and its value. */
  datatype Unknown = Unknown(tag: nat, data: Payload)

  datatype Payload =
    | Num(n: nat)
    | Fixed(raw: Bytes)
    | Len(bytes: Bytes)
    | Group(fields: seq<Unknown>)

  ghost predicate PayloadOK(tag: nat, p: Payload)
    decreases p, 0
  {
    match p
    case Num(n) => tag % 8 == VARINT && n < TWO_64
    case Fixed(raw) => (tag % 8 == FIXED64 && |raw| == 8) || (tag % 8 == FIXED32 && |raw| == 4)
    case Len(b) => tag % 8 == DELIMITED && |b| < LENGTH_LIMIT
    case Group(us) => tag % 8 == START_GROUP && forall i :: 0 <= i < |us| ==> UnknownOK(us[i])
  }

  ghost predicate UnknownOK(u: Unknown)
    decreases u, 1
  {
    0 < u.tag < TWO_32 && PayloadOK(u.tag, u.data)
  }

  function EncodeUnknown(u: Unknown): Bytes
    decreases u, 2
  {
    Varint(u.tag) + EncodePayload(u.tag, u.data)
  }

  function EncodePayload(tag: nat, p: Payload): Bytes
    decreases p, 1
  {
    match p
    case Num(n) => Varint(n)
    case Fixed(raw) => raw
    case Len(b) => Delimited(b)
    case Group(us) => EncodeUnknowns(us) + Varint(tag + 1)
  }

  function EncodeUnknowns(us: seq<Unknown>): Bytes
    decreases us, 0
  {
    if us == [] then [] else EncodeUnknown(us[0]) + EncodeUnknowns(us[1..])
  }

  /** Reads the value of a field whose tag has been read and which the message does not keep itself. */
  function Skip(tag: nat, s: Bytes): (r: Read<Payload>)
    ensures r.Good? ==> |r.rest| <= |s|
    decreases |s|, 1
  {
    if tag % 8 == VARINT then
      match ReadVarint64(s) case Bad => Bad case Good(v, rest) => Good(Num(v), rest)
    else if tag % 8 == FIXED64 then
      if |s| < 8 then Bad else Good(Fixed(s[..8]), s[8..])
    else if tag % 8 == DELIMITED then
      match ReadBytes(s) case Bad => Bad case Good(b, rest) => Good(Len(b), rest)
    else if tag % 8 == START_GROUP then
      match SkipGroup(tag + 1, s) case Bad => Bad case Good(us, rest) => Good(Group(us), rest)
    else if tag % 8 == FIXED32 then
      if |s| < 4 then Bad else Good(Fixed(s[..4]), s[4..])
    else Bad
  }

  /** The fields of a group up to its end tag. */
  function SkipGroup(endTag: nat, s: Bytes): (r: Read<seq<Unknown>>)
    ensures r.Good? ==> |r.rest| <= |s|
    decreases |s|, 0
  {
    match ReadVarint32(s)
    case Bad => Bad
    case Good(tag, rest) =>
      if tag == 0 then Bad
      else if tag % 8 == END_GROUP then
        if tag == endTag then Good([], rest) else Bad
      else match Skip(tag, rest)
        case Bad => Bad
        case Good(p, rest1) =>
          match SkipGroup(endTag, rest1)
          case Bad => Bad
          case Good(us, rest2) => Good([Unknown(tag, p)] + us, rest2)
  }

  lemma {:induction false} SkipOK(tag: nat, s: Bytes)
    requires Skip(tag, s).Good?
    ensures PayloadOK(tag, Skip(tag, s).value)
    decreases |s|, 1
  {
    if tag % 8 == START_GROUP {
      SkipGroupOK(tag + 1, s);
    }
  }

  lemma {:induction false} SkipGroupOK(endTag: nat, s: Bytes)
    requires SkipGroup(endTag, s).Good?
    ensures forall i :: 0 <= i < |SkipGroup(endTag, s).value| ==> UnknownOK(SkipGroup(endTag, s).value[i])
    decreases |s|, 0
  {
    var Good(tag, rest) := ReadVarint32(s);
    if tag % 8 != END_GROUP {
      SkipOK(tag, rest);
      SkipGroupOK(endTag, Skip(tag, rest).rest);
    }
  }

  lemma {:induction false} SkipLocal(tag: nat, s: Bytes, t: Bytes)
    requires Skip(tag, s).Good?
    ensures Skip(tag, s + t) == Good(Skip(tag, s).value, Skip(tag, s).rest + t)
    decreases |s|, 1
  {
    if tag % 8 == VARINT {
      ReadRawLocal(s, MAX_VARINT, t);
    } else if tag % 8 == FIXED64 {
      assert (s + t)[..8] == s[..8] && (s + t)[8..] == s[8..] + t;
    } else if tag % 8 == DELIMITED {
      ReadBytesLocal(s, t);
    } else if tag % 8 == START_GROUP {
      SkipGroupLocal(tag + 1, s, t);
    } else {
      assert (s + t)[..4] == s[..4] && (s + t)[4..] == s[4..] + t;
    }
  }

  lemma {:induction false} SkipGroupLocal(endTag: nat, s: Bytes, t: Bytes)
    requires SkipGroup(endTag, s).Good?
    ensures SkipGroup(endTag, s + t) == Good(SkipGroup(endTag, s).value, SkipGroup(endTag, s).rest + t)
    decreases |s|, 0
  {
    ReadVarint32Local(s, t);
    var Good(tag, rest) := ReadVarint32(s);
    if tag % 8 != END_GROUP {
      SkipLocal(tag, rest, t);
      SkipGroupLocal(endTag, Skip(tag, rest).rest, t);
    }
  }

  /** Every unknown value, groups included, survives being written and read back. */
  lemma {:induction false} SkipOfEncoded(u: Unknown, r: Bytes)
    requires UnknownOK(u)
    ensures Skip(u.tag, EncodePayload(u.tag, u.data) + r) == Good(u.data, r)
    decreases u, 1
  {
    if u.data.Group? {
      SkipWholeGroup(u.tag, u.data.fields, r);
    } else {
      SkipLeaf(u, r);
    }
  }

  lemma SkipLeaf(u: Unknown, r: Bytes)
    requires UnknownOK(u) && !u.data.Group?
    ensures Skip(u.tag, EncodePayload(u.tag, u.data) + r) == Good(u.data, r)
  {
    match u.data
    case Num(n) => VarintRoundTrip(n, r);
    case Fixed(raw) => assert (raw + r)[..|raw|] == raw && (raw + r)[|raw|..] == r;
    case Len(b) => ReadBytesOfDelimited(b, r);
  }

  lemma {:induction false} SkipWholeGroup(tag: nat, us: seq<Unknown>, r: Bytes)
    requires 0 < tag < TWO_32 && tag % 8 == START_GROUP && AllUnknownOK(us)
    ensures Skip(tag, EncodePayload(tag, Group(us)) + r) == Good(Group(us), r)
    decreases us, 1
  {
    var end := Varint(tag + 1) + r;
    Regroup(EncodeUnknowns(us), Varint(tag + 1), r);
    Varint32RoundTrip(tag + 1, r);
    SkipGroupEnd(tag + 1, end, r);
    SkipGroupOfEncoded(tag + 1, us, end, r);
  }

  lemma TagIsFieldTag(u: Unknown)
    requires UnknownOK(u)
    ensures 0 < u.tag < TWO_32 && u.tag % 8 != END_GROUP
  {
    assert PayloadOK(u.tag, u.data);
  }

  ghost predicate AllUnknownOK(us: seq<Unknown>) {
    forall i :: 0 <= i < |us| ==> UnknownOK(us[i])
  }

  lemma EncodeUnknownsHead(us: seq<Unknown>)
    requires us != []
    ensures EncodeUnknowns(us)
         == Varint(us[0].tag) + (EncodePayload(us[0].tag, us[0].data) + EncodeUnknowns(us[1..]))
  {
  }

  lemma EncodeGroupHead(us: seq<Unknown>, r: Bytes)
    requires us != []
    ensures EncodeUnknowns(us) + r
         == Varint(us[0].tag) + (EncodePayload(us[0].tag, us[0].data) + (EncodeUnknowns(us[1..]) + r))
  {
  }

  lemma SkipGroupStep(endTag: nat, s: Bytes, tag: nat, body: Bytes)
    requires ReadVarint32(s) == Good(tag, body) && 0 < tag && tag % 8 != END_GROUP
    requires Skip(tag, body).Good? && SkipGroup(endTag, Skip(tag, body).rest).Good?
    ensures SkipGroup(endTag, s)
         == Good([Unknown(tag, Skip(tag, body).value)] + SkipGroup(endTag, Skip(tag, body).rest).value,
                 SkipGroup(endTag, Skip(tag, body).rest).rest)
  {
  }

  lemma SkipGroupEnd(endTag: nat, s: Bytes, r: Bytes)
    requires ReadVarint32(s) == Good(endTag, r) && endTag % 8 == END_GROUP
    ensures SkipGroup(endTag, s) == Good([], r)
  {
  }

  lemma {:induction false} SkipGroupOfEncoded(endTag: nat, us: seq<Unknown>, tail: Bytes, r: Bytes)
    requires SkipGroup(endTag, tail) == Good([], r)
    requires AllUnknownOK(us)
    ensures SkipGroup(endTag, EncodeUnknowns(us) + tail) == Good(us, r)
    decreases us, 0
  {
    if us == [] {
      assert EncodeUnknowns(us) + tail == tail;
    } else {
      var u, more := us[0], EncodeUnknowns(us[1..]) + tail;
      var body := EncodePayload(u.tag, u.data) + more;
      TagIsFieldTag(u);
      EncodeGroupHead(us, tail);
      SkipOfEncoded(u, more);
      SkipGroupOfEncoded(endTag, us[1..], tail, r);
      Varint32RoundTrip(u.tag, body);
      SkipGroupStep(endTag, Varint(u.tag) + body, u.tag, body);
      assert [u] + us[1..] == us;
    }
  }
}
