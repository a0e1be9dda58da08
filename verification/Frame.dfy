/**
 A message in its transport frame: total length, name length, NUL-terminated type name, the
 serialized message, and a checksum over everything between. CRC-32 is any function `crc`, and the
 generated descriptor pool is any map from type names to message types.
 */
module Frame {
  import opened Bytes
  import opened Wire
  import opened Messages
  import opened MessageParse
  import opened MessageSerialize
  import opened MessageObject
  import opened ByteOrder
  import opened NetByteOrder
  import opened MessagePaths

  type Uint32 = n: nat | n < TWO_32
  type Crc = Bytes -> Uint32
  type Pool = map<Bytes, MsgType>

  /** The bytes a frame has besides the type name and the message. */
  const OVERHEAD: nat := 13

  /** int32(u) */
  function Signed32(u: Uint32): int {
    if u < LENGTH_LIMIT then u else u - TWO_32
  }

  predicate IsInt32(v: int) {
    0 <= v + LENGTH_LIMIT < TWO_32
  }

  /** A value squeezed through 32 bits comes back as it was, or far from it. */
  lemma Narrowed(v: int)
    ensures IsInt32(v) ==> Signed32(v % TWO_32) == v
    ensures !IsInt32(v) ==> Signed32(v % TWO_32) <= v - TWO_32 || v + TWO_32 <= Signed32(v % TWO_32)
  {
  }

  lemma FourBytes()
    ensures Pow256(4) == TWO_32
  {
    assert Pow256(2) == 65536;
  }

  // ---------------------------------------------------------------- the format

  /** What a type name and ByteSize can be: their sizes are ints, and a name has no NUL. */
  ghost predicate Encodable(name: Bytes, data: Bytes) {
    0 !in name && |name| + 1 < LENGTH_LIMIT && |data| < LENGTH_LIMIT
  }

  /** And the length of the frame fits msg_length_t. */
  ghost predicate Framable(name: Bytes, data: Bytes) {
    Encodable(name, data) && OVERHEAD + |name| + |data| < TWO_32
  }

  /** What the checksum covers. */
  function Body(name: Bytes, data: Bytes): Bytes {
    Net(|name| + 1, 4) + (name + [0]) + data
  }

  function FrameOf(crc: Crc, name: Bytes, data: Bytes): (f: Bytes)
    ensures |f| == OVERHEAD + |name| + |data|
  {
    Net(|Body(name, data)| + 4, 4) + Body(name, data) + Net(crc(Body(name, data)), 4)
  }

  /** std::string(buf + 8): the bytes before the next NUL; none when the frame has no NUL there. */
  function NameAt(s: Bytes): (r: Option<Bytes>)
    ensures r.Some? ==> |r.value| < |s| && s[..|r.value|] == r.value && s[|r.value|] == 0 && 0 !in r.value
  {
    if s == [] then None
    else if s[0] == 0 then Some([])
    else match NameAt(s[1..]) case None => None case Some(name) => Some([s[0]] + name)
  }

  lemma {:induction false} NameBefore(name: Bytes, r: Bytes)
    requires 0 !in name
    ensures NameAt(name + [0] + r) == Some(name)
  {
    var s := name + [0] + r;
    if name != [] {
      assert s[0] == name[0] && s[1..] == name[1..] + [0] + r;
      NameBefore(name[1..], r);
      assert name == [name[0]] + name[1..];
    }
  }

  /** Crash: a failed assertion, a null descriptor, or memory outside the frame is used. */
  datatype Decoded = Crash | Null | Message(name: Bytes, msg: Msg)

  /** What the decoder makes of the bytes of a frame. */
  function Decode(pool: Pool, crc: Crc, f: Bytes): (d: Decoded)
    requires |f| < TWO_32
    ensures d.Message? ==> d.name in pool && Typed(pool[d.name], d.msg)
  {
    if |f| < 8 || NetValue(f[..4]) != |f| - 4 then Crash
    else
      match NameAt(f[8..])
      case None => Crash
      case Some(name) =>
        if name !in pool then Crash else DecodeNamed(pool[name], crc, f, name)
  }

  /** Where the name length says the message begins. */
  function Start(f: Bytes): int
    requires 8 <= |f|
  {
    FourBytes();
    NetOfValue(f[4..8]);
    8 + Signed32(NetValue(f[4..8]))
  }

  function DecodeNamed(mt: MsgType, crc: Crc, f: Bytes, name: Bytes): (d: Decoded)
    requires 8 <= |f|
    ensures d.Message? ==> d.name == name && Typed(mt, d.msg)
  {
    var start, end := Start(f), |f| - 4;
    if !IsInt32(end - start) then Crash
    else if NetValue(f[end..]) != crc(f[4..end]) then Null
    else if start < 0 || end < start then Crash
    else Content(mt, f[start..end], name)
  }

  /** ParseFromArray on the message bytes. */
  function Content(mt: MsgType, data: Bytes, name: Bytes): (d: Decoded)
    ensures d.Message? ==> d.name == name && Typed(mt, d.msg)
  {
    var o := Parse(mt, data);
    if o.status == Done && Initialized(mt, o.msg) then Message(name, o.msg) else Null
  }

  // ---------------------------------------------------------------- laws

  ghost predicate PoolOK(pool: Pool) {
    forall name :: name in pool ==> TypeOK(pool[name])
  }

  /** Where the parts of a frame are. */
  lemma FrameParts(head: Bytes, size: Bytes, name: Bytes, data: Bytes, check: Bytes)
    requires |head| == |size| == |check| == 4
    ensures var f := head + (size + (name + [0]) + data) + check;
      && f[..4] == head && f[4..8] == size && f[8..] == name + [0] + (data + check)
      && f[4..|f| - 4] == size + (name + [0]) + data && f[|f| - 4..] == check
      && f[8 + (|name| + 1)..|f| - 4] == data
  {
  }

  /** The numbers of a frame are read back. */
  lemma NumbersRead(length: nat, n: nat, sum: nat)
    requires length < TWO_32 && n < LENGTH_LIMIT && sum < TWO_32
    ensures NetValue(Net(length, 4)) == length && NetValue(Net(n, 4)) == n && NetValue(Net(sum, 4)) == sum
  {
    FourBytes();
    NetRoundTrip(length, 4);
    NetRoundTrip(n, 4);
    NetRoundTrip(sum, 4);
  }

  lemma FrameReads(crc: Crc, name: Bytes, data: Bytes)
    requires Framable(name, data)
    ensures var f := FrameOf(crc, name, data);
      && NetValue(f[..4]) == |f| - 4 && Start(f) == 8 + (|name| + 1) && NameAt(f[8..]) == Some(name)
      && NetValue(f[|f| - 4..]) == crc(f[4..|f| - 4]) && f[Start(f)..|f| - 4] == data
  {
    hide Net, NetValue, NameAt, Start;
    var n, body := |name| + 1, Body(name, data);
    var head, size, check := Net(|body| + 4, 4), Net(n, 4), Net(crc(body), 4);
    FrameParts(head, size, name, data, check);
    hide FrameOf, Body;
    NumbersRead(|body| + 4, n, crc(body));
    NameBefore(name, data + check);
    StartsAt(FrameOf(crc, name, data), n);
  }

  lemma StartsAt(f: Bytes, n: nat)
    requires 8 <= |f| && NetValue(f[4..8]) == n < LENGTH_LIMIT
    ensures Start(f) == 8 + n
  {
  }

  /** Decoding an encoded frame parses the message bytes that were framed, under the same name. */
  lemma DecodeOfFrame(pool: Pool, crc: Crc, name: Bytes, data: Bytes)
    requires Framable(name, data) && name in pool
    ensures Decode(pool, crc, FrameOf(crc, name, data))
         == Content(pool[name], data, name)
  {
    FrameReads(crc, name, data);
  }

  /** A frame gives back its type and content exactly when the message is one that parsing can
      produce and has all its required fields. */
  lemma FrameRoundTripIff(pool: Pool, crc: Crc, name: Bytes, m: Msg)
    requires PoolOK(pool) && name in pool && Typed(pool[name], m)
    requires Framable(name, Serialize(pool[name], m))
    ensures Decode(pool, crc, FrameOf(crc, name, Serialize(pool[name], m))) == Message(name, m)
      <==> WellFormed(pool[name], m) && Initialized(pool[name], m)
  {
    DecodeOfFrame(pool, crc, name, Serialize(pool[name], m));
    RoundTripIff(pool[name], m);
    if WellFormed(pool[name], m) {
      RoundTrip(pool[name], m);
    }
  }

  /** Whatever the decoder returns was in a frame whose checksum holds over name length, name and
      data, and encoding it again gives a frame that decodes to the same message. */
  lemma ReturnedIsChecked(pool: Pool, crc: Crc, f: Bytes)
    requires PoolOK(pool) && |f| < TWO_32 && Decode(pool, crc, f).Message?
    ensures NetValue(f[..4]) == |f| - 4 && NetValue(f[|f| - 4..]) == crc(f[4..|f| - 4])
    ensures var d := Decode(pool, crc, f);
      var data := Serialize(pool[d.name], d.msg);
      Framable(d.name, data) ==> Decode(pool, crc, FrameOf(crc, d.name, data)) == d
  {
    var d := Decode(pool, crc, f);
    var data := Serialize(pool[d.name], d.msg);
    if Framable(d.name, data) {
      var start := Start(f);
      DefaultWellFormed(pool[d.name]);
      DefaultTyped(pool[d.name]);
      ParseWellFormed(pool[d.name], Default(pool[d.name]), f[start..|f| - 4]);
      FrameRoundTripIff(pool, crc, d.name, d.msg);
    }
  }

  /** No two messages share a frame. */
  lemma FramesDiffer(crc: Crc, n1: Bytes, d1: Bytes, n2: Bytes, d2: Bytes)
    requires Framable(n1, d1) && Framable(n2, d2) && FrameOf(crc, n1, d1) == FrameOf(crc, n2, d2)
    ensures n1 == n2 && d1 == d2
  {
    FrameReads(crc, n1, d1);
    FrameReads(crc, n2, d2);
  }

  // ---------------------------------------------------------------- every outcome

  /** The header is the length of the frame without itself, most significant byte first. */
  predicate Stated(f: Bytes) {
    |f| >= 8 && BigEndian(f[0], f[1], f[2], f[3]) == |f| - 4
  }

  /** The bytes from the ninth on up to the first NUL. */
  predicate Named(f: Bytes, name: Bytes) {
    8 + |name| < |f| && f[8..8 + |name|] == name && f[8 + |name|] == 0 && 0 !in name
  }

  /** Where the message begins: behind as many bytes as the int32 after the header says. */
  function DataFrom(f: Bytes): int
    requires |f| >= 8
  {
    var n: int := BigEndian(f[4], f[5], f[6], f[7]);
    8 + if n < 0x8000_0000 then n else n - 0x1_0000_0000
  }

  /** The last four bytes are the checksum of all that is between them and the header. */
  predicate Checked(crc: Crc, f: Bytes)
    requires |f| >= 8
  {
    BigEndian(f[|f| - 4], f[|f| - 3], f[|f| - 2], f[|f| - 1]) == crc(f[4..|f| - 4])
  }

  /** An int holds the distance from the message to the checksum, so that the checksum is found. */
  predicate Reaches(f: Bytes)
    requires |f| >= 8
  {
    -0x8000_0000 <= |f| - 4 - DataFrom(f) < 0x8000_0000
  }

  predicate DataInside(f: Bytes)
    requires |f| >= 8
  {
    0 <= DataFrom(f) <= |f| - 4
  }

  ghost predicate Known(pool: Pool, f: Bytes, name: Bytes) {
    Stated(f) && Named(f, name) && name in pool
  }

  /** What can be framed: name with its NUL and message have sizes below 2^31, and the frame below 2^32. */
  lemma FramableIff(name: Bytes, data: Bytes)
    ensures Encodable(name, data)
       <==> (forall i :: 0 <= i < |name| ==> name[i] != 0) && |name| <= 0x7FFF_FFFE && |data| <= 0x7FFF_FFFF
    ensures Framable(name, data) <==> Encodable(name, data) && 13 + |name| + |data| <= 0xFFFF_FFFF
  {
  }

  /** The frame of an encoded message, part by part. */
  lemma FrameLayout(crc: Crc, name: Bytes, data: Bytes)
    requires Framable(name, data)
    ensures var f := FrameOf(crc, name, data);
      && |f| == 13 + |name| + |data| && Stated(f) && Named(f, name) && DataFrom(f) == 9 + |name|
      && f[9 + |name|..|f| - 4] == data && Checked(crc, f)
  {
    FrameReads(crc, name, data);
    var f := FrameOf(crc, name, data);
    hide FrameOf, Framable, NameAt;
    FrameNumbers(f);
    assert f[8..][..|name|] == f[8..8 + |name|] && f[8..][|name|] == f[8 + |name|];
  }

  lemma FrameNumbers(f: Bytes)
    requires |f| >= 8
    ensures NetValue(f[..4]) == BigEndian(f[0], f[1], f[2], f[3])
    ensures NetValue(f[|f| - 4..]) == BigEndian(f[|f| - 4], f[|f| - 3], f[|f| - 2], f[|f| - 1])
    ensures Start(f) == DataFrom(f)
  {
    NetValueOfFour(f[..4]);
    NetValueOfFour(f[4..8]);
    NetValueOfFour(f[|f| - 4..]);
  }

  lemma NameIff(f: Bytes, name: Bytes)
    requires |f| >= 8
    ensures NameAt(f[8..]) == Some(name) <==> Named(f, name)
  {
    if Named(f, name) {
      NameBefore(name, f[8..][|name| + 1..]);
      assert f[8..] == name + [0] + f[8..][|name| + 1..];
    }
    if NameAt(f[8..]) == Some(name) {
      assert f[8..][..|name|] == f[8..8 + |name|] && f[8..][|name|] == f[8 + |name|];
    }
  }

  /** The bytes of the message can be no message of the type. */
  ghost predicate Refused(mt: MsgType, data: Bytes) {
    forall m :: !Accepted(mt, data, m)
  }

  lemma ContentIff(mt: MsgType, data: Bytes, name: Bytes)
    requires TypeOK(mt)
    ensures Content(mt, data, name) == Null <==> Refused(mt, data)
    ensures Content(mt, data, name) != Crash
    ensures forall m, other :: Content(mt, data, name) == Message(other, m) <==> other == name && Accepted(mt, data, m)
  {
    forall m ensures Parse(mt, data).status == Done && Parse(mt, data).msg == m && Initialized(mt, Parse(mt, data).msg)
                <==> Accepted(mt, data, m)
    {
      AcceptedIff(mt, data, m);
    }
    var o := Parse(mt, data);
    assert Accepted(mt, data, o.msg) <==> o.status == Done && Initialized(mt, o.msg);
  }

  lemma DecodeUnknown(pool: Pool, crc: Crc, f: Bytes)
    requires |f| < TWO_32 && forall name :: !Known(pool, f, name)
    ensures Decode(pool, crc, f) == Crash
  {
    if |f| >= 8 {
      FrameNumbers(f);
      if NameAt(f[8..]).Some? {
        NameIff(f, NameAt(f[8..]).value);
        assert !Known(pool, f, NameAt(f[8..]).value);
      }
    }
  }

  lemma DecodeKnown(pool: Pool, crc: Crc, f: Bytes, name: Bytes)
    requires |f| < TWO_32 && Known(pool, f, name)
    ensures NameAt(f[8..]) == Some(name)
    ensures Decode(pool, crc, f) ==
      if !Reaches(f) then Crash
      else if !Checked(crc, f) then Null
      else if !DataInside(f) then Crash
      else Content(pool[name], f[DataFrom(f)..|f| - 4], name)
  {
    FrameNumbers(f);
    NameIff(f, name);
  }

  /** A message is returned exactly when the length is right, the type known, the checksum right, and the
      bytes between name and checksum spell that message with all it needs. */
  lemma MessageIff(pool: Pool, crc: Crc, f: Bytes, name: Bytes, m: Msg)
    requires PoolOK(pool) && |f| < TWO_32
    ensures Decode(pool, crc, f) == Message(name, m) <==>
      && Known(pool, f, name) && Reaches(f) && Checked(crc, f) && DataInside(f)
      && Accepted(pool[name], f[DataFrom(f)..|f| - 4], m)
  {
    hide Decode, Content, NameAt, Accepted;
    if known :| Known(pool, f, known) {
      DecodeKnown(pool, crc, f, known);
      if DataInside(f) {
        ContentIff(pool[known], f[DataFrom(f)..|f| - 4], known);
      }
      if Known(pool, f, name) { DecodeKnown(pool, crc, f, name); }
    } else {
      DecodeUnknown(pool, crc, f);
    }
  }

  /** The decoder answers with an empty pointer. */
  ghost predicate AnswersNull(pool: Pool, crc: Crc, f: Bytes, name: Bytes) {
    && Known(pool, f, name) && Reaches(f)
    && (!Checked(crc, f) || (DataInside(f) && Refused(pool[name], f[DataFrom(f)..|f| - 4])))
  }

  /** The decoder has what it needs neither to find a message nor to find that there is none. */
  ghost predicate GoesWrong(pool: Pool, crc: Crc, f: Bytes) {
    forall name :: Known(pool, f, name) ==> !Reaches(f) || (Checked(crc, f) && !DataInside(f))
  }

  /** What the decoder has to answer: a message, an empty pointer and an error each exactly when it should. */
  ghost predicate RightAnswer(pool: Pool, crc: Crc, f: Bytes, d: Decoded) {
    && (d == Null <==> exists name :: AnswersNull(pool, crc, f, name))
    && (d == Crash <==> GoesWrong(pool, crc, f))
    && forall name, m :: d == Message(name, m) <==>
         && Known(pool, f, name) && Reaches(f) && Checked(crc, f) && DataInside(f)
         && Accepted(pool[name], f[DataFrom(f)..|f| - 4], m)
  }

  lemma DecodeIsRight(pool: Pool, crc: Crc, f: Bytes)
    requires PoolOK(pool) && |f| < TWO_32
    ensures RightAnswer(pool, crc, f, Decode(pool, crc, f))
  {
    NullIff(pool, crc, f);
    forall name, m
      ensures Decode(pool, crc, f) == Message(name, m) <==>
        && Known(pool, f, name) && Reaches(f) && Checked(crc, f) && DataInside(f)
        && Accepted(pool[name], f[DataFrom(f)..|f| - 4], m)
    {
      MessageIff(pool, crc, f, name, m);
    }
  }

  /** An empty pointer is returned exactly when length and type are right, the place of the checksum is
      found, and the checksum is wrong or the bytes of the message are not accepted. It goes wrong in all
      other cases without a message: the length is not as stated, the name does not end or names no type,
      the checksum is out of an int's reach, or it is right and the message does not begin inside. */
  lemma NullIff(pool: Pool, crc: Crc, f: Bytes)
    requires PoolOK(pool) && |f| < TWO_32
    ensures Decode(pool, crc, f) == Null <==> exists name :: AnswersNull(pool, crc, f, name)
    ensures Decode(pool, crc, f) == Crash <==> GoesWrong(pool, crc, f)
  {
    hide Decode, Content, NameAt, Accepted, Refused;
    if known :| Known(pool, f, known) {
      DecodeKnown(pool, crc, f, known);
      if DataInside(f) {
        ContentIff(pool[known], f[DataFrom(f)..|f| - 4], known);
      }
      forall name | Known(pool, f, name) ensures name == known {
        DecodeKnown(pool, crc, f, name);
      }
      assert AnswersNull(pool, crc, f, known) <==> Decode(pool, crc, f) == Null;
    } else {
      DecodeUnknown(pool, crc, f);
    }
  }

  // ---------------------------------------------------------------- the functions

  /** GetProtobufMessageEncodeLength: msg_length_t is unsigned and 32 bits wide. */
  method GetProtobufMessageEncodeLength(name: Bytes, o: MessageObject.Message) returns (n: Uint32)
    requires o.Ok() && |Serialize(o.mt, o.Seen())| < LENGTH_LIMIT
    modifies o`cache
    ensures n == (OVERHEAD + |name| + |Serialize(o.mt, o.Seen())|) % TWO_32
    ensures o.cache.size == |Serialize(o.mt, o.Seen())|
  {
    var size := o.UpdateSizes();
    n := (4 + 4 + (|name| + 1) + size + 4) % TWO_32;
  }

  lemma WrittenBefore(s: Bytes, head: Bytes, bs: Bytes)
    requires |head| + |bs| <= |s|
    ensures Written(Written(s, |head|, bs), 0, head) == Written(s, 0, head + bs)
  {
  }

  lemma WrittenThere(s: Bytes, pos: nat, bs: Bytes)
    requires pos + |bs| <= |s|
    ensures Written(s, pos, bs)[pos..pos + |bs|] == bs
  {
  }

  /** Name length, name and data behind the room for the header. */
  method WriteBody(name: Bytes, o: MessageObject.Message, serializer: Cursor)
    requires o.Ok() && Framable(name, Serialize(o.mt, o.Seen()))
    requires serializer.value == 4 && 8 + (|name| + 1) + |Serialize(o.mt, o.Seen())| <= serializer.buf.Length
    modifies o`cache, serializer, serializer.buf
    ensures serializer.value == 4 + |Body(name, Serialize(o.mt, o.Seen()))|
    ensures serializer.buf[..] == Written(old(serializer.buf[..]), 4, Body(name, Serialize(o.mt, o.Seen())))
  {
    hide Written, Serialize, Net, TypeOK, Typed;
    ghost var before, data := serializer.buf[..], Serialize(o.mt, o.Seen());
    WriteName(name, serializer);
    WriteData(o, serializer);
    WrittenTwice(before, 4, Net(|name| + 1, 4) + (name + [0]), data);
  }

  /** SerializeToArray at the cursor. */
  method WriteData(o: MessageObject.Message, serializer: Cursor)
    requires o.Ok() && |Serialize(o.mt, o.Seen())| < LENGTH_LIMIT
    requires 0 <= serializer.value && serializer.value + |Serialize(o.mt, o.Seen())| <= serializer.buf.Length
    modifies o`cache, serializer, serializer.buf
    ensures serializer.value == old(serializer.value) + |Serialize(o.mt, o.Seen())|
    ensures serializer.buf[..]
         == Written(old(serializer.buf[..]), old(serializer.value), Serialize(o.mt, o.Seen()))
  {
    hide Written, Serialize;
    var size := o.UpdateSizes();
    var at := o.ToArray(serializer.buf, serializer.value);
    serializer.Advance(size);
  }

  /** The name length, and the name with its NUL. */
  method WriteName(name: Bytes, serializer: Cursor)
    requires |name| + 1 < LENGTH_LIMIT && serializer.value == 4 && 8 + (|name| + 1) <= serializer.buf.Length
    modifies serializer, serializer.buf
    ensures serializer.value == 8 + (|name| + 1)
    ensures serializer.buf[..] == Written(old(serializer.buf[..]), 4, Net(|name| + 1, 4) + (name + [0]))
  {
    hide Written;
    ghost var before := serializer.buf[..];
    FourBytes();
    serializer.Put(NetNum(4, |name| + 1));
    var at := CopyTo(serializer.buf, serializer.value, name + [0]);
    serializer.Advance(|name| + 1);
    WrittenTwice(before, 4, Net(|name| + 1, 4), name + [0]);
  }

  /** HeaderBasedNetSerializer::Finish: the header is the length without itself. */
  method Finish(serializer: Cursor) returns (length: nat)
    requires 4 <= serializer.value < TWO_32 && serializer.value <= serializer.buf.Length
    modifies serializer, serializer.buf
    ensures length == old(serializer.value)
    ensures serializer.buf[..] == Written(old(serializer.buf[..]), 0, Net(length - 4, 4))
  {
    FourBytes();
    length := serializer.value;
    serializer.value := 0;
    serializer.Put(NetNum(4, length - 4));
  }

  /** Writes the whole frame, or nothing when the buffer is too short. Not ok when the length of the
      frame wraps, so that a buffer too short for it passes the test and is overrun. */
  method EncodeProtobufMessage(name: Bytes, o: MessageObject.Message, crc: Crc, buf: array<Byte>, length: Uint32)
    returns (ok: bool, n: nat)
    requires o.Ok() && Encodable(name, Serialize(o.mt, o.Seen())) && length <= buf.Length
    modifies o`cache, buf
    ensures var f := FrameOf(crc, name, Serialize(o.mt, o.Seen()));
      && (ok <==> |f| < TWO_32 || length < |f| % TWO_32)
      && (ok ==>
            if length < |f| then n == 0 && buf[..] == old(buf[..])
            else n == |f| && buf[..] == Written(old(buf[..]), 0, f))
  {
    hide Written, FrameOf, Serialize;
    var needed := GetProtobufMessageEncodeLength(name, o);
    if length < needed {
      return true, 0;
    }
    if length < OVERHEAD + |name| + o.cache.size {
      return false, 0;
    }
    n := WriteFrame(name, o, crc, buf);
    ok := true;
  }

  method WriteFrame(name: Bytes, o: MessageObject.Message, crc: Crc, buf: array<Byte>) returns (n: nat)
    requires o.Ok() && Framable(name, Serialize(o.mt, o.Seen()))
    requires OVERHEAD + |name| + |Serialize(o.mt, o.Seen())| <= buf.Length
    modifies o`cache, buf
    ensures var f := FrameOf(crc, name, Serialize(o.mt, o.Seen()));
      n == |f| && buf[..] == Written(old(buf[..]), 0, f)
  {
    hide Written;
    ghost var before := buf[..];
    ghost var body := Body(name, Serialize(o.mt, o.Seen()));
    var serializer := new Cursor(buf, 4);
    WriteBody(name, o, serializer);
    WriteChecksum(crc, serializer, before, body);
    n := Finish(serializer);
    WrittenBefore(before, Net(|body| + 4, 4), body + Net(crc(body), 4));
    Regroup(Net(|body| + 4, 4), body, Net(crc(body), 4));
  }

  /** The checksum of everything from behind the header to the cursor. */
  method WriteChecksum(crc: Crc, serializer: Cursor, ghost before: Bytes, ghost body: Bytes)
    requires serializer.value == 4 + |body| && 8 + |body| <= serializer.buf.Length == |before|
    requires serializer.buf[..] == Written(before, 4, body)
    modifies serializer, serializer.buf
    ensures serializer.value == 8 + |body|
    ensures serializer.buf[..] == Written(before, 4, body + Net(crc(body), 4))
  {
    hide Written;
    FourBytes();
    WrittenThere(before, 4, body);
    assert serializer.buf[4..serializer.value] == serializer.buf[..][4..4 + |body|];
    serializer.Put(NetNum(4, crc(serializer.buf[4..serializer.value])));
    WrittenTwice(before, 4, body, Net(crc(body), 4));
  }

  /** HeaderBasedNetUnserializer::GetLength, as an int32. */
  method GetLength(buf: array<Byte>) returns (n: int)
    requires 4 <= buf.Length
    ensures NetValue(buf[..4]) < TWO_32 && n == Signed32((NetValue(buf[..4]) + 4) % TWO_32)
  {
    FourBytes();
    var header, end := NetToHost(buf, 0, 4);
    assert buf[0..4] == buf[..4];
    SignedSum(header);
    n := Signed32((Signed32(header) + 4) % TWO_32);
  }

  lemma SignedSum(u: Uint32)
    ensures (Signed32(u) + 4) % TWO_32 == (u + 4) % TWO_32
  {
  }

  lemma LengthMatches(header: Uint32, length: Uint32)
    requires 8 <= length
    ensures Signed32((header + 4) % TWO_32) == Signed32(length) <==> header == length - 4
  {
  }

  /** `buf` is the memory the decoder may read. */
  method DecodeProtobufMessage(pool: Pool, crc: Crc, buf: array<Byte>) returns (d: Decoded)
    requires PoolOK(pool) && buf.Length < TWO_32
    ensures d == Decode(pool, crc, buf[..])
    ensures RightAnswer(pool, crc, buf[..], d)
  {
    DecodeIsRight(pool, crc, buf[..]);
    hide RightAnswer, PoolOK;
    var length := buf.Length;
    if length < 4 {
      return Crash;
    }
    FourBytes();
    hide NetValue, NameAt, DecodeNamed;
    var stated := GetLength(buf);
    assert buf[..][..4] == buf[..4];
    if stated != Signed32(length) || length < 8 {
      if 8 <= length {
        LengthMatches(NetValue(buf[..4]), length);
      }
      return Crash;
    }
    LengthMatches(NetValue(buf[..4]), length);
    d := DecodeBehindHeader(pool, crc, buf);
  }

  /** The part behind the header: the type name and what it says how to read. */
  method DecodeBehindHeader(pool: Pool, crc: Crc, buf: array<Byte>) returns (d: Decoded)
    requires PoolOK(pool) && 8 <= buf.Length < TWO_32 && NetValue(buf[..][..4]) == buf.Length - 4
    ensures d == Decode(pool, crc, buf[..])
  {
    hide NetValue, NameAt, DecodeNamed, Content;
    FourBytes();
    var unserializer := new Cursor(buf, 4);
    var type_name_length := unserializer.Take(4);
    assert buf[..][4..8] == buf[4..8];
    var name := NameAt(buf[8..]);
    assert buf[..][8..] == buf[8..];
    if name == None || name.value !in pool {
      return Crash;
    }
    unserializer.Advance(Signed32(type_name_length));
    d := DecodeData(pool[name.value], crc, unserializer, name.value);
  }

  /** The part of DecodeProtobufMessage behind the type name. */
  method DecodeData(mt: MsgType, crc: Crc, unserializer: Cursor, name: Bytes) returns (d: Decoded)
    requires TypeOK(mt) && 8 <= unserializer.buf.Length < TWO_32
    requires unserializer.value == Start(unserializer.buf[..])
    modifies unserializer
    ensures d == DecodeNamed(mt, crc, unserializer.buf[..], name)
  {
    hide Content, NetValue, Net, Start;
    var buf := unserializer.buf;
    var start, end := unserializer.value, buf.Length - 4;
    Narrowed(end - start);
    // data_length is an unsigned 32-bit number; advance takes an int
    var data_length := (end - start) % TWO_32;
    unserializer.Advance(Signed32(data_length));
    if unserializer.value < 0 || unserializer.value > end {
      return Crash;
    }
    assert unserializer.value == end;
    assert buf[..][end..] == buf[end..end + 4];
    assert buf[..][4..end] == buf[4..end];
    var check_sum := unserializer.Take(4);
    if check_sum != crc(buf[4..end]) {
      return Null;
    }
    if start < 0 || Signed32(data_length) < 0 {
      return Crash;
    }
    assert buf[..][start..end] == buf[start..start + data_length];
    d := ParseContent(mt, buf[start..start + data_length], name);
  }

  method ParseContent(mt: MsgType, data: Bytes, name: Bytes) returns (d: Decoded)
    requires TypeOK(mt)
    ensures d == Content(mt, data, name)
  {
    var message := new MessageObject.Message(mt);
    var ok := message.ParseFrom(data);
    var m := message.Get();
    d := if ok then Message(name, m) else Null;
  }
}
