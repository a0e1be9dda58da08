/** The message classes of the two .proto files, as message types. */
module MessageClasses {
  import opened Bytes
  import opened Wire
  import opened Messages
  import opened MessageParse
  import opened MessageSerialize

  const R32 := Field(Required, U32)
  const R64 := Field(Required, U64)
  const RSTR := Field(Required, Str)

  const SESSION_INFO := MsgType([RSTR, R32, R32, R64, R64])
  const TORRENT_INFO := MsgType([RSTR, R32, R32, R32, R32, R64, R64, R64, R64])
  const PEER_INFO := MsgType([R32, RSTR, R32, R32, R64, R64, R64, R64])
  const CPU_INFO := MsgType([RSTR, R32])
  const DISK_INFO := MsgType([RSTR, R64, R32])
  const NET_INFO := MsgType([RSTR, R64, R64])
  const SYSTEM_INFO := MsgType([Field(Repeated, Sub(CPU_INFO)), R64, R32,
                                Field(Repeated, Sub(DISK_INFO)), Field(Repeated, Sub(NET_INFO))])
  const CACHE_STATUS_INFO := MsgType([R64, R64, R64, R64, R64, R64, R64, R64, R64])
  const INFO := MsgType([Field(Repeated, Sub(SESSION_INFO)), Field(Repeated, Sub(TORRENT_INFO)),
                         Field(Repeated, Sub(PEER_INFO)),
                         Field(Optional, Sub(SYSTEM_INFO)), Field(Optional, Sub(CACHE_STATUS_INFO))])

  const END_POINT := MsgType([Field(Optional, U32), Field(Optional, U32)])
  /** HTTP_TRACKER = 0, UDP_TRACKER = 1. */
  const TRACKER_TYPES: nat := 2
  const BT_REPLY_TRACKER := MsgType([Field(Optional, Str), Field(Optional, Enum(TRACKER_TYPES)),
                                     Field(Optional, Str), Field(Repeated, Sub(END_POINT))])

  lemma FlatClassesOK()
    ensures TypeOK(SESSION_INFO) && TypeOK(TORRENT_INFO) && TypeOK(PEER_INFO) && TypeOK(CACHE_STATUS_INFO)
    ensures TypeOK(CPU_INFO) && TypeOK(DISK_INFO) && TypeOK(NET_INFO) && TypeOK(END_POINT)
  {
  }

  /** What is modelled: at most 15 fields, of which only strings and submessages are repeated, and enums
      of at least one and at most 2^31 values from 0 on. */
  lemma ModelledFields(mt: MsgType)
    ensures TypeOK(mt) <==> |mt.fields| <= 15 && forall i :: 0 <= i < |mt.fields| ==>
      && (mt.fields[i].presence.Repeated? ==> mt.fields[i].kind.Str? || mt.fields[i].kind.Sub?)
      && (mt.fields[i].kind.Enum? ==> 1 <= mt.fields[i].kind.count <= 0x8000_0000)
      && (mt.fields[i].kind.Sub? ==> TypeOK(mt.fields[i].kind.mt))
  {
  }

  lemma ClassesOK()
    ensures TypeOK(INFO) && TypeOK(BT_REPLY_TRACKER)
  {
    FlatClassesOK();
    assert forall i :: 0 <= i < |SYSTEM_INFO.fields| ==> FieldOK(SYSTEM_INFO.fields[i]);
    assert TypeOK(SYSTEM_INFO);
    assert forall i :: 0 <= i < |INFO.fields| ==> FieldOK(INFO.fields[i]);
  }

  /** The tags of a class, in the order of its fields. */
  function Tags(mt: MsgType): seq<nat> {
    seq(|mt.fields|, k requires 0 <= k < |mt.fields| => Tag(k + 1, mt.fields[k].kind))
  }

  /** The tags the parse loops look ahead for. */
  lemma ExpectedTags()
    ensures Tags(SESSION_INFO) == [10, 16, 24, 32, 40]
    ensures Tags(TORRENT_INFO) == [10, 16, 24, 32, 40, 48, 56, 64, 72]
    ensures Tags(PEER_INFO) == [8, 18, 24, 32, 40, 48, 56, 64]
    ensures Tags(CPU_INFO) == [10, 16] && Tags(DISK_INFO) == [10, 16, 24] && Tags(NET_INFO) == [10, 16, 24]
    ensures Tags(SYSTEM_INFO) == [10, 16, 24, 34, 42]
    ensures Tags(CACHE_STATUS_INFO) == [8, 16, 24, 32, 40, 48, 56, 64, 72]
    ensures Tags(INFO) == [10, 18, 26, 34, 42]
    ensures Tags(END_POINT) == [8, 16] && Tags(BT_REPLY_TRACKER) == [10, 16, 26, 34]
  {
    FlatTags();
    NestedTags();
    hide Tags;
  }

  lemma FlatTags()
    ensures Tags(SESSION_INFO) == [10, 16, 24, 32, 40]
    ensures Tags(TORRENT_INFO) == [10, 16, 24, 32, 40, 48, 56, 64, 72]
    ensures Tags(PEER_INFO) == [8, 18, 24, 32, 40, 48, 56, 64]
    ensures Tags(CACHE_STATUS_INFO) == [8, 16, 24, 32, 40, 48, 56, 64, 72]
    ensures Tags(END_POINT) == [8, 16]
  {
  }

  lemma NestedTags()
    ensures Tags(CPU_INFO) == [10, 16] && Tags(DISK_INFO) == [10, 16, 24] && Tags(NET_INFO) == [10, 16, 24]
    ensures Tags(SYSTEM_INFO) == [10, 16, 24, 34, 42]
    ensures Tags(INFO) == [10, 18, 26, 34, 42]
    ensures Tags(BT_REPLY_TRACKER) == [10, 16, 26, 34]
  {
  }

  /** string, uint32, uint64, enum and message. */
  function Letter(kind: Kind): char {
    match kind
    case Str => 's'
    case U32 => 'w'
    case U64 => 'q'
    case Enum(_) => 'e'
    case Sub(_) => 'm'
  }

  function Kinds(mt: MsgType): string {
    seq(|mt.fields|, k requires 0 <= k < |mt.fields| => Letter(mt.fields[k].kind))
  }

  /** required, optional and repeated. */
  function Presences(mt: MsgType): string {
    seq(|mt.fields|, k requires 0 <= k < |mt.fields| =>
      match mt.fields[k].presence
      case Required => 'r'
      case Optional => 'o'
      case Repeated => '*')
  }

  /** The classes as they are declared, field by field. */
  lemma DeclaredFlat()
    ensures Kinds(SESSION_INFO) == "swwqq" && Presences(SESSION_INFO) == "rrrrr"
    ensures Kinds(TORRENT_INFO) == "swwwwqqqq" && Presences(TORRENT_INFO) == "rrrrrrrrr"
    ensures Kinds(PEER_INFO) == "wswwqqqq" && Presences(PEER_INFO) == "rrrrrrrr"
    ensures Kinds(CACHE_STATUS_INFO) == "qqqqqqqqq" && Presences(CACHE_STATUS_INFO) == "rrrrrrrrr"
    ensures Kinds(END_POINT) == "ww" && Presences(END_POINT) == "oo"
  {
  }

  lemma DeclaredNested()
    ensures Kinds(CPU_INFO) == "sw" && Presences(CPU_INFO) == "rr"
    ensures Kinds(DISK_INFO) == "sqw" && Presences(DISK_INFO) == "rrr"
    ensures Kinds(NET_INFO) == "sqq" && Presences(NET_INFO) == "rrr"
    ensures Kinds(SYSTEM_INFO) == "mqwmm" && Presences(SYSTEM_INFO) == "*rr**"
    ensures Kinds(INFO) == "mmmmm" && Presences(INFO) == "***oo"
    ensures Kinds(BT_REPLY_TRACKER) == "sesm" && Presences(BT_REPLY_TRACKER) == "ooo*"
    ensures BT_REPLY_TRACKER.fields[1].kind == Enum(2)
  {
  }

  // ---------------------------------------------------------------- open enums

  /** One enum value in any bytes that read as the field's tag and the value, minimal or not. */
  ghost predicate EnumBytes(mt: MsgType, i: nat, x: Bytes, v: nat)
    requires i < |mt.fields|
  {
    && mt.fields[i].kind.Enum? && ReadVarint32(x).Good?
    && ReadVarint32(x).value == Tag(i + 1, mt.fields[i].kind)
    && ReadVarint32(ReadVarint32(x).rest) == Good(v, [])
  }

  lemma ParseEnumBytes(mt: MsgType, i: nat, x: Bytes, v: nat)
    requires TypeOK(mt) && i < |mt.fields| && EnumBytes(mt, i, x, v)
    ensures Typed(mt, Default(mt))
    ensures Parse(mt, x) == Outcome(Done,
      if v < mt.fields[i].kind.count then Single(mt, i, [N(v)])
      else Keep(Default(mt), Unknown(8 * (i + 1), Num(SignExtend(v)))))
  {
    DefaultTyped(mt);
    var tag, u := ReadVarint32(x).value, ReadVarint32(x).rest;
    assert tag == 8 * (i + 1) && IsKnown(mt, tag) && tag / 8 - 1 == i;
    var r := if v < mt.fields[i].kind.count then Single(mt, i, [N(v)])
             else Keep(Default(mt), Unknown(tag, Num(SignExtend(v))));
    assert ReadField(mt, Default(mt), i, u) == Next(r, []);
    assert ReadTagged(mt, Default(mt), tag, u) == Next(r, []);
    assert ParseInto(mt, r, []) == Outcome(Done, r);
  }

  /** Wherever an enum value stands in an accepted input: an invalid one survives among the unknown
      fields, between those that came before and those that come after, and changes nothing else; a
      valid one is the field's value unless another valid one follows. */
  lemma EnumArrives(mt: MsgType, i: nat, s: Bytes, x: Bytes, v: nat, t: Bytes)
    requires TypeOK(mt) && i < |mt.fields| && EnumBytes(mt, i, x, v)
    requires Parse(mt, s).status == Done && Parse(mt, t).status == Done
    ensures var a, b, r := Parse(mt, s).msg, Parse(mt, t).msg, Parse(mt, s + x + t);
      && r.status == Done
      && (forall k :: 0 <= k < |mt.fields| && k != i ==> r.msg.fields[k] == Merge(mt, a, b).fields[k])
      && if v < mt.fields[i].kind.count then
           && r.msg.fields[i] == (if b.fields[i] == [] then [N(v)] else b.fields[i])
           && r.msg.unknown == a.unknown + b.unknown
         else
           && r.msg.fields[i] == Merge(mt, a, b).fields[i]
           && r.msg.unknown == a.unknown + [Unknown(8 * (i + 1), Num(SignExtend(v)))] + b.unknown
  {
    var a, d, b := Parse(mt, s).msg, Parse(mt, x).msg, Parse(mt, t).msg;
    ParseEnumBytes(mt, i, x, v);
    ConcatenationIsMerge(mt, s, x);
    ConcatenationIsMerge(mt, s + x, t);
    assert FieldOK(mt.fields[i]);
    forall k | 0 <= k < |mt.fields| && d.fields[k] == [] ensures Merge(mt, a, d).fields[k] == a.fields[k] {
      MergeNothing(mt, a, d, k);
    }
  }

  lemma MergeNothing(mt: MsgType, a: Msg, d: Msg, k: nat)
    requires Typed(mt, a) && Typed(mt, d) && k < |mt.fields| && d.fields[k] == []
    ensures Merge(mt, a, d).fields[k] == a.fields[k]
  {
    assert SlotTyped(mt.fields[k], a.fields[k]) && SlotTyped(mt.fields[k], d.fields[k]);
    assert a.fields[k] + [] == a.fields[k];
  }

  /** The field tracker_type written once for every value, in order. */
  function TrackerTypes(vs: seq<nat>): Bytes {
    if vs == [] then []
    else TrackerTypes(vs[..|vs| - 1]) + (Varint(16) + Varint(vs[|vs| - 1]))
  }

  /** The last value TrackerType_IsValid accepts. */
  function LastValid(vs: seq<nat>): seq<Val> {
    if vs == [] then []
    else if vs[|vs| - 1] < TRACKER_TYPES then [N(vs[|vs| - 1])]
    else LastValid(vs[..|vs| - 1])
  }

  /** The values it rejects, as AddVarint(2, value) keeps them. */
  function Rejected(vs: seq<nat>): seq<Unknown>
    requires forall k :: 0 <= k < |vs| ==> vs[k] < TWO_32
  {
    if vs == [] then []
    else if vs[|vs| - 1] < TRACKER_TYPES then Rejected(vs[..|vs| - 1])
    else Rejected(vs[..|vs| - 1]) + [Unknown(16, Num(SignExtend(vs[|vs| - 1])))]
  }

  lemma NothingParsed(mt: MsgType)
    ensures Parse(mt, []) == Outcome(Done, Default(mt))
    ensures Default(mt).unknown == [] && |Default(mt).fields| == |mt.fields|
    ensures forall k :: 0 <= k < |mt.fields| ==> Default(mt).fields[k] == []
  {
  }

  lemma ParsedFields(mt: MsgType, s: Bytes)
    ensures |Parse(mt, s).msg.fields| == |mt.fields|
  {
    DefaultTyped(mt);
  }

  /** One more value behind bytes that give the field `last` and the unknown fields `kept`. */
  lemma OneMoreValue(s: Bytes, last: seq<Val>, kept: seq<Unknown>, v: nat)
    requires v < TWO_32 && Parse(BT_REPLY_TRACKER, s) == Outcome(Done, Msg([[], last, [], []], kept))
    ensures Parse(BT_REPLY_TRACKER, s + (Varint(16) + Varint(v)))
         == Outcome(Done, if v < TRACKER_TYPES then Msg([[], [N(v)], [], []], kept)
                          else Msg([[], last, [], []], kept + [Unknown(16, Num(SignExtend(v)))]))
  {
    hide Parse, Merge, Default, Typed, EnumBytes, Varint, TypeOK;
    var mt, x := BT_REPLY_TRACKER, Varint(16) + Varint(v);
    assert |mt.fields| == 4 && mt.fields[1].kind == Enum(TRACKER_TYPES);
    NothingParsed(mt);
    TrackerTypeBytes(v);
    ClassesOK();
    MergeIdentity(mt, Parse(mt, s).msg);
    EnumArrives(mt, 1, s, x, v, []);
    assert s + x + [] == s + x;
    var r := Parse(mt, s + x).msg;
    ParsedFields(mt, s + x);
    assert r.fields == [r.fields[0], r.fields[1], r.fields[2], r.fields[3]];
  }

  /** However valid and out-of-range values are mixed, the last valid one is the field's value and
      every out-of-range one survives among the unknown fields, in order. */
  lemma {:induction false} OpenEnum(vs: seq<nat>)
    requires forall k :: 0 <= k < |vs| ==> vs[k] < TWO_32
    ensures Parse(BT_REPLY_TRACKER, TrackerTypes(vs))
         == Outcome(Done, Msg([[], LastValid(vs), [], []], Rejected(vs)))
    decreases |vs|
  {
    if vs == [] {
      assert Default(BT_REPLY_TRACKER).fields == [[], [], [], []];
    } else {
      hide Parse;
      var front, v := vs[..|vs| - 1], vs[|vs| - 1];
      OpenEnum(front);
      OneMoreValue(TrackerTypes(front), LastValid(front), Rejected(front), v);
    }
  }

  lemma TrackerTypeBytes(v: nat)
    requires v < TWO_32
    ensures EnumBytes(BT_REPLY_TRACKER, 1, Varint(16) + Varint(v), v)
  {
    Varint32RoundTrip(16, Varint(v));
    Varint32RoundTrip(v, []);
    assert Varint(v) + [] == Varint(v);
  }
}
