/** The serialized form of a message, and its way back through the parser. */
module MessageSerialize {
  import opened Bytes
  import opened Wire
  import opened Messages
  import opened MessageParse

  // ---------------------------------------------------------------- encoding

  function Tag(number: nat, kind: Kind): nat {
    8 * number + WireType(kind)
  }

  /** Fields in number order, then the unknown fields in arrival order. */
  function Serialize(mt: MsgType, m: Msg): Bytes
    requires Typed(mt, m)
    decreases mt, 2
  {
    SerializeFields(mt, m, |mt.fields|) + EncodeUnknowns(m.unknown)
  }

  function SerializeFields(mt: MsgType, m: Msg, n: nat): Bytes
    requires Typed(mt, m) && n <= |mt.fields|
    decreases mt, 1, n
  {
    if n == 0 then []
    else
      assert SlotTyped(mt.fields[n - 1], m.fields[n - 1]);
      SerializeFields(mt, m, n - 1) + SerializeSlot(mt.fields[n - 1].kind, n, m.fields[n - 1])
  }

  function SerializeSlot(kind: Kind, number: nat, vs: seq<Val>): Bytes
    requires forall k :: 0 <= k < |vs| ==> ValTyped(kind, vs[k])
    decreases kind, 1, |vs|
  {
    if vs == [] then []
    else SerializeSlot(kind, number, vs[..|vs| - 1]) + SerializeVal(kind, number, vs[|vs| - 1])
  }

  function SerializeVal(kind: Kind, number: nat, v: Val): Bytes
    requires ValTyped(kind, v)
    decreases kind, 0, 1
  {
    Varint(Tag(number, kind)) + SerializePayload(kind, v)
  }

  function SerializePayload(kind: Kind, v: Val): Bytes
    requires ValTyped(kind, v)
    decreases kind, 0, 0
  {
    match v
    case N(n) => Varint(n)
    case B(b) => Delimited(b)
    case M(m) => Delimited(Serialize(kind.mt, m))
  }

  // ---------------------------------------------------------------- well-formed messages

  /** The parser puts `u` back among the unknown fields: its field is not the message's, or it is
      an enum field and the value is not one of the enum's. */
  ghost predicate Settles(mt: MsgType, u: Unknown) {
    && UnknownOK(u)
    && (IsKnown(mt, u.tag) ==>
          var kind := mt.fields[u.tag / 8 - 1].kind;
          && kind.Enum? && u.data.Num?
          && u.data.n == SignExtend(u.data.n % TWO_32) && u.data.n % TWO_32 >= kind.count)
  }

  ghost predicate WellFormed(mt: MsgType, m: Msg) {
    && Typed(mt, m)
    && (forall k :: 0 <= k < |m.unknown| ==> Settles(mt, m.unknown[k]))
    && (forall i :: 0 <= i < |mt.fields| ==> SlotWellFormed(mt.fields[i].kind, m.fields[i]))
  }

  ghost predicate SlotWellFormed(kind: Kind, vs: seq<Val>)
  {
    kind.Sub? ==> forall k :: 0 <= k < |vs| ==> vs[k].M? && WellFormed(kind.mt, vs[k].msg)
  }

  // ---------------------------------------------------------------- round trip

  /** A message with nothing but `vs` in field i. */
  function Single(mt: MsgType, i: nat, vs: seq<Val>): (m: Msg)
    requires i < |mt.fields| && SlotTyped(mt.fields[i], vs)
    ensures Typed(mt, m)
  {
    DefaultTyped(mt);
    Put(mt, Default(mt), i, vs)
  }

  /** One turn of the loop. */
  lemma ParseOne(mt: MsgType, m: Msg, tag: nat, body: Bytes, m1: Msg, rest: Bytes)
    requires Typed(mt, m) && Typed(mt, m1) && tag < TWO_32
    requires ReadTagged(mt, m, tag, body) == Next(m1, rest)
    ensures ParseInto(mt, m, Varint(tag) + body) == ParseInto(mt, m1, rest)
  {
    Varint32RoundTrip(tag, body);
  }

  lemma {:induction false} ParseVal(mt: MsgType, i: nat, v: Val)
    requires TypeOK(mt) && i < |mt.fields| && ValTyped(mt.fields[i].kind, v)
    requires v.M? ==> WellFormed(mt.fields[i].kind.mt, v.msg)
    requires |SerializeVal(mt.fields[i].kind, i + 1, v)| < LENGTH_LIMIT
    ensures Parse(mt, SerializeVal(mt.fields[i].kind, i + 1, v)) == Outcome(Done, Single(mt, i, [v]))
    decreases mt.fields[i].kind, 0
  {
    DefaultTyped(mt);
    assert FieldOK(mt.fields[i]);
    if mt.fields[i].kind.Sub? {
      RoundTrip(mt.fields[i].kind.mt, v.msg);
      ReadSubVal(mt, i, v);
    } else {
      ReadLeafVal(mt, i, v);
    }
    hide ReadField;
    FieldTag(mt, i, v);
    ParseOne(mt, Default(mt), Tag(i + 1, mt.fields[i].kind), SerializePayload(mt.fields[i].kind, v), Single(mt, i, [v]), []);
  }

  lemma FieldTag(mt: MsgType, i: nat, v: Val)
    requires TypeOK(mt) && i < |mt.fields| && ValTyped(mt.fields[i].kind, v) && Typed(mt, Default(mt))
    ensures var tag, body := Tag(i + 1, mt.fields[i].kind), SerializePayload(mt.fields[i].kind, v);
      tag < TWO_32 && ReadTagged(mt, Default(mt), tag, body) == ReadField(mt, Default(mt), i, body)
  {
  }

  lemma ReadLeafVal(mt: MsgType, i: nat, v: Val)
    requires i < |mt.fields| && ValTyped(mt.fields[i].kind, v) && !mt.fields[i].kind.Sub? && FieldOK(mt.fields[i])
    requires Typed(mt, Default(mt))
    requires |SerializePayload(mt.fields[i].kind, v)| < LENGTH_LIMIT
    ensures ReadField(mt, Default(mt), i, SerializePayload(mt.fields[i].kind, v)) == Next(Single(mt, i, [v]), [])
  {
    var body := SerializePayload(mt.fields[i].kind, v);
    assert body == body + [];
    match v
    case N(n) =>
      VarintRoundTrip(n, []);
      if !mt.fields[i].kind.U64? { Varint32RoundTrip(n, []); }
    case B(b) =>
      ReadBytesOfDelimited(b, []);
      assert Receive(mt.fields[i], [], v) == [v];
  }

  lemma ReadSubVal(mt: MsgType, i: nat, v: Val)
    requires i < |mt.fields| && ValTyped(mt.fields[i].kind, v) && mt.fields[i].kind.Sub?
    requires Typed(mt, Default(mt))
    requires |Serialize(mt.fields[i].kind.mt, v.msg)| < LENGTH_LIMIT
    requires Parse(mt.fields[i].kind.mt, Serialize(mt.fields[i].kind.mt, v.msg)) == Outcome(Done, v.msg)
    ensures ReadField(mt, Default(mt), i, SerializePayload(mt.fields[i].kind, v)) == Next(Single(mt, i, [v]), [])
  {
    var f, b := mt.fields[i], Serialize(mt.fields[i].kind.mt, v.msg);
    assert Delimited(b) + [] == Delimited(b);
    ReadBytesOfDelimited(b, []);
    assert Existing(f, []) == Default(f.kind.mt) && Receive(f, [], v) == [v];
  }

  lemma {:induction false} ParseSlot(mt: MsgType, i: nat, vs: seq<Val>)
    requires TypeOK(mt) && i < |mt.fields| && SlotTyped(mt.fields[i], vs)
    requires SlotWellFormed(mt.fields[i].kind, vs)
    requires |SerializeSlot(mt.fields[i].kind, i + 1, vs)| < LENGTH_LIMIT
    ensures Parse(mt, SerializeSlot(mt.fields[i].kind, i + 1, vs)) == Outcome(Done, Single(mt, i, vs))
    decreases mt.fields[i].kind, 1, |vs|
  {
    DefaultTyped(mt);
    if vs == [] {
      assert Single(mt, i, vs).fields == Default(mt).fields;
    } else {
      var k, kind := |vs| - 1, mt.fields[i].kind;
      LastValue(mt, i, vs);
      SingleGrows(mt, i, vs);
      hide Single, Merge, SerializeSlot, SerializeVal, SlotTyped, SlotWellFormed, WellFormed, Typed, Parse;
      ParseSlot(mt, i, vs[..k]);
      ParseVal(mt, i, vs[k]);
      ConcatenationIsMerge(mt, SerializeSlot(kind, i + 1, vs[..k]), SerializeVal(kind, i + 1, vs[k]));
    }
  }

  lemma LastValue(mt: MsgType, i: nat, vs: seq<Val>)
    requires i < |mt.fields| && vs != [] && SlotTyped(mt.fields[i], vs) && SlotWellFormed(mt.fields[i].kind, vs)
    ensures var k, f := |vs| - 1, mt.fields[i];
      && SlotTyped(f, vs[..k]) && SlotWellFormed(f.kind, vs[..k])
      && SlotTyped(f, [vs[k]]) && ValTyped(f.kind, vs[k]) && (vs[k].M? ==> WellFormed(f.kind.mt, vs[k].msg))
      && SerializeSlot(f.kind, i + 1, vs) == SerializeSlot(f.kind, i + 1, vs[..k]) + SerializeVal(f.kind, i + 1, vs[k])
  {
    assert ValTyped(mt.fields[i].kind, vs[|vs| - 1]);
  }

  lemma SingleGrows(mt: MsgType, i: nat, vs: seq<Val>)
    requires i < |mt.fields| && vs != [] && SlotTyped(mt.fields[i], vs)
    requires SlotTyped(mt.fields[i], vs[..|vs| - 1]) && SlotTyped(mt.fields[i], [vs[|vs| - 1]])
    ensures Single(mt, i, vs) == Merge(mt, Single(mt, i, vs[..|vs| - 1]), Single(mt, i, [vs[|vs| - 1]]))
  {
    var k := |vs| - 1;
    LastReceived(mt.fields[i], vs);
    SingleParts(mt, i, vs);
    SingleParts(mt, i, vs[..k]);
    SingleParts(mt, i, [vs[k]]);
    hide Single, Merge, MergeSlot, SlotTyped;
    MergeAtField(mt, Single(mt, i, vs[..k]), Single(mt, i, [vs[k]]), i, Single(mt, i, vs));
  }

  lemma LastReceived(f: Field, vs: seq<Val>)
    requires vs != [] && SlotTyped(f, vs) && SlotTyped(f, vs[..|vs| - 1]) && SlotTyped(f, [vs[|vs| - 1]])
    ensures MergeSlot(f, vs[..|vs| - 1], [vs[|vs| - 1]]) == vs
  {
    hide ValTyped, Typed, Merge;
    assert vs[..|vs| - 1] + [vs[|vs| - 1]] == vs;
  }

  /** The first n fields of `m` alone. */
  function Prefix(mt: MsgType, m: Msg, n: nat): (p: Msg)
    requires Typed(mt, m) && n <= |mt.fields|
    ensures Typed(mt, p)
  {
    Msg(seq(|mt.fields|, i requires 0 <= i < |mt.fields| => if i < n then m.fields[i] else []), [])
  }

  lemma PrefixGrows(mt: MsgType, m: Msg, n: nat)
    requires Typed(mt, m) && 0 < n <= |mt.fields|
    requires SlotTyped(mt.fields[n - 1], m.fields[n - 1])
    ensures Prefix(mt, m, n) == Merge(mt, Prefix(mt, m, n - 1), Single(mt, n - 1, m.fields[n - 1]))
  {
    PrefixParts(mt, m, n);
    SingleParts(mt, n - 1, m.fields[n - 1]);
    hide Prefix, Single, Merge, SlotTyped;
    MergeAtField(mt, Prefix(mt, m, n - 1), Single(mt, n - 1, m.fields[n - 1]), n - 1, Prefix(mt, m, n));
  }

  lemma PrefixParts(mt: MsgType, m: Msg, n: nat)
    requires Typed(mt, m) && 0 < n <= |mt.fields|
    ensures var p, r := Prefix(mt, m, n - 1), Prefix(mt, m, n);
      && p.unknown == r.unknown == [] && p.fields[n - 1] == [] && r.fields[n - 1] == m.fields[n - 1]
      && forall k :: 0 <= k < |mt.fields| && k != n - 1 ==> r.fields[k] == p.fields[k]
  {
  }

  lemma SingleParts(mt: MsgType, i: nat, vs: seq<Val>)
    requires i < |mt.fields| && SlotTyped(mt.fields[i], vs)
    ensures var d := Single(mt, i, vs);
      && d.unknown == [] && d.fields[i] == vs == MergeSlot(mt.fields[i], [], vs)
      && forall k :: 0 <= k < |mt.fields| && k != i ==> d.fields[k] == []
  {
  }

  lemma WellFormedIsTyped(mt: MsgType, m: Msg)
    requires WellFormed(mt, m)
    ensures Typed(mt, m)
  {
  }

  lemma ParseNoField(mt: MsgType, m: Msg)
    requires Typed(mt, m)
    ensures Parse(mt, SerializeFields(mt, m, 0)) == Outcome(Done, Prefix(mt, m, 0))
  {
    assert Prefix(mt, m, 0).fields == Default(mt).fields;
  }

  lemma FieldWellFormed(mt: MsgType, m: Msg, n: nat)
    requires WellFormed(mt, m) && 0 < n <= |mt.fields|
    ensures SlotTyped(mt.fields[n - 1], m.fields[n - 1]) && SlotWellFormed(mt.fields[n - 1].kind, m.fields[n - 1])
    ensures SerializeFields(mt, m, n)
         == SerializeFields(mt, m, n - 1) + SerializeSlot(mt.fields[n - 1].kind, n, m.fields[n - 1])
  {
  }

  lemma {:induction false} ParseFields(mt: MsgType, m: Msg, n: nat)
    requires TypeOK(mt) && WellFormed(mt, m) && n <= |mt.fields|
    requires |SerializeFields(mt, m, n)| < LENGTH_LIMIT
    ensures Parse(mt, SerializeFields(mt, m, n)) == Outcome(Done, Prefix(mt, m, n))
    decreases mt, 1, n
  {
    hide Parse, Prefix, Single, Merge, SerializeFields, SerializeSlot, WellFormed, SlotWellFormed, TypeOK;
    WellFormedIsTyped(mt, m);
    if n == 0 {
      ParseNoField(mt, m);
    } else {
      FieldWellFormed(mt, m, n);
      var vs := m.fields[n - 1];
      ParseFields(mt, m, n - 1);
      ParseSlot(mt, n - 1, vs);
      PrefixGrows(mt, m, n);
      ConcatenationIsMerge(mt, SerializeFields(mt, m, n - 1), SerializeSlot(mt.fields[n - 1].kind, n, vs));
    }
  }

  lemma ReadSettled(mt: MsgType, m: Msg, u: Unknown, more: Bytes)
    requires Typed(mt, m) && Settles(mt, u)
    ensures ReadTagged(mt, m, u.tag, EncodePayload(u.tag, u.data) + more) == Next(Keep(m, u), more)
  {
    assert PayloadOK(u.tag, u.data);
    if IsKnown(mt, u.tag) {
      VarintRoundTrip(u.data.n, more);
    } else {
      SkipOfEncoded(u, more);
    }
  }

  lemma ParseFirstUnknown(mt: MsgType, m: Msg, us: seq<Unknown>)
    requires Typed(mt, m) && us != [] && Settles(mt, us[0])
    ensures ParseInto(mt, m, EncodeUnknowns(us)) == ParseInto(mt, Keep(m, us[0]), EncodeUnknowns(us[1..]))
  {
    var u, more := us[0], EncodeUnknowns(us[1..]);
    EncodeUnknownsHead(us);
    ReadSettled(mt, m, u, more);
    ParseOne(mt, m, u.tag, EncodePayload(u.tag, u.data) + more, Keep(m, u), more);
  }

  lemma {:induction false} ParseUnknowns(mt: MsgType, m: Msg, us: seq<Unknown>)
    requires Typed(mt, m)
    requires forall k :: 0 <= k < |us| ==> Settles(mt, us[k])
    ensures ParseInto(mt, m, EncodeUnknowns(us)) == Outcome(Done, m.(unknown := m.unknown + us))
    decreases |us|
  {
    if us == [] {
      assert m.unknown + us == m.unknown;
    } else {
      KeepFirst(mt, m, us);
      ParseFirstUnknown(mt, m, us);
      hide ParseInto, Settles, Typed;
      ParseUnknowns(mt, Keep(m, us[0]), us[1..]);
    }
  }

  lemma KeepFirst(mt: MsgType, m: Msg, us: seq<Unknown>)
    requires Typed(mt, m) && us != []
    ensures Typed(mt, Keep(m, us[0])) && Keep(m, us[0]).unknown + us[1..] == m.unknown + us
  {
    assert us == [us[0]] + us[1..];
    Regroup(m.unknown, [us[0]], us[1..]);
  }

  /** Every well-formed message that fits the int sizes parses back to itself, unknown fields included. */
  lemma {:induction false} RoundTrip(mt: MsgType, m: Msg)
    requires TypeOK(mt) && WellFormed(mt, m) && |Serialize(mt, m)| < LENGTH_LIMIT
    ensures Parse(mt, Serialize(mt, m)) == Outcome(Done, m)
    decreases mt, 2
  {
    var n := |mt.fields|;
    var p := Prefix(mt, m, n);
    ParseFields(mt, m, n);
    DefaultTyped(mt);
    ParseContinues(mt, Default(mt), SerializeFields(mt, m, n), EncodeUnknowns(m.unknown));
    ParseUnknowns(mt, p, m.unknown);
    assert p.(unknown := p.unknown + m.unknown) == m by {
      assert p.fields == m.fields;
      assert p.unknown + m.unknown == m.unknown;
    }
  }

  // ---------------------------------------------------------------- what parsing produces

  lemma DefaultWellFormed(mt: MsgType)
    ensures WellFormed(mt, Default(mt))
  {
  }

  lemma ExistingWellFormed(f: Field, x: seq<Val>)
    requires f.kind.Sub? && SlotTyped(f, x) && SlotWellFormed(f.kind, x)
    ensures WellFormed(f.kind.mt, Existing(f, x))
  {
    DefaultWellFormed(f.kind.mt);
  }

  lemma PutWellFormed(mt: MsgType, m: Msg, i: nat, vs: seq<Val>)
    requires WellFormed(mt, m) && i < |mt.fields|
    requires SlotTyped(mt.fields[i], vs) && SlotWellFormed(mt.fields[i].kind, vs)
    ensures WellFormed(mt, Put(mt, m, i, vs))
  {
  }

  lemma SignExtendSettles(mt: MsgType, i: nat, v: nat)
    requires |mt.fields| <= 15 && i < |mt.fields| && v < TWO_32
    requires mt.fields[i].kind.Enum? && mt.fields[i].kind.count <= v
    ensures Settles(mt, Unknown(8 * (i + 1), Num(SignExtend(v))))
  {
  }

  lemma {:induction false} ReadFieldWellFormed(mt: MsgType, m: Msg, i: nat, s: Bytes)
    requires TypeOK(mt) && WellFormed(mt, m) && i < |mt.fields|
    ensures WellFormed(mt, ReadField(mt, m, i, s).msg)
    decreases |s|, 0
  {
    var f, x := mt.fields[i], m.fields[i];
    assert FieldOK(f) && SlotTyped(f, x) && SlotWellFormed(f.kind, x);
    match f.kind
    case Enum(count) =>
      if ReadVarint32(s).Good? {
        var v := ReadVarint32(s).value;
        if v < count {
          PutWellFormed(mt, m, i, [N(v)]);
        } else {
          SignExtendSettles(mt, i, v);
        }
      }
    case Sub(t) =>
      ExistingWellFormed(f, x);
      var m1 := Existing(f, x);
      if ReadBytes(s).Good? {
        ParseWellFormed(t, m1, ReadBytes(s).value);
        m1 := ParseInto(t, m1, ReadBytes(s).value).msg;
      }
      PutWellFormed(mt, m, i, Receive(f, x, M(m1)));
    case _ =>
  }

  /** No input, accepted or not, can take a well-formed message to one that is not. */
  lemma {:induction false} ParseWellFormed(mt: MsgType, m: Msg, s: Bytes)
    requires TypeOK(mt) && WellFormed(mt, m)
    ensures WellFormed(mt, ParseInto(mt, m, s).msg)
    decreases |s|, 1
  {
    if s != [] && ReadVarint32(s).Good? {
      var Good(tag, rest) := ReadVarint32(s);
      if tag != 0 {
        if IsKnown(mt, tag) {
          ReadFieldWellFormed(mt, m, tag / 8 - 1, rest);
        } else if Skip(tag, rest).Good? {
          SkipOK(tag, rest);
        }
      }
      var st := ReadTagged(mt, m, tag, rest);
      if st.Next? {
        ParseWellFormed(mt, st.msg, st.rest);
      }
    }
  }

  // ---------------------------------------------------------------- main results

  /** A typed message comes back from its own bytes exactly when it is well formed. */
  lemma RoundTripIff(mt: MsgType, m: Msg)
    requires TypeOK(mt) && Typed(mt, m) && |Serialize(mt, m)| < LENGTH_LIMIT
    ensures Parse(mt, Serialize(mt, m)) == Outcome(Done, m) <==> WellFormed(mt, m)
  {
    if WellFormed(mt, m) {
      RoundTrip(mt, m);
    }
    DefaultWellFormed(mt);
    ParseWellFormed(mt, Default(mt), Serialize(mt, m));
  }

  /** Whatever bytes were accepted, serializing the message and parsing again gives the same message. */
  lemma ParseSerializeIdempotent(mt: MsgType, s: Bytes)
    requires TypeOK(mt) && Parse(mt, s).status == Done
    requires |Serialize(mt, Parse(mt, s).msg)| < LENGTH_LIMIT
    ensures Parse(mt, Serialize(mt, Parse(mt, s).msg)) == Parse(mt, s)
  {
    DefaultWellFormed(mt);
    ParseWellFormed(mt, Default(mt), s);
    RoundTrip(mt, Parse(mt, s).msg);
  }

  /** The bytes of two messages, one after the other, parse to the second merged into the first. */
  lemma SerializedConcatenationIsMerge(mt: MsgType, a: Msg, b: Msg)
    requires TypeOK(mt) && WellFormed(mt, a) && WellFormed(mt, b)
    requires |Serialize(mt, a)| < LENGTH_LIMIT && |Serialize(mt, b)| < LENGTH_LIMIT
    ensures Parse(mt, Serialize(mt, a) + Serialize(mt, b)) == Outcome(Done, Merge(mt, a, b))
  {
    RoundTrip(mt, a);
    RoundTrip(mt, b);
    ConcatenationIsMerge(mt, Serialize(mt, a), Serialize(mt, b));
  }
}
