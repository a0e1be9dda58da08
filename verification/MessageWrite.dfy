/** The two serializers. Both trust the cached sizes; given right ones both write `Serialize`. */
module MessageWrite {
  import opened Bytes
  import opened Wire
  import opened Messages
  import opened MessageSerialize
  import opened MessageState
  import opened MessageSize

  /** SerializeWithCachedSizesToArray: writes at `pos` and returns the position after the message. */
  method WriteToArray(mt: MsgType, st: State, c: Cache, a: array<Byte>, pos: nat) returns (end: nat)
    requires Valid(mt, st) && c == Sizes(mt, Value(mt, st))
    requires pos + |Serialize(mt, Value(mt, st))| <= a.Length
    modifies a
    ensures end == pos + c.size && a[..] == Written(old(a[..]), pos, Serialize(mt, Value(mt, st)))
    decreases mt, 2
  {
    ghost var m := Value(mt, st);
    WholeMessage(mt, m);
    hide Written, SerializeFields, Serialize, Sizes;
    WrittenTwice(a[..], pos, SerializeFields(mt, m, |mt.fields|), EncodeUnknowns(m.unknown));
    end := WriteFieldsToArray(mt, st, m, |mt.fields|, c, a, pos);
    end := CopyTo(a, end, EncodeUnknowns(st.unknown));
  }

  /** The first n fields in order: a member is written when its bit is set, a repeated one as often as it
      has elements. */
  method WriteFieldsToArray(mt: MsgType, st: State, ghost m: Msg, n: nat, c: Cache, a: array<Byte>, pos: nat)
    returns (end: nat)
    requires Typed(mt, m) && Shows(mt, st, c, m) && n <= |mt.fields|
    requires pos + |SerializeFields(mt, m, n)| <= a.Length
    modifies a
    ensures end == pos + |SerializeFields(mt, m, n)| && a[..] == Written(old(a[..]), pos, SerializeFields(mt, m, n))
    decreases mt, 1, n
  {
    LastField(mt, m, n);
    hide Written, SerializeFields, FieldBytes, Shows, Typed;
    end := pos;
    if n == 0 {
      WrittenNothing(a[..], pos);
    } else {
      WrittenTwice(a[..], pos, SerializeFields(mt, m, n - 1), FieldBytes(mt, m, n - 1));
      end := WriteFieldsToArray(mt, st, m, n - 1, c, a, pos);
      end := WriteFieldToArray(mt, st, m, n - 1, c, a, end);
    }
  }

  /** The object shows the message, and its cached sizes are right. */
  ghost predicate Shows(mt: MsgType, st: State, c: Cache, m: Msg) {
    Valid(mt, st) && m == Value(mt, st) && c == Sizes(mt, m)
  }

  /** What is written for a field. */
  ghost function FieldBytes(mt: MsgType, m: Msg, i: nat): Bytes
    requires Typed(mt, m) && i < |mt.fields|
  {
    assert SlotTyped(mt.fields[i], m.fields[i]);
    SerializeSlot(mt.fields[i].kind, i + 1, m.fields[i])
  }

  lemma WholeMessage(mt: MsgType, m: Msg)
    requires Typed(mt, m)
    ensures SerializeFields(mt, m, 0) == []
    ensures Serialize(mt, m) == SerializeFields(mt, m, |mt.fields|) + EncodeUnknowns(m.unknown)
    ensures Sizes(mt, m).size == |Serialize(mt, m)|
  {
  }

  /** The last of the first n fields, and those before it. */
  lemma LastField(mt: MsgType, m: Msg, n: nat)
    requires Typed(mt, m) && n <= |mt.fields|
    ensures n == 0 ==> SerializeFields(mt, m, n) == []
    ensures n > 0 ==> SerializeFields(mt, m, n) == SerializeFields(mt, m, n - 1) + FieldBytes(mt, m, n - 1)
  {
  }

  /** `if (has_x())` write, or a loop over the elements; what is not visible writes nothing. */
  method WriteFieldToArray(mt: MsgType, st: State, ghost m: Msg, i: nat, c: Cache, a: array<Byte>, pos: nat)
    returns (end: nat)
    requires Typed(mt, m) && Shows(mt, st, c, m) && i < |mt.fields|
    requires pos + |FieldBytes(mt, m, i)| <= a.Length
    modifies a
    ensures end == pos + |FieldBytes(mt, m, i)| && a[..] == Written(old(a[..]), pos, FieldBytes(mt, m, i))
    decreases mt, 0, 0
  {
    VisibleField(mt, st, c, m, i);
    hide Written, FieldBytes, SerializeSlot, Shows;
    end := pos;
    if mt.fields[i].presence.Repeated? || i in st.has {
      end := WriteSlotToArray(mt.fields[i], i + 1, st.slots[i], c.subs[i], a, pos);
    } else {
      WrittenNothing(a[..], pos);
    }
  }

  lemma VisibleField(mt: MsgType, st: State, c: Cache, m: Msg, i: nat)
    requires Typed(mt, m) && Shows(mt, st, c, m) && i < |mt.fields|
    ensures |st.slots| == |c.subs| == |mt.fields| && SlotTyped(mt.fields[i], m.fields[i])
    ensures c.subs[i] == SlotSizes(mt.fields[i], m.fields[i])
    ensures var f := mt.fields[i];
      && AllHeld(f.kind, st.slots[i])
      && if f.presence.Repeated? || i in st.has then
           && m.fields[i] == Vals(f.kind, st.slots[i])
           && FieldBytes(mt, m, i) == SerializeSlot(f.kind, i + 1, Vals(f.kind, st.slots[i]))
         else FieldBytes(mt, m, i) == []
  {
    ValueAt(mt, st, i);
  }

  method WriteSlotToArray(f: Field, number: nat, x: seq<Held>, cs: seq<Cache>, a: array<Byte>, pos: nat)
    returns (end: nat)
    requires AllHeld(f.kind, x) && SlotTyped(f, Vals(f.kind, x)) && cs == SlotSizes(f, Vals(f.kind, x))
    requires pos + |SerializeSlot(f.kind, number, Vals(f.kind, x))| <= a.Length
    modifies a
    ensures end == pos + |SerializeSlot(f.kind, number, Vals(f.kind, x))|
    ensures a[..] == Written(old(a[..]), pos, SerializeSlot(f.kind, number, Vals(f.kind, x)))
    decreases f, 0
  {
    ghost var vs := Vals(f.kind, x);
    ghost var s, done := a[..], [];
    end := pos;
    WrittenNothing(s, pos);
    FirstValues(f.kind, number, vs, 0);
    hide Written, SerializeSlot, SerializeVal, SlotSizes, Sizes, Value, Valid, SlotTyped, ValTyped, FirstSlot;
    for k := 0 to |x|
      invariant done == FirstSlot(f.kind, number, vs, k)
      invariant end == pos + |done| <= a.Length && a[..] == Written(s, pos, done)
    {
      FirstValues(f.kind, number, vs, k + 1);
      SlotSizesAt(f, x, k);
      end := WriteHeldToArray(f.kind, number, x[k], if f.kind.Sub? then cs[k] else NoCache, a, end, s, pos, done);
      done := done + SerializeVal(f.kind, number, vs[k]);
    }
    FirstValues(f.kind, number, vs, |x|);
  }

  const NoCache: Cache := Cache(0, [])

  ghost predicate CacheOf(kind: Kind, h: Held, c: Cache)
    requires HeldOK(kind, h)
  {
    kind.Sub? ==> c == Sizes(kind.mt, Value(kind.mt, h.st))
  }

  /** Writes one value behind `done`, which the buffer `s` has received from `start` on. */
  method WriteHeldToArray(kind: Kind, number: nat, h: Held, c: Cache, a: array<Byte>, pos: nat,
                          ghost s: Bytes, ghost start: nat, ghost done: Bytes)
    returns (end: nat)
    requires HeldOK(kind, h) && CacheOf(kind, h, c)
    requires pos == start + |done| && pos + |SerializeVal(kind, number, ValOf(kind, h))| <= a.Length == |s|
    requires a[..] == Written(s, start, done)
    modifies a
    ensures end == pos + |SerializeVal(kind, number, ValOf(kind, h))|
    ensures a[..] == Written(s, start, done + SerializeVal(kind, number, ValOf(kind, h)))
    decreases kind, 0
  {
    hide Written;
    var head := Header(kind, number, h, c.size);
    WrittenTwice(s, start, done, head);
    end := CopyTo(a, pos, head);
    if h.Nested? {
      ghost var body := Serialize(kind.mt, Value(kind.mt, h.st));
      WrittenTwice(s, start, done + head, body);
      end := WriteToArray(kind.mt, h.st, c, a, end);
      Regroup(done, head, body);
    }
  }

  /** Everything of a value but a submessage's body: its tag, then the number, the string or the stored size. */
  function Header(kind: Kind, number: nat, h: Held, size: nat): (head: Bytes)
    requires HeldOK(kind, h)
    ensures !h.Nested? ==> head == SerializeVal(kind, number, ValOf(kind, h))
    ensures h.Nested? && size == |Serialize(kind.mt, Value(kind.mt, h.st))| ==>
      head + Serialize(kind.mt, Value(kind.mt, h.st)) == SerializeVal(kind, number, ValOf(kind, h))
  {
    if h.Nested? then
      var tag, body := Varint(Tag(number, kind)), Serialize(kind.mt, Value(kind.mt, h.st));
      Regroup(tag, Varint(size), body);
      tag + Varint(size)
    else
      match h.v
      case N(n) => Varint(Tag(number, kind)) + Varint(n)
      case B(b) => Varint(Tag(number, kind)) + (Varint(|b|) + b)
  }

  /** SerializeWithCachedSizes: appends to a stream. */
  method WriteToStream(mt: MsgType, st: State, c: Cache, out: Stream)
    requires Valid(mt, st) && c == Sizes(mt, Value(mt, st))
    modifies out
    ensures out.bytes == old(out.bytes) + Serialize(mt, Value(mt, st))
    decreases mt, 2
  {
    ghost var m := Value(mt, st);
    WholeMessage(mt, m);
    hide SerializeFields, Serialize, Sizes;
    Regroup(out.bytes, SerializeFields(mt, m, |mt.fields|), EncodeUnknowns(m.unknown));
    WriteFieldsToStream(mt, st, m, |mt.fields|, c, out);
    out.Append(EncodeUnknowns(st.unknown));
  }

  method WriteFieldsToStream(mt: MsgType, st: State, ghost m: Msg, n: nat, c: Cache, out: Stream)
    requires Typed(mt, m) && Shows(mt, st, c, m) && n <= |mt.fields|
    modifies out
    ensures out.bytes == old(out.bytes) + SerializeFields(mt, m, n)
    decreases mt, 1, n
  {
    LastField(mt, m, n);
    hide SerializeFields, FieldBytes, Shows, Typed;
    if n > 0 {
      Regroup(out.bytes, SerializeFields(mt, m, n - 1), FieldBytes(mt, m, n - 1));
      WriteFieldsToStream(mt, st, m, n - 1, c, out);
      WriteFieldToStream(mt, st, m, n - 1, c, out);
    }
  }

  method WriteFieldToStream(mt: MsgType, st: State, ghost m: Msg, i: nat, c: Cache, out: Stream)
    requires Typed(mt, m) && Shows(mt, st, c, m) && i < |mt.fields|
    modifies out
    ensures out.bytes == old(out.bytes) + FieldBytes(mt, m, i)
    decreases mt, 0, 0
  {
    VisibleField(mt, st, c, m, i);
    hide FieldBytes, SerializeSlot, Shows;
    if mt.fields[i].presence.Repeated? || i in st.has {
      WriteSlotToStream(mt.fields[i], i + 1, st.slots[i], c.subs[i], out);
    }
  }

  lemma SlotSizesAt(f: Field, x: seq<Held>, k: nat)
    requires AllHeld(f.kind, x) && SlotTyped(f, Vals(f.kind, x)) && k < |x|
    ensures HeldOK(f.kind, x[k])
    ensures f.kind.Sub? ==> var cs := SlotSizes(f, Vals(f.kind, x)); |cs| == |x| && CacheOf(f.kind, x[k], cs[k])
  {
  }

  method WriteSlotToStream(f: Field, number: nat, x: seq<Held>, cs: seq<Cache>, out: Stream)
    requires AllHeld(f.kind, x) && SlotTyped(f, Vals(f.kind, x)) && cs == SlotSizes(f, Vals(f.kind, x))
    modifies out
    ensures out.bytes == old(out.bytes) + SerializeSlot(f.kind, number, Vals(f.kind, x))
    decreases f, 0
  {
    ghost var vs := Vals(f.kind, x);
    ghost var s := out.bytes;
    FirstValues(f.kind, number, vs, 0);
    hide SerializeSlot, SerializeVal, SlotSizes, Sizes, Value, Valid, SlotTyped, ValTyped, FirstSlot;
    assert s + [] == s;
    for k := 0 to |x|
      invariant out.bytes == s + FirstSlot(f.kind, number, vs, k)
    {
      FirstValues(f.kind, number, vs, k + 1);
      SlotSizesAt(f, x, k);
      Regroup(s, FirstSlot(f.kind, number, vs, k), SerializeVal(f.kind, number, vs[k]));
      WriteHeldToStream(f.kind, number, x[k], if f.kind.Sub? then cs[k] else NoCache, out);
    }
    FirstValues(f.kind, number, vs, |x|);
  }

  method WriteHeldToStream(kind: Kind, number: nat, h: Held, c: Cache, out: Stream)
    requires HeldOK(kind, h) && CacheOf(kind, h, c)
    modifies out
    ensures out.bytes == old(out.bytes) + SerializeVal(kind, number, ValOf(kind, h))
    decreases kind, 0
  {
    out.Append(Header(kind, number, h, c.size));
    if h.Nested? {
      WriteMessageMaybeToArray(kind.mt, h.st, c, out);
    }
  }

  /** When the stream can lend a buffer of the stored size the array serializer fills it, otherwise
      the submessage is streamed. */
  method WriteMessageMaybeToArray(mt: MsgType, st: State, c: Cache, out: Stream)
    requires Valid(mt, st) && c == Sizes(mt, Value(mt, st))
    modifies out
    ensures out.bytes == old(out.bytes) + Serialize(mt, Value(mt, st))
    decreases mt, 3
  {
    var lent: bool := *;
    if lent {
      var a := new Byte[c.size](i => 0);
      ghost var blank := a[..];
      var end := WriteToArray(mt, st, c, a, 0);
      assert Written(blank, 0, Serialize(mt, Value(mt, st))) == Serialize(mt, Value(mt, st));
      out.Append(a[..]);
    } else {
      WriteToStream(mt, st, c, out);
    }
  }
}
