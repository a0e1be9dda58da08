/**
 ByteSize leaves a size in every message of the tree; the two serializers never measure
 again but write each submessage's stored size as its length prefix.
 */
module MessageSize {
  import opened Bytes
  import opened Wire
  import opened Messages
  import opened MessageSerialize
  import opened MessageState

  /** The `_cached_size_` of a message and of its submessages, by field and position. */
  datatype Cache = Cache(size: nat, subs: seq<seq<Cache>>)

  // ---------------------------------------------------------------- sizes of primitives

  /** UInt32Size, UInt64Size and EnumSize: one byte for every seven bits. */
  function VarintSize(n: nat): (k: nat) {
    if n < 0x80 then 1
    else if n < 0x4000 then 2
    else if n < 0x20_0000 then 3
    else if n < 0x1000_0000 then 4
    else if n < 0x8_0000_0000 then 5
    else if n < 0x400_0000_0000 then 6
    else if n < 0x2_0000_0000_0000 then 7
    else if n < 0x100_0000_0000_0000 then 8
    else if n < 0x8000_0000_0000_0000 then 9
    else 10
  }

  lemma VarintSizeExact(n: nat)
    requires n < TWO_64
    ensures VarintSize(n) == |Varint(n)|
  {
    VarintLength(n, 10);
  }

  /** Every extra byte of a varint is worth a factor of 128. */
  lemma {:induction false} VarintLength(n: nat, k: nat)
    requires k > 0
    ensures |Varint(n)| <= k <==> n < Pow128(k)
    decreases k
  {
    if n >= 128 && k > 1 {
      VarintLength(n / 128, k - 1);
    }
  }

  // ---------------------------------------------------------------- what the caches should hold

  /** The true size of every message in the tree. */
  ghost function Sizes(mt: MsgType, m: Msg): Cache
    requires Typed(mt, m)
    decreases mt, 1
  {
    Cache(|Serialize(mt, m)|, seq(|mt.fields|, i requires 0 <= i < |mt.fields| => SlotSizes(mt.fields[i], m.fields[i])))
  }

  ghost function SlotSizes(f: Field, vs: seq<Val>): seq<Cache>
    requires SlotTyped(f, vs)
    decreases f
  {
    if f.kind.Sub? then
      seq(|vs|, k requires 0 <= k < |vs| => assert ValTyped(f.kind, vs[k]); Sizes(f.kind.mt, vs[k].msg))
    else []
  }

  ghost function SlotBytes(mt: MsgType, m: Msg, i: nat): nat
    requires Typed(mt, m) && i < |mt.fields|
  {
    assert SlotTyped(mt.fields[i], m.fields[i]);
    |SerializeSlot(mt.fields[i].kind, i + 1, m.fields[i])|
  }

  /** The bytes of the repeated, or of the other, fields among the first n. */
  ghost function Total(mt: MsgType, m: Msg, n: nat, repeated: bool): nat
    requires Typed(mt, m) && n <= |mt.fields|
  {
    if n == 0 then 0
    else if mt.fields[n - 1].presence.Repeated? == repeated then
      Total(mt, m, n - 1, repeated) + SlotBytes(mt, m, n - 1)
    else Total(mt, m, n - 1, repeated)
  }

  lemma {:induction false} TotalsAddUp(mt: MsgType, m: Msg, n: nat)
    requires Typed(mt, m) && n <= |mt.fields|
    ensures Total(mt, m, n, false) + Total(mt, m, n, true) == |SerializeFields(mt, m, n)|
  {
    if n > 0 {
      TotalsAddUp(mt, m, n - 1);
    }
  }

  lemma {:induction false} SlotWithin(mt: MsgType, m: Msg, i: nat, n: nat)
    requires Typed(mt, m) && i < n <= |mt.fields|
    ensures SlotBytes(mt, m, i) <= |SerializeFields(mt, m, n)|
  {
    if i < n - 1 {
      SlotWithin(mt, m, i, n - 1);
    }
  }

  lemma TagIsOneByte(number: nat, kind: Kind)
    requires number <= 15
    ensures |Varint(Tag(number, kind))| == 1
  {
  }

  // ---------------------------------------------------------------- ByteSize

  /** Measures an object bottom up and leaves the size of every submessage behind. */
  method ByteSize(mt: MsgType, st: State) returns (c: Cache)
    requires TypeOK(mt) && Valid(mt, st) && |Serialize(mt, Value(mt, st))| < LENGTH_LIMIT
    ensures c == Sizes(mt, Value(mt, st))
    decreases mt, 3
  {
    ghost var m := Value(mt, st);
    var total, subs := SingularByteSize(mt, st);
    MeasuredHalf(mt, m, subs);
    total, subs := RepeatedByteSize(mt, st, total, subs);
    MeasuredAll(mt, m, subs);
    TotalsAddUp(mt, m, |mt.fields|);
    c := Cache(total + |EncodeUnknowns(st.unknown)|, subs);
  }

  /** The sizes of the members with presence bits among the first i fields; or of all those, and of the
      repeated ones among the first i. */
  ghost predicate Measured(mt: MsgType, m: Msg, subs: seq<seq<Cache>>, i: nat, repeated: bool)
    requires Typed(mt, m)
  {
    && |subs| == |mt.fields|
    && forall j :: 0 <= j < |mt.fields| && IsMeasured(mt, j, i, repeated) ==>
         SlotTyped(mt.fields[j], m.fields[j]) && subs[j] == SlotSizes(mt.fields[j], m.fields[j])
  }

  predicate IsMeasured(mt: MsgType, j: nat, i: nat, repeated: bool)
    requires j < |mt.fields|
  {
    if mt.fields[j].presence.Repeated? == repeated then j < i else repeated
  }

  lemma MeasuredNone(mt: MsgType, m: Msg, subs: seq<seq<Cache>>)
    requires Typed(mt, m) && |subs| == |mt.fields|
    ensures Measured(mt, m, subs, 0, false)
  {
  }

  lemma MeasuredNext(mt: MsgType, m: Msg, subs: seq<seq<Cache>>, i: nat, repeated: bool, cs: seq<Cache>)
    requires Typed(mt, m) && Measured(mt, m, subs, i, repeated) && i < |mt.fields|
    requires mt.fields[i].presence.Repeated? == repeated ==>
      SlotTyped(mt.fields[i], m.fields[i]) && cs == SlotSizes(mt.fields[i], m.fields[i])
    ensures Measured(mt, m, if mt.fields[i].presence.Repeated? == repeated then subs[i := cs] else subs, i + 1, repeated)
  {
  }

  lemma MeasuredHalf(mt: MsgType, m: Msg, subs: seq<seq<Cache>>)
    requires Typed(mt, m) && Measured(mt, m, subs, |mt.fields|, false)
    ensures Measured(mt, m, subs, 0, true)
  {
  }

  lemma MeasuredAll(mt: MsgType, m: Msg, subs: seq<seq<Cache>>)
    requires Typed(mt, m) && Measured(mt, m, subs, |mt.fields|, true)
    ensures subs == Sizes(mt, m).subs
  {
  }

  /** The members with presence bits: a chunk is skipped when the mask finds no bit, a member when its
      own bit is clear. */
  method SingularByteSize(mt: MsgType, st: State) returns (total: nat, subs: seq<seq<Cache>>)
    requires TypeOK(mt) && Valid(mt, st) && |Serialize(mt, Value(mt, st))| < LENGTH_LIMIT
    ensures total == Total(mt, Value(mt, st), |mt.fields|, false)
    ensures Measured(mt, Value(mt, st), subs, |mt.fields|, false)
    decreases mt, 2
  {
    ghost var m := Value(mt, st);
    total, subs := 0, seq(|mt.fields|, i => []);
    MeasuredNone(mt, m, subs);
    hide Measured, SlotSizes, SlotBytes, Value, Valid, Serialize;
    for i := 0 to |mt.fields|
      invariant total == Total(mt, m, i, false) && |subs| == |mt.fields| && Measured(mt, m, subs, i, false)
    {
      var cs := [];
      if !mt.fields[i].presence.Repeated? {
        var k;
        k, cs := MemberByteSize(mt, st, i);
        total := total + k;
      }
      MeasuredNext(mt, m, subs, i, false, cs);
      if !mt.fields[i].presence.Repeated? {
        subs := subs[i := cs];
      }
    }
  }

  method MemberByteSize(mt: MsgType, st: State, i: nat) returns (k: nat, cs: seq<Cache>)
    requires TypeOK(mt) && Valid(mt, st) && |Serialize(mt, Value(mt, st))| < LENGTH_LIMIT
    requires i < |mt.fields| && !mt.fields[i].presence.Repeated?
    ensures SlotTyped(mt.fields[i], Value(mt, st).fields[i])
    ensures k == SlotBytes(mt, Value(mt, st), i) && cs == SlotSizes(mt.fields[i], Value(mt, st).fields[i])
    decreases mt, 1
  {
    SingularSlot(mt, st, i);
    hide SlotBytes, SlotSizes, Value, Valid, Serialize, SlotTyped, AllHeld;
    k, cs := 0, [];
    if ChunkVisited(mt, st.has, i) {
      if i in st.has {
        k, cs := VisibleByteSize(mt, st, i);
      }
    }
  }

  /** What is skipped, alone or with its chunk, would have added nothing; what is not is visible. */
  lemma SingularSlot(mt: MsgType, st: State, i: nat)
    requires Valid(mt, st) && i < |mt.fields| && !mt.fields[i].presence.Repeated?
    ensures var m := Value(mt, st);
      && SlotTyped(mt.fields[i], m.fields[i]) && AllHeld(mt.fields[i].kind, st.slots[i])
      && if ChunkVisited(mt, st.has, i) && i in st.has then m.fields[i] == Vals(mt.fields[i].kind, st.slots[i])
         else SlotBytes(mt, m, i) == 0 && SlotSizes(mt.fields[i], m.fields[i]) == []
  {
    ValueAt(mt, st, i);
    if i in st.has {
      SetBitIsVisited(mt, st.has, i);
    }
  }

  method VisibleByteSize(mt: MsgType, st: State, i: nat) returns (k: nat, cs: seq<Cache>)
    requires TypeOK(mt) && Valid(mt, st) && |Serialize(mt, Value(mt, st))| < LENGTH_LIMIT
    requires i < |mt.fields| && (mt.fields[i].presence.Repeated? || i in st.has)
    ensures SlotTyped(mt.fields[i], Value(mt, st).fields[i])
    ensures k == SlotBytes(mt, Value(mt, st), i) && cs == SlotSizes(mt.fields[i], Value(mt, st).fields[i])
    decreases mt, 0
  {
    hide SlotBytes, SlotSizes, Value, Valid, Serialize, SerializeSlot, SlotTyped, AllHeld, FieldOK, TypeOK;
    VisibleSlot(mt, st, i);
    k, cs := SlotByteSize(mt.fields[i], i + 1, st.slots[i]);
  }

  lemma VisibleSlot(mt: MsgType, st: State, i: nat)
    requires TypeOK(mt) && Valid(mt, st) && i < |mt.fields| && (mt.fields[i].presence.Repeated? || i in st.has)
    ensures var f, m := mt.fields[i], Value(mt, st);
      && i + 1 <= 15 && i < |st.slots| && FieldOK(f) && AllHeld(f.kind, st.slots[i]) && SlotTyped(f, Vals(f.kind, st.slots[i]))
      && m.fields[i] == Vals(f.kind, st.slots[i])
      && SlotBytes(mt, m, i) == |SerializeSlot(f.kind, i + 1, Vals(f.kind, st.slots[i]))| <= |Serialize(mt, m)|
  {
    ValueAt(mt, st, i);
    SlotWithin(mt, Value(mt, st), i, |mt.fields|);
  }

  method RepeatedByteSize(mt: MsgType, st: State, singular: nat, cs0: seq<seq<Cache>>)
    returns (total: nat, subs: seq<seq<Cache>>)
    requires TypeOK(mt) && Valid(mt, st) && |Serialize(mt, Value(mt, st))| < LENGTH_LIMIT
    requires |cs0| == |mt.fields| && Measured(mt, Value(mt, st), cs0, 0, true)
    ensures total == singular + Total(mt, Value(mt, st), |mt.fields|, true)
    ensures Measured(mt, Value(mt, st), subs, |mt.fields|, true)
    decreases mt, 2
  {
    ghost var m := Value(mt, st);
    total, subs := singular, cs0;
    hide Measured, SlotSizes, SlotBytes, Value, Valid, Serialize;
    for i := 0 to |mt.fields|
      invariant total == singular + Total(mt, m, i, true) && |subs| == |mt.fields| && Measured(mt, m, subs, i, true)
    {
      var cs := [];
      if mt.fields[i].presence.Repeated? {
        var k;
        k, cs := VisibleByteSize(mt, st, i);
        total := total + k;
      }
      MeasuredNext(mt, m, subs, i, true, cs);
      if mt.fields[i].presence.Repeated? {
        subs := subs[i := cs];
      }
    }
  }

  /** The bytes of the values of one field, and the sizes of its submessages. */
  method SlotByteSize(f: Field, number: nat, x: seq<Held>) returns (total: nat, cs: seq<Cache>)
    requires FieldOK(f) && AllHeld(f.kind, x) && SlotTyped(f, Vals(f.kind, x)) && number <= 15
    requires |SerializeSlot(f.kind, number, Vals(f.kind, x))| < LENGTH_LIMIT
    ensures total == |SerializeSlot(f.kind, number, Vals(f.kind, x))| && cs == SlotSizes(f, Vals(f.kind, x))
    decreases f, 1
  {
    ghost var vs := Vals(f.kind, x);
    total, cs := 0, [];
    hide SerializeSlot, SerializeVal, SlotSizes, Sizes, Value, Valid, FirstSlot, SlotTyped, ValTyped;
    FirstValues(f.kind, number, vs, 0);
    for k := 0 to |x|
      invariant total == |FirstSlot(f.kind, number, vs, k)|
      invariant cs == if f.kind.Sub? then SizesOfFirst(f, vs, k) else []
    {
      FirstValues(f.kind, number, vs, k + 1);
      var size, c := HeldByteSize(f, number, x[k]);
      total := total + size;
      if f.kind.Sub? { cs := cs + [c]; }
    }
    FirstValues(f.kind, number, vs, |x|);
    AllSizes(f, vs);
  }

  /** The bytes of the first k values. */
  ghost function FirstSlot(kind: Kind, number: nat, vs: seq<Val>, k: nat): Bytes
    requires k <= |vs| && forall j :: 0 <= j < |vs| ==> ValTyped(kind, vs[j])
  {
    SerializeSlot(kind, number, vs[..k])
  }

  lemma FirstValues(kind: Kind, number: nat, vs: seq<Val>, k: nat)
    requires k <= |vs| && forall j :: 0 <= j < |vs| ==> ValTyped(kind, vs[j])
    ensures k == 0 ==> FirstSlot(kind, number, vs, k) == []
    ensures k > 0 ==> FirstSlot(kind, number, vs, k) == FirstSlot(kind, number, vs, k - 1) + SerializeVal(kind, number, vs[k - 1])
    ensures |FirstSlot(kind, number, vs, k)| <= |SerializeSlot(kind, number, vs)|
    ensures k == |vs| ==> FirstSlot(kind, number, vs, k) == SerializeSlot(kind, number, vs)
  {
    if k > 0 {
      SlotGrows(kind, number, vs, k - 1);
    }
    if k == |vs| {
      assert vs[..k] == vs;
    }
  }

  /** The sizes of the first k submessages. */
  ghost function SizesOfFirst(f: Field, vs: seq<Val>, k: nat): (cs: seq<Cache>)
    requires f.kind.Sub? && (forall j :: 0 <= j < |vs| ==> ValTyped(f.kind, vs[j])) && k <= |vs|
  {
    if k == 0 then [] else SizesOfFirst(f, vs, k - 1) + [Sizes(f.kind.mt, vs[k - 1].msg)]
  }

  lemma {:induction false} SizesOfFirstAt(f: Field, vs: seq<Val>, k: nat)
    requires f.kind.Sub? && (forall j :: 0 <= j < |vs| ==> ValTyped(f.kind, vs[j])) && k <= |vs|
    ensures |SizesOfFirst(f, vs, k)| == k
    ensures forall j :: 0 <= j < k ==> SizesOfFirst(f, vs, k)[j] == Sizes(f.kind.mt, vs[j].msg)
  {
    if k > 0 {
      SizesOfFirstAt(f, vs, k - 1);
    }
  }

  lemma AllSizes(f: Field, vs: seq<Val>)
    requires SlotTyped(f, vs)
    ensures SlotSizes(f, vs) == if f.kind.Sub? then SizesOfFirst(f, vs, |vs|) else []
  {
    if f.kind.Sub? {
      SizesOfFirstAt(f, vs, |vs|);
    }
  }

  method HeldByteSize(f: Field, number: nat, h: Held) returns (size: nat, c: Cache)
    requires FieldOK(f) && HeldOK(f.kind, h) && number <= 15
    requires |SerializeVal(f.kind, number, ValOf(f.kind, h))| < LENGTH_LIMIT
    ensures size == |SerializeVal(f.kind, number, ValOf(f.kind, h))|
    ensures f.kind.Sub? ==> c == Sizes(f.kind.mt, Value(f.kind.mt, h.st))
    decreases f, 0
  {
    TagIsOneByte(number, f.kind);
    c := Cache(0, []);
    if h.Nested? {
      c := ByteSize(f.kind.mt, h.st);
      VarintSizeExact(c.size);
      size := 1 + VarintSize(c.size) + c.size;
    } else {
      match h.v {
      case N(n) =>
        VarintSizeExact(n);
        size := 1 + VarintSize(n);
      case B(b) =>
        VarintSizeExact(|b|);
        size := 1 + VarintSize(|b|) + |b|;
      }
    }
  }

  lemma {:induction false} SlotGrows(kind: Kind, number: nat, vs: seq<Val>, k: nat)
    requires k < |vs| && forall j :: 0 <= j < |vs| ==> ValTyped(kind, vs[j])
    ensures SerializeSlot(kind, number, vs[..k + 1])
         == SerializeSlot(kind, number, vs[..k]) + SerializeVal(kind, number, vs[k])
    ensures |SerializeSlot(kind, number, vs[..k + 1])| <= |SerializeSlot(kind, number, vs)|
    decreases |vs|
  {
    assert vs[..k + 1][..k] == vs[..k];
    if k + 1 < |vs| {
      var front := vs[..|vs| - 1];
      SlotGrows(kind, number, front, k);
      assert front[..k + 1] == vs[..k + 1] && front[..k] == vs[..k];
    } else {
      assert vs[..k + 1] == vs;
    }
  }
}
