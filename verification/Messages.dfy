/**
 Message types and message values. Every generated class follows one pattern, so the
 classes are data here: a `MsgType` lists the fields in declaration order, and field
 number k is entry k - 1 of that list.
 */
module Messages {
  import opened Bytes
  import opened Wire

  datatype Presence = Required | Optional | Repeated

  datatype Kind =
    | U32
    | U64
    | Str                     // string and bytes
    | Enum(count: nat)        // the valid values are 0, ..., count - 1
    | Sub(mt: MsgType)

  datatype Field = Field(presence: Presence, kind: Kind)

  datatype MsgType = MsgType(fields: seq<Field>)

  datatype Val = N(n: nat) | B(bytes: Bytes) | M(msg: Msg)

  /** `fields[k]` holds what is present of field k + 1: at most one value unless the field is repeated. */
  datatype Msg = Msg(fields: seq<seq<Val>>, unknown: seq<Unknown>)

  function Default(mt: MsgType): (m: Msg) {
    Msg(seq(|mt.fields|, i => []), [])
  }

  /** The tags of a class fit in one byte, enums in a non-negative int, and only
      length-delimited fields are repeated. */
  ghost predicate TypeOK(mt: MsgType) {
    |mt.fields| <= 15 && forall i :: 0 <= i < |mt.fields| ==> FieldOK(mt.fields[i])
  }

  ghost predicate FieldOK(f: Field) {
    match f.kind
    case U32 => !f.presence.Repeated?
    case U64 => !f.presence.Repeated?
    case Str => true
    case Enum(c) => !f.presence.Repeated? && 0 < c <= LENGTH_LIMIT
    case Sub(t) => TypeOK(t)
  }

  ghost predicate Typed(mt: MsgType, m: Msg) {
    && |m.fields| == |mt.fields|
    && forall i :: 0 <= i < |mt.fields| ==> SlotTyped(mt.fields[i], m.fields[i])
  }

  ghost predicate SlotTyped(f: Field, vs: seq<Val>) {
    && (f.presence.Repeated? || |vs| <= 1)
    && forall k :: 0 <= k < |vs| ==> ValTyped(f.kind, vs[k])
  }

  ghost predicate ValTyped(kind: Kind, v: Val) {
    match kind
    case U32 => v.N? && v.n < TWO_32
    case U64 => v.N? && v.n < TWO_64
    case Str => v.B? && |v.bytes| < LENGTH_LIMIT
    case Enum(c) => v.N? && v.n < c
    case Sub(t) => v.M? && Typed(t, v.msg)
  }

  lemma DefaultTyped(mt: MsgType)
    ensures Typed(mt, Default(mt))
  {
  }

  // ---------------------------------------------------------------- merging

  /** MergeFrom: the last scalar wins, repeated fields are appended, submessages are merged. */
  function Merge(mt: MsgType, a: Msg, b: Msg): (m: Msg)
    requires Typed(mt, a) && Typed(mt, b)
    ensures Typed(mt, m)
  {
    Msg(seq(|mt.fields|, i requires 0 <= i < |mt.fields| => MergeSlot(mt.fields[i], a.fields[i], b.fields[i])),
        a.unknown + b.unknown)
  }

  function MergeSlot(f: Field, x: seq<Val>, y: seq<Val>): (z: seq<Val>)
    requires SlotTyped(f, x) && SlotTyped(f, y)
    ensures SlotTyped(f, z)
  {
    if f.presence.Repeated? then x + y
    else if y == [] then x
    else if x == [] || !f.kind.Sub? then y
    else
      assert ValTyped(f.kind, x[0]) && ValTyped(f.kind, y[0]);
      [M(Merge(f.kind.mt, x[0].msg, y[0].msg))]
  }

  lemma {:induction false} MergeAssociative(mt: MsgType, a: Msg, b: Msg, c: Msg)
    requires Typed(mt, a) && Typed(mt, b) && Typed(mt, c)
    ensures Merge(mt, Merge(mt, a, b), c) == Merge(mt, a, Merge(mt, b, c))
  {
    forall i | 0 <= i < |mt.fields|
      ensures MergeSlot(mt.fields[i], MergeSlot(mt.fields[i], a.fields[i], b.fields[i]), c.fields[i])
           == MergeSlot(mt.fields[i], a.fields[i], MergeSlot(mt.fields[i], b.fields[i], c.fields[i]))
    {
      var f, x, y, z := mt.fields[i], a.fields[i], b.fields[i], c.fields[i];
      assert SlotTyped(f, x) && SlotTyped(f, y) && SlotTyped(f, z);
      if !f.presence.Repeated? && f.kind.Sub? && x != [] && y != [] && z != [] {
        assert ValTyped(f.kind, x[0]) && ValTyped(f.kind, y[0]) && ValTyped(f.kind, z[0]);
        MergeAssociative(f.kind.mt, x[0].msg, y[0].msg, z[0].msg);
      }
    }
    var l, r := Merge(mt, Merge(mt, a, b), c), Merge(mt, a, Merge(mt, b, c));
    assert l.fields == r.fields;
  }

  lemma MergeIdentity(mt: MsgType, m: Msg)
    requires Typed(mt, m)
    ensures Typed(mt, Default(mt))
    ensures Merge(mt, Default(mt), m) == m == Merge(mt, m, Default(mt))
  {
    forall i | 0 <= i < |mt.fields|
      ensures MergeSlot(mt.fields[i], [], m.fields[i]) == m.fields[i] == MergeSlot(mt.fields[i], m.fields[i], [])
    {
      assert SlotTyped(mt.fields[i], m.fields[i]);
    }
    assert Merge(mt, Default(mt), m).fields == m.fields;
    assert Merge(mt, m, Default(mt)).fields == m.fields;
  }

  /** IsInitialized: every required field is present, here and in every submessage. */
  predicate Initialized(mt: MsgType, m: Msg)
    requires Typed(mt, m)
  {
    forall i :: 0 <= i < |mt.fields| ==>
      assert SlotTyped(mt.fields[i], m.fields[i]); SlotInitialized(mt.fields[i], m.fields[i])
  }

  predicate SlotInitialized(f: Field, x: seq<Val>)
    requires SlotTyped(f, x)
  {
    && (f.presence.Required? ==> x != [])
    && (f.kind.Sub? ==> forall k :: 0 <= k < |x| ==>
          assert ValTyped(f.kind, x[k]); Initialized(f.kind.mt, x[k].msg))
  }

  /** Merging completes: what both sides have filled in stays filled in. */
  lemma {:induction false} MergeInitialized(mt: MsgType, a: Msg, b: Msg)
    requires Typed(mt, a) && Typed(mt, b) && Initialized(mt, a) && Initialized(mt, b)
    ensures Initialized(mt, Merge(mt, a, b))
  {
    var m := Merge(mt, a, b);
    forall i | 0 <= i < |mt.fields|
      ensures SlotTyped(mt.fields[i], m.fields[i]) && SlotInitialized(mt.fields[i], m.fields[i])
    {
      var f, x, y := mt.fields[i], a.fields[i], b.fields[i];
      assert SlotTyped(f, x) && SlotTyped(f, y) && SlotInitialized(f, x) && SlotInitialized(f, y);
      assert m.fields[i] == MergeSlot(f, x, y);
      if !f.presence.Repeated? && f.kind.Sub? && x != [] && y != [] {
        assert ValTyped(f.kind, x[0]) && ValTyped(f.kind, y[0]);
        MergeInitialized(f.kind.mt, x[0].msg, y[0].msg);
      }
    }
  }

  // ---------------------------------------------------------------- one field at a time

  function Put(mt: MsgType, m: Msg, i: nat, vs: seq<Val>): (z: Msg)
    requires Typed(mt, m) && i < |mt.fields| && SlotTyped(mt.fields[i], vs)
    ensures Typed(mt, z)
  {
    m.(fields := m.fields[i := vs])
  }

  function Keep(m: Msg, u: Unknown): Msg {
    m.(unknown := m.unknown + [u])
  }

  /** What `x` becomes when the value `v` arrives for its field. */
  function Receive(f: Field, x: seq<Val>, v: Val): (z: seq<Val>)
    requires SlotTyped(f, x) && ValTyped(f.kind, v)
    ensures SlotTyped(f, z)
  {
    if f.presence.Repeated? then x + [v] else [v]
  }
}
