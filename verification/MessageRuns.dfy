/**
 Whole runs of an object and of the submessages in it. `Effect` says what each operation does
 to the message a caller sees, with no presence bits, stale members or chunk masks at any depth;
 an object that goes through any run of operations always shows exactly that.
 */
module MessageRuns {
  import opened Bytes
  import opened Wire
  import opened Messages
  import opened MessageParse
  import opened MessageSerialize
  import opened MessageState
  import opened MessageObject

  datatype Op =
    | SetValue(i: nat, v: Val)
    | TouchStr(i: nat)                          // mutable_x() of a string
    | AddValue(i: nat, v: Val)
    | EditSub(i: nat, ops: seq<Op>)             // mutable_x() of a submessage, and a run of that object
    | AddElement(i: nat, ops: seq<Op>)          // add_x(), and a run of that object
    | EditElement(i: nat, k: nat, ops: seq<Op>) // mutable_x(k) if there is such an element, and a run
    | ClearOne(i: nat)
    | ReleaseOne(i: nat)
    | ClearAll
    | MergeWith(ops: seq<Op>)                   // with a new object after a run of its own
    | CopyOf(ops: seq<Op>)
    | SwapWith(ops: seq<Op>)
    | ParseMore(s: Bytes)                       // MergePartialFromCodedStream, accepted or not
    | ParseAfresh(s: Bytes)                     // ParseFromArray, accepted or not

  /** What the signature of each operation allows. */
  ghost predicate Allowed(mt: MsgType, op: Op)
    decreases op, 1
  {
    match op
    case SetValue(i, v) => Singular(mt, i) && !mt.fields[i].kind.Sub? && ValTyped(mt.fields[i].kind, v)
    case TouchStr(i) => Singular(mt, i) && mt.fields[i].kind.Str?
    case AddValue(i, v) => RepeatedOf(mt, i, false) && ValTyped(mt.fields[i].kind, v)
    case EditSub(i, ops) => Singular(mt, i) && mt.fields[i].kind.Sub? && AllAllowed(mt.fields[i].kind.mt, ops)
    case AddElement(i, ops) => RepeatedOf(mt, i, true) && AllAllowed(mt.fields[i].kind.mt, ops)
    case EditElement(i, _, ops) => RepeatedOf(mt, i, true) && AllAllowed(mt.fields[i].kind.mt, ops)
    case ClearOne(i) => i < |mt.fields|
    case ReleaseOne(i) => Singular(mt, i) && (mt.fields[i].kind.Sub? || mt.fields[i].kind.Str?)
    case ClearAll => true
    case MergeWith(ops) => AllAllowed(mt, ops)
    case CopyOf(ops) => AllAllowed(mt, ops)
    case SwapWith(ops) => AllAllowed(mt, ops)
    case ParseMore(_) => true
    case ParseAfresh(_) => true
  }

  ghost predicate AllAllowed(mt: MsgType, ops: seq<Op>)
    decreases ops, 0
  {
    forall k :: 0 <= k < |ops| ==> Allowed(mt, ops[k])
  }

  predicate Singular(mt: MsgType, i: nat) {
    i < |mt.fields| && !mt.fields[i].presence.Repeated?
  }

  predicate RepeatedOf(mt: MsgType, i: nat, sub: bool) {
    i < |mt.fields| && mt.fields[i].presence.Repeated? && mt.fields[i].kind.Sub? == sub
  }

  ghost function Effect(mt: MsgType, m: Msg, op: Op): (r: Msg)
    requires Typed(mt, m) && Allowed(mt, op)
    ensures Typed(mt, r)
    decreases op, 1
  {
    DefaultTyped(mt);
    match op
    case SetValue(i, v) => Put(mt, m, i, [v])
    case TouchStr(i) => if m.fields[i] == [] then Put(mt, m, i, [B([])]) else m
    case AddValue(i, v) =>
      assert SlotTyped(mt.fields[i], m.fields[i]);
      Put(mt, m, i, m.fields[i] + [v])
    case EditSub(i, ops) =>
      assert SlotTyped(mt.fields[i], m.fields[i]);
      Put(mt, m, i, [M(Effects(mt.fields[i].kind.mt, Existing(mt.fields[i], m.fields[i]), ops))])
    case AddElement(i, ops) =>
      assert SlotTyped(mt.fields[i], m.fields[i]);
      DefaultTyped(mt.fields[i].kind.mt);
      Put(mt, m, i, m.fields[i] + [M(Effects(mt.fields[i].kind.mt, Default(mt.fields[i].kind.mt), ops))])
    case EditElement(i, k, ops) =>
      assert SlotTyped(mt.fields[i], m.fields[i]);
      if |m.fields[i]| <= k then m
      else
        assert ValTyped(mt.fields[i].kind, m.fields[i][k]);
        Put(mt, m, i, m.fields[i][k := M(Effects(mt.fields[i].kind.mt, m.fields[i][k].msg, ops))])
    case ClearOne(i) => Put(mt, m, i, [])
    case ReleaseOne(i) => Put(mt, m, i, [])
    case ClearAll => Default(mt)
    case MergeWith(ops) => Merge(mt, m, Effects(mt, Default(mt), ops))
    case CopyOf(ops) => Effects(mt, Default(mt), ops)
    case SwapWith(ops) => Effects(mt, Default(mt), ops)
    case ParseMore(s) => ParseInto(mt, m, s).msg
    case ParseAfresh(s) => Parse(mt, s).msg
  }

  ghost function Effects(mt: MsgType, m: Msg, ops: seq<Op>): (r: Msg)
    requires Typed(mt, m) && AllAllowed(mt, ops)
    ensures Typed(mt, r)
    decreases ops, 0
  {
    if ops == [] then m
    else Effect(mt, Effects(mt, m, ops[..|ops| - 1]), ops[|ops| - 1])
  }

  lemma EffectsNext(mt: MsgType, m: Msg, ops: seq<Op>, k: nat)
    requires Typed(mt, m) && AllAllowed(mt, ops) && k < |ops|
    ensures AllAllowed(mt, ops[..k]) && AllAllowed(mt, ops[..k + 1]) && Allowed(mt, ops[k])
    ensures Effects(mt, m, ops[..k + 1]) == Effect(mt, Effects(mt, m, ops[..k]), ops[k])
  {
    assert ops[..k + 1][..k] == ops[..k];
  }

  /** The presence invariant holds at every depth through every run, and nothing a skipped chunk or
      a stale member hides ever shows. */
  method Run(o: Message, ops: seq<Op>)
    requires o.Ok() && AllAllowed(o.mt, ops)
    modifies o
    ensures o.Ok() && o.Seen() == Effects(o.mt, old(o.Seen()), ops)
    decreases ops, 0
  {
    ghost var was := o.Seen();
    hide Effects, Effect, Valid, Value;
    EffectsNone(o.mt, was, ops);
    for k := 0 to |ops|
      invariant AllAllowed(o.mt, ops[..k]) && o.Ok() && o.Seen() == Effects(o.mt, was, ops[..k])
    {
      EffectsNext(o.mt, was, ops, k);
      Apply(o, ops[k]);
    }
    assert ops[..|ops|] == ops;
  }

  lemma EffectsNone(mt: MsgType, m: Msg, ops: seq<Op>)
    requires Typed(mt, m)
    ensures AllAllowed(mt, ops[..0]) && Effects(mt, m, ops[..0]) == m
  {
  }

  /** A new object after a run. */
  method Other(mt: MsgType, ops: seq<Op>) returns (other: Message)
    requires TypeOK(mt) && AllAllowed(mt, ops)
    ensures fresh(other) && other.Ok() && other.mt == mt
    ensures Typed(mt, Default(mt)) && other.Seen() == Effects(mt, Default(mt), ops)
    decreases ops, 1
  {
    other := new Message(mt);
    DefaultTyped(mt);
    Run(other, ops);
  }

  /** A run of the object a submessage pointer leads to. */
  method RunInside(o: Message, i: nat, k: nat, ops: seq<Op>)
    requires o.Ok() && i < |o.mt.fields| && o.mt.fields[i].kind.Sub? && k < |o.slots[i]|
    requires o.mt.fields[i].presence.Repeated? || i in o.has
    requires AllAllowed(o.mt.fields[i].kind.mt, ops)
    modifies o
    ensures o.Ok() && Inside(o.mt, old(o.Seen()), o.Seen(), i, k, ops)
    decreases ops, 1
  {
    var sub := o.Open(i, k);
    Run(sub, ops);
    o.Close(i, k, sub);
  }

  /** Element k of field i went through the run. */
  ghost predicate Inside(mt: MsgType, was: Msg, m: Msg, i: nat, k: nat, ops: seq<Op>)
    requires Typed(mt, was) && i < |mt.fields| && mt.fields[i].kind.Sub? && AllAllowed(mt.fields[i].kind.mt, ops)
  {
    assert SlotTyped(mt.fields[i], was.fields[i]);
    k < |was.fields[i]| &&
    assert ValTyped(mt.fields[i].kind, was.fields[i][k]);
    m == Put(mt, was, i, was.fields[i][k := M(Effects(mt.fields[i].kind.mt, was.fields[i][k].msg, ops))])
  }

  method Apply(o: Message, op: Op)
    requires o.Ok() && Allowed(o.mt, op)
    modifies o
    ensures o.Ok() && o.Seen() == Effect(o.mt, old(o.Seen()), op)
    decreases op, 1
  {
    match op {
    case SetValue(i, v) => o.Set(i, v);
    case TouchStr(i) => o.MutableStr(i);
    case AddValue(i, v) => o.Add(i, v);
    case EditSub(i, ops) => ApplyEditSub(o, i, ops, op);
    case AddElement(i, ops) => ApplyAddElement(o, i, ops, op);
    case EditElement(i, k, ops) => ApplyEditElement(o, i, k, ops, op);
    case ClearOne(i) => o.ClearField(i);
    case ReleaseOne(i) => var x := o.Release(i);
    case ClearAll => o.Clear();
    case MergeWith(ops) => var other := Other(o.mt, ops); o.MergeFrom(other);
    case CopyOf(ops) => var other := Other(o.mt, ops); o.CopyFrom(other);
    case SwapWith(ops) => var other := Other(o.mt, ops); o.Swap(other);
    case ParseMore(s) => var status := o.MergePartialFromCodedStream(s);
    case ParseAfresh(s) => var ok := o.ParseFrom(s);
    }
  }

  method ApplyEditSub(o: Message, i: nat, ops: seq<Op>, ghost op: Op)
    requires o.Ok() && op == EditSub(i, ops) && Allowed(o.mt, op)
    modifies o
    ensures o.Ok() && o.Seen() == Effect(o.mt, old(o.Seen()), op)
    decreases op, 0
  {
    ghost var was := o.Seen();
    assert SlotTyped(o.mt.fields[i], was.fields[i]);
    o.MutableSub(i);
    ghost var there := Existing(o.mt.fields[i], was.fields[i]);
    assert o.Seen().fields[i] == [M(there)];
    RunInside(o, i, 0, ops);
    assert o.Seen().fields[i] == [M(Effects(o.mt.fields[i].kind.mt, there, ops))];
    assert o.Seen().fields == was.fields[i := o.Seen().fields[i]];
  }

  method ApplyAddElement(o: Message, i: nat, ops: seq<Op>, ghost op: Op)
    requires o.Ok() && op == AddElement(i, ops) && Allowed(o.mt, op)
    modifies o
    ensures o.Ok() && o.Seen() == Effect(o.mt, old(o.Seen()), op)
    decreases op, 0
  {
    ghost var was := o.Seen();
    assert SlotTyped(o.mt.fields[i], was.fields[i]);
    o.AddSub(i);
    RunInside(o, i, |o.slots[i]| - 1, ops);
    assert o.Seen().fields[i] == was.fields[i] + [o.Seen().fields[i][|was.fields[i]|]];
    assert o.Seen().fields == was.fields[i := o.Seen().fields[i]];
  }

  method ApplyEditElement(o: Message, i: nat, k: nat, ops: seq<Op>, ghost op: Op)
    requires o.Ok() && op == EditElement(i, k, ops) && Allowed(o.mt, op)
    modifies o
    ensures o.Ok() && o.Seen() == Effect(o.mt, old(o.Seen()), op)
    decreases op, 0
  {
    ValueAt(o.mt, o.Now(), i);
    if k < |o.slots[i]| {
      RunInside(o, i, k, ops);
    }
  }

  // ---------------------------------------------------------------- every run can be serialized

  lemma {:induction false} MergeWellFormed(mt: MsgType, a: Msg, b: Msg)
    requires WellFormed(mt, a) && WellFormed(mt, b)
    ensures WellFormed(mt, Merge(mt, a, b))
  {
    var m := Merge(mt, a, b);
    forall i | 0 <= i < |mt.fields| ensures SlotWellFormed(mt.fields[i].kind, m.fields[i]) {
      var f, x, y := mt.fields[i], a.fields[i], b.fields[i];
      assert SlotTyped(f, x) && SlotTyped(f, y);
      assert SlotWellFormed(f.kind, x) && SlotWellFormed(f.kind, y);
      assert m.fields[i] == MergeSlot(f, x, y);
      if !f.presence.Repeated? && f.kind.Sub? && x != [] && y != [] {
        MergeWellFormed(f.kind.mt, x[0].msg, y[0].msg);
      }
    }
  }

  lemma {:induction false} EffectWellFormed(mt: MsgType, m: Msg, op: Op)
    requires TypeOK(mt) && WellFormed(mt, m) && Allowed(mt, op)
    ensures WellFormed(mt, Effect(mt, m, op))
    decreases op, 1
  {
    DefaultWellFormed(mt);
    match op
    case EditSub(i, ops) => EditWellFormed(mt, m, op, i, ops);
    case AddElement(i, ops) => EditWellFormed(mt, m, op, i, ops);
    case EditElement(i, _, ops) => EditWellFormed(mt, m, op, i, ops);
    case MergeWith(ops) =>
      EffectsWellFormed(mt, Default(mt), ops);
      MergeWellFormed(mt, m, Effects(mt, Default(mt), ops));
    case CopyOf(ops) => EffectsWellFormed(mt, Default(mt), ops);
    case SwapWith(ops) => EffectsWellFormed(mt, Default(mt), ops);
    case ParseMore(s) => ParseWellFormed(mt, m, s);
    case ParseAfresh(s) => ParseWellFormed(mt, Default(mt), s);
    case _ =>
  }

  lemma {:induction false} EditWellFormed(mt: MsgType, m: Msg, op: Op, i: nat, ops: seq<Op>)
    requires TypeOK(mt) && WellFormed(mt, m) && Allowed(mt, op)
    requires op == EditSub(i, ops) || op == AddElement(i, ops) || (op.EditElement? && op.i == i && op.ops == ops)
    ensures WellFormed(mt, Effect(mt, m, op))
    decreases op, 0
  {
    var f, x := mt.fields[i], m.fields[i];
    assert FieldOK(f) && SlotTyped(f, x) && SlotWellFormed(f.kind, x);
    DefaultWellFormed(f.kind.mt);
    if op.EditSub? {
      ExistingWellFormed(f, x);
      EffectsWellFormed(f.kind.mt, Existing(f, x), ops);
      PutWellFormed(mt, m, i, [M(Effects(f.kind.mt, Existing(f, x), ops))]);
    } else if op.AddElement? {
      EffectsWellFormed(f.kind.mt, Default(f.kind.mt), ops);
      PutWellFormed(mt, m, i, x + [M(Effects(f.kind.mt, Default(f.kind.mt), ops))]);
    } else if op.k < |x| {
      assert ValTyped(f.kind, x[op.k]);
      EffectsWellFormed(f.kind.mt, x[op.k].msg, ops);
      PutWellFormed(mt, m, i, x[op.k := M(Effects(f.kind.mt, x[op.k].msg, ops))]);
    }
  }

  lemma {:induction false} EffectsWellFormed(mt: MsgType, m: Msg, ops: seq<Op>)
    requires TypeOK(mt) && WellFormed(mt, m) && AllAllowed(mt, ops)
    ensures WellFormed(mt, Effects(mt, m, ops))
    decreases ops, 0
  {
    if ops != [] {
      EffectsWellFormed(mt, m, ops[..|ops| - 1]);
      EffectWellFormed(mt, Effects(mt, m, ops[..|ops| - 1]), ops[|ops| - 1]);
    }
  }

  /** After any run from a new object, what is serialized parses back to what the object shows. */
  lemma RunsRoundTrip(mt: MsgType, ops: seq<Op>)
    requires TypeOK(mt) && AllAllowed(mt, ops)
    ensures Typed(mt, Default(mt))
    ensures var m := Effects(mt, Default(mt), ops);
            |Serialize(mt, m)| < LENGTH_LIMIT ==> Parse(mt, Serialize(mt, m)) == Outcome(Done, m)
  {
    DefaultWellFormed(mt);
    EffectsWellFormed(mt, Default(mt), ops);
    var m := Effects(mt, Default(mt), ops);
    if |Serialize(mt, m)| < LENGTH_LIMIT {
      RoundTrip(mt, m);
    }
  }
}
