/**
 What a message object holds: presence bits next to the members of the class. A member
 keeps its content whether or not its bit is set, and a submessage is again an object with
 bits and members of its own; what a caller can see is the message `Value` that the bits
 select. Clear and MergeFrom visit the members in chunks of eight and skip a chunk when the
 presence word shows no bit under the chunk's mask.
 */
module MessageState {
  import opened Wire
  import opened Messages

  /** What a member holds: a number or a string, or an object. */
  datatype Held = Plain(v: Val) | Nested(st: State)

  /** `has` is the presence word: bit i belongs to field i + 1. A singular submessage member is
      [] for a null pointer; every other singular member holds exactly one value. */
  datatype State = State(has: set<nat>, slots: seq<seq<Held>>, unknown: seq<Unknown>)

  function DefaultSlot(f: Field): (x: seq<Held>) {
    if f.presence.Repeated? || f.kind.Sub? then []
    else if f.kind.Str? then [Plain(B([]))]
    else [Plain(N(0))]
  }

  function Initial(mt: MsgType): State {
    State({}, seq(|mt.fields|, i requires 0 <= i < |mt.fields| => DefaultSlot(mt.fields[i])), [])
  }

  /** The presence invariant, at every depth: a clear bit means a default member, a set submessage
      bit means an allocated submessage. */
  ghost predicate Valid(mt: MsgType, st: State)
    decreases mt, 0
  {
    && |st.slots| == |mt.fields|
    && (forall i :: i in st.has ==> i < |mt.fields| && !mt.fields[i].presence.Repeated?)
    && (forall i :: 0 <= i < |mt.fields| ==> SlotOK(mt.fields[i], i in st.has, st.slots[i]))
  }

  ghost predicate SlotOK(f: Field, bit: bool, x: seq<Held>)
    decreases f, 1
  {
    && AllHeld(f.kind, x)
    && (!f.presence.Repeated? ==>
          && |x| <= 1 && (f.kind.Sub? || |x| == 1)
          && if bit then x != [] else IsDefault(f, x))
  }

  ghost predicate AllHeld(kind: Kind, x: seq<Held>)
    decreases kind, 2
  {
    forall k :: 0 <= k < |x| ==> HeldOK(kind, x[k])
  }

  ghost predicate HeldOK(kind: Kind, h: Held)
    decreases kind, 1
  {
    if kind.Sub? then h.Nested? && Valid(kind.mt, h.st) else h.Plain? && ValTyped(kind, h.v)
  }

  /** An unset submessage is null or was emptied in place. */
  ghost predicate IsDefault(f: Field, x: seq<Held>) {
    x == DefaultSlot(f) || (f.kind.Sub? && |x| == 1 && x[0].Nested? && Blank(f.kind.mt, x[0].st))
  }

  /** No bits, no elements and no unknown fields. */
  ghost predicate Blank(mt: MsgType, st: State) {
    && st.has == {} && st.unknown == [] && |st.slots| == |mt.fields|
    && forall i :: 0 <= i < |mt.fields| && mt.fields[i].presence.Repeated? ==> st.slots[i] == []
  }

  /** The message a caller sees. */
  function Value(mt: MsgType, st: State): (m: Msg)
    requires Valid(mt, st)
    ensures Typed(mt, m)
    decreases mt, 0
  {
    Msg(seq(|mt.fields|, i requires 0 <= i < |mt.fields| => Visible(mt.fields[i], i in st.has, st.slots[i])),
        st.unknown)
  }

  function Visible(f: Field, bit: bool, x: seq<Held>): (vs: seq<Val>)
    requires SlotOK(f, bit, x)
    ensures SlotTyped(f, vs)
    decreases f, 1
  {
    if f.presence.Repeated? || bit then Vals(f.kind, x) else []
  }

  function Vals(kind: Kind, x: seq<Held>): (vs: seq<Val>)
    requires AllHeld(kind, x)
    ensures |vs| == |x| && forall k :: 0 <= k < |x| ==> ValTyped(kind, vs[k]) && vs[k] == ValOf(kind, x[k])
    decreases kind, 2
  {
    seq(|x|, k requires 0 <= k < |x| => ValOf(kind, x[k]))
  }

  function ValOf(kind: Kind, h: Held): (v: Val)
    requires HeldOK(kind, h)
    ensures ValTyped(kind, v)
    decreases kind, 1
  {
    if kind.Sub? then M(Value(kind.mt, h.st)) else h.v
  }

  lemma ValueAt(mt: MsgType, st: State, i: nat)
    requires Valid(mt, st) && i < |mt.fields|
    ensures SlotOK(mt.fields[i], i in st.has, st.slots[i])
    ensures Value(mt, st).fields[i] == Visible(mt.fields[i], i in st.has, st.slots[i])
  {
  }

  /** A blank object and only that shows the empty message. */
  lemma BlankIff(mt: MsgType, st: State)
    requires Valid(mt, st)
    ensures Blank(mt, st) <==> Value(mt, st) == Default(mt)
  {
    forall i | 0 <= i < |mt.fields|
      ensures Value(mt, st).fields[i] == [] <==>
        if mt.fields[i].presence.Repeated? then st.slots[i] == [] else i !in st.has
    {
      ValueAt(mt, st, i);
    }
    if Blank(mt, st) {
      assert Value(mt, st).fields == Default(mt).fields;
    }
    if Value(mt, st) == Default(mt) {
      assert forall i :: 0 <= i < |mt.fields| ==> Value(mt, st).fields[i] == [];
    }
  }

  lemma InitialIsBlank(mt: MsgType)
    requires TypeOK(mt)
    ensures Valid(mt, Initial(mt)) && Blank(mt, Initial(mt)) && Value(mt, Initial(mt)) == Default(mt)
  {
    forall i | 0 <= i < |mt.fields| ensures SlotOK(mt.fields[i], false, DefaultSlot(mt.fields[i])) {
      DefaultSlotOK(mt.fields[i]);
    }
    BlankIff(mt, Initial(mt));
  }

  lemma DefaultSlotOK(f: Field)
    requires FieldOK(f)
    ensures SlotOK(f, false, DefaultSlot(f))
  {
  }

  /** What an accessor returns for a number or string that is absent: 0, or no bytes. */
  lemma AbsentIsZero(mt: MsgType, st: State, i: nat)
    requires Valid(mt, st) && i < |mt.fields| && i !in st.has
    requires !mt.fields[i].presence.Repeated? && !mt.fields[i].kind.Sub?
    ensures st.slots[i] == if mt.fields[i].kind.Str? then [Plain(B([]))] else [Plain(N(0))]
  {
    ValueAt(mt, st, i);
  }

  // ---------------------------------------------------------------- chunk masks

  /** The first singular field of the block of eight that field i is in: where the mask starts. */
  function MaskStart(mt: MsgType, i: nat): (k: nat)
    requires i < |mt.fields| && !mt.fields[i].presence.Repeated?
    ensures i / 8 * 8 <= k <= i
  {
    FirstSingular(mt, i / 8 * 8, i)
  }

  function FirstSingular(mt: MsgType, k: nat, i: nat): (j: nat)
    requires k <= i < |mt.fields| && !mt.fields[i].presence.Repeated?
    ensures k <= j <= i
    decreases i - k
  {
    if mt.fields[k].presence.Repeated? then FirstSingular(mt, k + 1, i) else k
  }

  /** `_has_bits_ & (0xffu << start)` for the chunk of field i. */
  predicate ChunkVisited(mt: MsgType, has: set<nat>, i: nat)
    requires i < |mt.fields| && !mt.fields[i].presence.Repeated?
  {
    exists j :: MaskStart(mt, i) <= j < MaskStart(mt, i) + 8 && j in has
  }

  lemma SetBitIsVisited(mt: MsgType, has: set<nat>, i: nat)
    requires i < |mt.fields| && !mt.fields[i].presence.Repeated? && i in has
    ensures ChunkVisited(mt, has, i)
  {
    assert MaskStart(mt, i) <= i < MaskStart(mt, i) + 8;
  }

  // ---------------------------------------------------------------- Clear

  /** What Clear leaves: numbers of a visited chunk are reset, strings and submessages only when
      their own bit is set, a submessage by its own Clear, repeated fields always. */
  function Cleared(mt: MsgType, st: State): (c: State)
    requires Valid(mt, st)
    ensures |c.slots| == |mt.fields|
    decreases mt, 0
  {
    State({}, seq(|mt.fields|, i requires 0 <= i < |mt.fields| => ClearedSlot(mt, st, i)), [])
  }

  function ClearedSlot(mt: MsgType, st: State, i: nat): seq<Held>
    requires Valid(mt, st) && i < |mt.fields|
    decreases mt.fields[i], 1
  {
    var f, x := mt.fields[i], st.slots[i];
    assert SlotOK(f, i in st.has, x);
    if f.presence.Repeated? then []
    else if !ChunkVisited(mt, st.has, i) then x
    else if f.kind.Sub? then if i in st.has then ClearedSub(f, x) else x
    else if f.kind.Str? then if i in st.has then [Plain(B([]))] else x
    else [Plain(N(0))]
  }

  /** `if (x_ != NULL) x_->Clear()` */
  function ClearedSub(f: Field, x: seq<Held>): seq<Held>
    requires f.kind.Sub? && AllHeld(f.kind, x)
    decreases f, 0
  {
    if x == [] then [] else assert HeldOK(f.kind, x[0]); [Nested(Cleared(f.kind.mt, x[0].st))]
  }

  /** The skipped chunks and members lose nothing: Clear empties the message, here and in every
      submessage, and leaves the presence invariant. */
  lemma {:induction false} ClearEmpties(mt: MsgType, st: State)
    requires TypeOK(mt) && Valid(mt, st)
    ensures Valid(mt, Cleared(mt, st)) && Blank(mt, Cleared(mt, st))
    ensures Value(mt, Cleared(mt, st)) == Default(mt)
    decreases mt, 1
  {
    forall i | 0 <= i < |mt.fields| ensures SlotOK(mt.fields[i], false, ClearedSlot(mt, st, i)) {
      ClearedSlotOK(mt, st, i);
    }
    assert Valid(mt, Cleared(mt, st));
    BlankIff(mt, Cleared(mt, st));
  }

  lemma {:induction false} ClearedSlotOK(mt: MsgType, st: State, i: nat)
    requires TypeOK(mt) && Valid(mt, st) && i < |mt.fields|
    ensures SlotOK(mt.fields[i], false, ClearedSlot(mt, st, i))
    decreases mt.fields[i], 1
  {
    var f, x := mt.fields[i], st.slots[i];
    assert SlotOK(f, i in st.has, x) && FieldOK(f);
    DefaultSlotOK(f);
    if !f.presence.Repeated? && i in st.has {
      SetBitIsVisited(mt, st.has, i);
      if f.kind.Sub? {
        ClearedSubOK(f, x);
      }
    }
  }

  lemma {:induction false} ClearedSubOK(f: Field, x: seq<Held>)
    requires FieldOK(f) && f.kind.Sub? && !f.presence.Repeated? && |x| <= 1 && AllHeld(f.kind, x)
    ensures SlotOK(f, false, ClearedSub(f, x))
    decreases f, 0
  {
    if x != [] {
      assert HeldOK(f.kind, x[0]);
      ClearEmpties(f.kind.mt, x[0].st);
    }
  }

  // ---------------------------------------------------------------- MergeFrom

  function Merged(mt: MsgType, a: State, b: State): (c: State)
    requires TypeOK(mt) && Valid(mt, a) && Valid(mt, b)
    ensures |c.slots| == |mt.fields|
    decreases mt, 0
  {
    State(a.has + b.has, seq(|mt.fields|, i requires 0 <= i < |mt.fields| => MergedSlot(mt, a, b, i)),
          a.unknown + b.unknown)
  }

  function MergedSlot(mt: MsgType, a: State, b: State, i: nat): seq<Held>
    requires TypeOK(mt) && Valid(mt, a) && Valid(mt, b) && i < |mt.fields|
    decreases mt.fields[i], 2
  {
    var f, x, y := mt.fields[i], a.slots[i], b.slots[i];
    assert FieldOK(f) && SlotOK(f, i in a.has, x) && SlotOK(f, i in b.has, y);
    if f.presence.Repeated? then x + Copies(f, y)
    else if !ChunkVisited(mt, b.has, i) || i !in b.has then x
    else if f.kind.Sub? then [Nested(MergedSub(f, Allocated(f, x), Allocated(f, y)))]
    else y
  }

  /** RepeatedPtrField::MergeFrom: every element is merged into a new object. */
  function Copies(f: Field, y: seq<Held>): (z: seq<Held>)
    requires FieldOK(f) && AllHeld(f.kind, y)
    ensures |z| == |y|
    decreases f, 1
  {
    seq(|y|, k requires 0 <= k < |y| =>
      assert HeldOK(f.kind, y[k]);
      if f.kind.Sub? then Nested(MergedSub(f, Allocated(f, []), y[k].st)) else y[k])
  }

  function MergedSub(f: Field, a: State, b: State): State
    requires FieldOK(f) && f.kind.Sub? && Valid(f.kind.mt, a) && Valid(f.kind.mt, b)
    decreases f, 0
  {
    Merged(f.kind.mt, a, b)
  }

  /** mutable_x(): a null submessage is allocated. The const accessor reads a null one as empty. */
  function Allocated(f: Field, x: seq<Held>): (st: State)
    requires FieldOK(f) && f.kind.Sub? && AllHeld(f.kind, x)
    ensures Valid(f.kind.mt, st)
  {
    InitialIsBlank(f.kind.mt);
    if x == [] then Initial(f.kind.mt) else assert HeldOK(f.kind, x[0]); x[0].st
  }

  /** Merging objects, skipped chunks included, is merging the messages a caller sees, at every depth. */
  lemma {:induction false} MergeStatesIsMerge(mt: MsgType, a: State, b: State)
    requires TypeOK(mt) && Valid(mt, a) && Valid(mt, b)
    ensures Valid(mt, Merged(mt, a, b))
    ensures Value(mt, Merged(mt, a, b)) == Merge(mt, Value(mt, a), Value(mt, b))
    decreases mt, 1
  {
    var c := Merged(mt, a, b);
    forall i | 0 <= i < |mt.fields| ensures SlotOK(mt.fields[i], i in c.has, c.slots[i]) {
      MergedSlotShows(mt, a, b, i);
    }
    assert Valid(mt, c);
    var m := Merge(mt, Value(mt, a), Value(mt, b));
    forall i | 0 <= i < |mt.fields| ensures Value(mt, c).fields[i] == m.fields[i] {
      MergedSlotShows(mt, a, b, i);
    }
    assert Value(mt, c).fields == m.fields;
  }

  lemma {:induction false} MergedSlotShows(mt: MsgType, a: State, b: State, i: nat)
    requires TypeOK(mt) && Valid(mt, a) && Valid(mt, b) && i < |mt.fields|
    ensures var f, z := mt.fields[i], MergedSlot(mt, a, b, i);
      && SlotOK(f, i in a.has + b.has, z)
      && Visible(f, i in a.has + b.has, z) == MergeSlot(f, Value(mt, a).fields[i], Value(mt, b).fields[i])
    decreases mt.fields[i], 3
  {
    var f, x, y := mt.fields[i], a.slots[i], b.slots[i];
    assert FieldOK(f);
    ValueAt(mt, a, i);
    ValueAt(mt, b, i);
    if f.presence.Repeated? {
      AppendedShows(f, x, y);
    } else if i in b.has {
      SetBitIsVisited(mt, b.has, i);
      if f.kind.Sub? {
        MergedMemberShows(f, i in a.has, x, y);
      }
    }
  }

  lemma {:induction false} MergedMemberShows(f: Field, bit: bool, x: seq<Held>, y: seq<Held>)
    requires FieldOK(f) && f.kind.Sub? && !f.presence.Repeated?
    requires SlotOK(f, bit, x) && SlotOK(f, true, y)
    ensures var z := [Nested(MergedSub(f, Allocated(f, x), Allocated(f, y)))];
      && SlotOK(f, true, z)
      && Visible(f, true, z) == MergeSlot(f, Visible(f, bit, x), Visible(f, true, y))
    decreases f, 1
  {
    MergedSubShows(f, x, y);
    var z := [Nested(MergedSub(f, Allocated(f, x), Allocated(f, y)))];
    assert HeldOK(f.kind, z[0]);
  }

  lemma {:induction false} AppendedShows(f: Field, x: seq<Held>, y: seq<Held>)
    requires FieldOK(f) && AllHeld(f.kind, x) && AllHeld(f.kind, y)
    ensures AllHeld(f.kind, x + Copies(f, y)) && Vals(f.kind, x + Copies(f, y)) == Vals(f.kind, x) + Vals(f.kind, y)
    decreases f, 2
  {
    CopiesShow(f, y);
    ValsConcat(f.kind, x, Copies(f, y));
  }

  lemma {:induction false} CopiesShow(f: Field, y: seq<Held>)
    requires FieldOK(f) && AllHeld(f.kind, y)
    ensures AllHeld(f.kind, Copies(f, y)) && Vals(f.kind, Copies(f, y)) == Vals(f.kind, y)
    decreases f, 1
  {
    forall k | 0 <= k < |y| ensures HeldOK(f.kind, Copies(f, y)[k]) && ValOf(f.kind, Copies(f, y)[k]) == ValOf(f.kind, y[k]) {
      assert HeldOK(f.kind, y[k]);
      if f.kind.Sub? {
        MergeStatesIsMerge(f.kind.mt, Allocated(f, []), y[k].st);
        InitialIsBlank(f.kind.mt);
        MergeIdentity(f.kind.mt, Value(f.kind.mt, y[k].st));
      }
    }
  }

  lemma ValsConcat(kind: Kind, x: seq<Held>, y: seq<Held>)
    requires AllHeld(kind, x) && AllHeld(kind, y)
    ensures AllHeld(kind, x + y) && Vals(kind, x + y) == Vals(kind, x) + Vals(kind, y)
  {
  }

  /** What merging into the allocated submessage shows; a null one counts as empty. */
  lemma {:induction false} MergedSubShows(f: Field, x: seq<Held>, y: seq<Held>)
    requires FieldOK(f) && f.kind.Sub? && AllHeld(f.kind, x) && AllHeld(f.kind, y) && y != []
    ensures var a, b := Allocated(f, x), Allocated(f, y);
      var c := MergedSub(f, a, b);
      && Valid(f.kind.mt, c)
      && Value(f.kind.mt, c) == Merge(f.kind.mt, Value(f.kind.mt, a), Value(f.kind.mt, b))
      && (Blank(f.kind.mt, a) ==> Value(f.kind.mt, c) == Value(f.kind.mt, b))
      && (x == [] ==> Blank(f.kind.mt, a))
    decreases f, 0
  {
    var a, b := Allocated(f, x), Allocated(f, y);
    MergeStatesIsMerge(f.kind.mt, a, b);
    InitialIsBlank(f.kind.mt);
    BlankIff(f.kind.mt, a);
    MergeIdentity(f.kind.mt, Value(f.kind.mt, b));
  }

  // ---------------------------------------------------------------- single members

  lemma OneHeld(f: Field, h: Held)
    requires !f.presence.Repeated? && HeldOK(f.kind, h)
    ensures SlotOK(f, true, [h]) && Vals(f.kind, [h]) == [ValOf(f.kind, h)]
  {
  }

  lemma HeldReplaced(kind: Kind, x: seq<Held>, k: nat, h: Held)
    requires AllHeld(kind, x) && k < |x| && HeldOK(kind, h)
    ensures AllHeld(kind, x[k := h]) && Vals(kind, x[k := h]) == Vals(kind, x)[k := ValOf(kind, h)]
  {
  }

  /** A null submessage, or one that is there but not present, is allocated as an empty one. */
  lemma AllocatedShows(f: Field, bit: bool, x: seq<Held>)
    requires FieldOK(f) && f.kind.Sub? && !f.presence.Repeated? && SlotOK(f, bit, x)
    ensures Value(f.kind.mt, Allocated(f, x))
         == if Visible(f, bit, x) == [] then Default(f.kind.mt) else Visible(f, bit, x)[0].msg
  {
    InitialIsBlank(f.kind.mt);
    if x != [] {
      assert HeldOK(f.kind, x[0]);
      BlankIff(f.kind.mt, x[0].st);
    }
  }

  /** What clear_x leaves in a member. */
  function FieldCleared(f: Field, x: seq<Held>): seq<Held>
    requires FieldOK(f) && AllHeld(f.kind, x)
  {
    if f.kind.Sub? && !f.presence.Repeated? then ClearedSub(f, x) else DefaultSlot(f)
  }

  lemma FieldClearedOK(f: Field, bit: bool, x: seq<Held>)
    requires FieldOK(f) && SlotOK(f, bit, x)
    ensures SlotOK(f, false, FieldCleared(f, x)) && (f.presence.Repeated? ==> FieldCleared(f, x) == [])
  {
    DefaultSlotOK(f);
    if f.kind.Sub? && !f.presence.Repeated? {
      ClearedSubOK(f, x);
    }
  }

  /** A member is stored and its bit set. */
  function Stored(mt: MsgType, st: State, i: nat, x: seq<Held>): State
    requires i < |mt.fields| == |st.slots|
  {
    st.(slots := st.slots[i := x], has := if mt.fields[i].presence.Repeated? then st.has else st.has + {i})
  }

  /** A member is reset and its bit cleared. */
  function Unset(mt: MsgType, st: State, i: nat, x: seq<Held>): State
    requires i < |mt.fields| == |st.slots|
  {
    st.(slots := st.slots[i := x], has := st.has - {i})
  }

  lemma StoredIsPut(mt: MsgType, st: State, i: nat, x: seq<Held>)
    requires Valid(mt, st) && i < |mt.fields| && SlotOK(mt.fields[i], true, x)
    ensures Valid(mt, Stored(mt, st, i, x))
    ensures SlotTyped(mt.fields[i], Vals(mt.fields[i].kind, x))
    ensures Value(mt, Stored(mt, st, i, x)) == Put(mt, Value(mt, st), i, Vals(mt.fields[i].kind, x))
  {
    var c := Stored(mt, st, i, x);
    forall k | 0 <= k < |mt.fields| ensures SlotOK(mt.fields[k], k in c.has, c.slots[k]) {
      ValueAt(mt, st, k);
    }
    assert Valid(mt, c);
    assert Value(mt, c).fields == Put(mt, Value(mt, st), i, Vals(mt.fields[i].kind, x)).fields;
  }

  lemma UnsetIsAbsent(mt: MsgType, st: State, i: nat, x: seq<Held>)
    requires Valid(mt, st) && i < |mt.fields| && SlotOK(mt.fields[i], false, x)
    requires mt.fields[i].presence.Repeated? ==> x == []
    ensures Valid(mt, Unset(mt, st, i, x))
    ensures Value(mt, Unset(mt, st, i, x)) == Put(mt, Value(mt, st), i, [])
  {
    var c := Unset(mt, st, i, x);
    forall k | 0 <= k < |mt.fields| ensures SlotOK(mt.fields[k], k in c.has, c.slots[k]) {
      ValueAt(mt, st, k);
    }
    assert Valid(mt, c);
    assert Value(mt, c).fields == Put(mt, Value(mt, st), i, []).fields;
  }

  // ---------------------------------------------------------------- IsInitialized

  /** IsInitialized: the bits of the required fields, then every visible submessage. */
  predicate IsInitialized(mt: MsgType, st: State)
    requires Valid(mt, st)
    decreases mt, 0
  {
    forall i :: 0 <= i < |mt.fields| ==>
      assert SlotOK(mt.fields[i], i in st.has, st.slots[i]); SlotIsInitialized(mt.fields[i], i in st.has, st.slots[i])
  }

  predicate SlotIsInitialized(f: Field, bit: bool, x: seq<Held>)
    requires SlotOK(f, bit, x)
    decreases f, 0
  {
    && (f.presence.Required? ==> bit)
    && (f.kind.Sub? && (f.presence.Repeated? || bit) ==>
          assert AllHeld(f.kind, x); AllInitialized(f.kind, x))
  }

  predicate AllInitialized(kind: Kind, x: seq<Held>)
    requires kind.Sub? && AllHeld(kind, x)
    decreases kind, 0
  {
    forall k :: 0 <= k < |x| ==> assert HeldOK(kind, x[k]); IsInitialized(kind.mt, x[k].st)
  }

  lemma {:induction false} IsInitializedIff(mt: MsgType, st: State)
    requires Valid(mt, st)
    ensures IsInitialized(mt, st) <==> Initialized(mt, Value(mt, st))
    decreases mt, 0
  {
    forall i | 0 <= i < |mt.fields|
      ensures SlotOK(mt.fields[i], i in st.has, st.slots[i])
      ensures SlotIsInitialized(mt.fields[i], i in st.has, st.slots[i])
         <==> SlotInitialized(mt.fields[i], Value(mt, st).fields[i])
    {
      ValueAt(mt, st, i);
      SlotIsInitializedIff(mt.fields[i], i in st.has, st.slots[i]);
    }
    var m := Value(mt, st);
    assert Initialized(mt, m) <==>
      forall i :: 0 <= i < |mt.fields| ==> SlotTyped(mt.fields[i], m.fields[i]) && SlotInitialized(mt.fields[i], m.fields[i]);
  }

  lemma {:induction false} SlotIsInitializedIff(f: Field, bit: bool, x: seq<Held>)
    requires SlotOK(f, bit, x)
    ensures SlotIsInitialized(f, bit, x) <==> SlotInitialized(f, Visible(f, bit, x))
    decreases f, 0
  {
    if f.kind.Sub? && (f.presence.Repeated? || bit) {
      var vs := Vals(f.kind, x);
      forall k | 0 <= k < |x|
        ensures HeldOK(f.kind, x[k]) && ValTyped(f.kind, vs[k])
        ensures IsInitialized(f.kind.mt, x[k].st) <==> Initialized(f.kind.mt, vs[k].msg)
      {
        assert HeldOK(f.kind, x[k]);
        IsInitializedIff(f.kind.mt, x[k].st);
      }
    }
  }
}
