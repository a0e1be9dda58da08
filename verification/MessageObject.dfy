/**
 A generated message object: presence bits, members, unknown fields and cached sizes, with
 the methods the classes have. A submessage is opened as an object of its own, changed by
 that object's methods and stored back.
 */
module MessageObject {
  import opened Bytes
  import opened Wire
  import opened Messages
  import opened MessageParse
  import opened MessageSerialize
  import opened MessageSize
  import opened MessageWrite
  import opened MessageState
  import MessagePaths

  // ---------------------------------------------------------------- look-ahead

  /** input->ExpectTag(tag): may overlook a tag that is there, never sees one that is not. */
  method ExpectTag(tag: nat, s: Bytes) returns (hit: bool)
    ensures hit ==> s != [] && s[0] == tag
  {
    var seen: bool := *;
    hit := seen && s != [] && s[0] == tag;
  }

  /** input->ExpectAtEnd(): may overlook the end, never sees one that is not there. */
  method ExpectAtEnd(s: Bytes) returns (end: bool)
    ensures end ==> s == []
  {
    var seen: bool := *;
    end := seen && s == [];
  }

  /** What is still to be parsed: `next` is 0 before a ReadTag and k at the label of field k. */
  ghost function Pending(mt: MsgType, m: Msg, next: nat, s: Bytes): Outcome
    requires Typed(mt, m) && next <= |mt.fields|
  {
    if next == 0 then ParseInto(mt, m, s)
    else match ReadField(mt, m, next - 1, s)
      case Fail(m1) => Outcome(Failed, m1)
      case Next(m1, rest) => ParseInto(mt, m1, rest)
  }

  lemma ParseNothing(mt: MsgType, m: Msg)
    requires Typed(mt, m)
    ensures ParseInto(mt, m, []) == Outcome(Done, m)
  {
  }

  /** Jumping to a label on a matching tag byte is reading the tag and switching on it. */
  lemma JumpIsReadTag(mt: MsgType, m: Msg, next: nat, s: Bytes)
    requires TypeOK(mt) && Typed(mt, m) && 1 <= next <= |mt.fields|
    requires s != [] && s[0] == Tag(next, mt.fields[next - 1].kind)
    ensures ParseInto(mt, m, s) == Pending(mt, m, next, s[1..])
  {
    OneByteTag(s);
    KnownTag(mt, m, next, s[1..]);
  }

  lemma OneByteTag(s: Bytes)
    requires s != [] && s[0] < 128
    ensures ReadVarint32(s) == Good(s[0], s[1..])
  {
    ModOfSmaller(s[0], TWO_32);
  }

  lemma KnownTag(mt: MsgType, m: Msg, number: nat, s: Bytes)
    requires TypeOK(mt) && Typed(mt, m) && 1 <= number <= |mt.fields|
    ensures 0 < Tag(number, mt.fields[number - 1].kind) < 128
    ensures ReadTagged(mt, m, Tag(number, mt.fields[number - 1].kind), s) == ReadField(mt, m, number - 1, s)
  {
  }

  /** The look-ahead after field `field`: the tag of the same repeated field, the tag of the field
      declared next, or after the last one the end of the input. */
  method LookAhead(mt: MsgType, ghost m: Msg, field: nat, s: Bytes)
    returns (done: bool, next: nat, rest: Bytes)
    requires TypeOK(mt) && Typed(mt, m) && 1 <= field <= |mt.fields|
    ensures done ==> s == []
    ensures next <= |mt.fields| && |rest| <= |s| && (next > 0 ==> |rest| < |s|)
    ensures Pending(mt, m, next, rest) == ParseInto(mt, m, s)
  {
    done, next, rest := false, 0, s;
    if mt.fields[field - 1].presence.Repeated? {
      var again := ExpectTag(Tag(field, mt.fields[field - 1].kind), s);
      if again { next := field; }
    }
    if next == 0 && field < |mt.fields| {
      var following := ExpectTag(Tag(field + 1, mt.fields[field].kind), s);
      if following { next := field + 1; }
    }
    if next > 0 {
      JumpIsReadTag(mt, m, next, s);
      rest := s[1..];
    } else if field == |mt.fields| {
      done := ExpectAtEnd(s);
    }
  }

  /** `m` is `was` after the submessage `sub` arrived for field i, as its element k. */
  ghost predicate SubPut(mt: MsgType, was: Msg, m: Msg, i: nat, k: nat, sub: Msg)
    requires Typed(mt, was) && i < |mt.fields| && mt.fields[i].kind.Sub? && Typed(mt.fields[i].kind.mt, sub)
  {
    assert SlotTyped(mt.fields[i], was.fields[i]);
    && k == |Receive(mt.fields[i], was.fields[i], M(sub))| - 1
    && m == Put(mt, was, i, Receive(mt.fields[i], was.fields[i], M(sub)))
  }

  /** Changing the submessage that has just arrived is receiving the changed one. */
  lemma ReceivedInPlace(mt: MsgType, was: Msg, m: Msg, i: nat, k: nat, sub: Msg)
    requires Typed(mt, was) && i < |mt.fields| && mt.fields[i].kind.Sub? && Typed(mt.fields[i].kind.mt, sub)
    requires SlotTyped(mt.fields[i], was.fields[i])
    requires SubPut(mt, was, m, i, k, Existing(mt.fields[i], was.fields[i]))
    ensures Typed(mt, m) && k < |m.fields[i]| && SlotTyped(mt.fields[i], m.fields[i][k := M(sub)])
    ensures SubPut(mt, was, Put(mt, m, i, m.fields[i][k := M(sub)]), i, k, sub)
  {
    var f := mt.fields[i];
    assert m.fields[i][k := M(sub)] == Receive(f, was.fields[i], M(sub));
  }

  // ---------------------------------------------------------------- the object

  class Message {
    const mt: MsgType
    var has: set<nat>
    var slots: seq<seq<Held>>
    var unknown: seq<Unknown>
    var cache: Cache

    ghost function Now(): State
      reads this
    {
      State(has, slots, unknown)
    }

    ghost predicate Ok()
      reads this
    {
      TypeOK(mt) && Valid(mt, Now())
    }

    /** The message a caller sees through the accessors. */
    ghost function Seen(): (m: Msg)
      requires Ok()
      reads this
      ensures Typed(mt, m)
    {
      Value(mt, Now())
    }

    constructor (mt: MsgType)
      requires TypeOK(mt)
      ensures Ok() && this.mt == mt && Seen() == Default(mt)
    {
      this.mt := mt;
      has, unknown, cache := {}, [], NoCache;
      slots := Initial(mt).slots;
      InitialIsBlank(mt);
    }

    /** The object a submessage member points to. */
    constructor Opens(mt: MsgType, st: State)
      requires TypeOK(mt) && Valid(mt, st)
      ensures Ok() && this.mt == mt && Now() == st
    {
      this.mt := mt;
      has, slots, unknown, cache := st.has, st.slots, st.unknown, NoCache;
    }

    method Content() returns (st: State)
      requires Ok()
      ensures st == Now()
    {
      st := State(has, slots, unknown);
    }

    method Get() returns (m: Msg)
      requires Ok()
      ensures m == Seen()
    {
      m := Value(mt, State(has, slots, unknown));
    }

    // -------------------------------------------------------------- accessors

    /** Stores a member the way set_x and add_x do. */
    method Store(i: nat, x: seq<Held>)
      requires Ok() && i < |mt.fields| && SlotOK(mt.fields[i], true, x)
      modifies this
      ensures Ok() && Now() == Stored(mt, old(Now()), i, x)
      ensures SlotTyped(mt.fields[i], Vals(mt.fields[i].kind, x))
      ensures Seen() == Put(mt, old(Seen()), i, Vals(mt.fields[i].kind, x))
      ensures cache == old(cache)
    {
      StoredIsPut(mt, Now(), i, x);
      if !mt.fields[i].presence.Repeated? {
        has := has + {i};
      }
      slots := slots[i := x];
    }

    /** set_x: numbers, enums and strings. */
    method Set(i: nat, v: Val)
      requires Ok() && i < |mt.fields| && !mt.fields[i].presence.Repeated? && !mt.fields[i].kind.Sub?
      requires ValTyped(mt.fields[i].kind, v)
      modifies this
      ensures Ok() && Seen() == Put(mt, old(Seen()), i, [v])
    {
      OneHeld(mt.fields[i], Plain(v));
      Store(i, [Plain(v)]);
    }

    /** mutable_x of a submessage: allocates a null member and marks it present. */
    method MutableSub(i: nat)
      requires Ok() && i < |mt.fields| && !mt.fields[i].presence.Repeated? && mt.fields[i].kind.Sub?
      modifies this
      ensures Ok() && i in has && |slots[i]| == 1
      ensures Seen() == Put(mt, old(Seen()), i, [M(Existing(mt.fields[i], old(Seen()).fields[i]))])
    {
      var f := mt.fields[i];
      ValueAt(mt, Now(), i);
      assert FieldOK(f);
      AllocatedShows(f, i in has, slots[i]);
      var h := Nested(Allocated(f, slots[i]));
      OneHeld(f, h);
      Store(i, [h]);
    }

    /** add_x of a submessage. */
    method AddSub(i: nat)
      requires Ok() && i < |mt.fields| && mt.fields[i].presence.Repeated? && mt.fields[i].kind.Sub?
      modifies this
      ensures Ok() && |slots[i]| == |old(Seen()).fields[i]| + 1
      ensures SlotTyped(mt.fields[i], old(Seen()).fields[i] + [M(Default(mt.fields[i].kind.mt))])
      ensures Seen() == Put(mt, old(Seen()), i, old(Seen()).fields[i] + [M(Default(mt.fields[i].kind.mt))])
    {
      ValueAt(mt, Now(), i);
      assert FieldOK(mt.fields[i]);
      DefaultTyped(mt.fields[i].kind.mt);
      InitialIsBlank(mt.fields[i].kind.mt);
      AddHeld(i, Nested(Initial(mt.fields[i].kind.mt)));
    }

    method AddHeld(i: nat, h: Held)
      requires Ok() && i < |mt.fields| && mt.fields[i].presence.Repeated? && HeldOK(mt.fields[i].kind, h)
      modifies this
      ensures Ok() && slots[i] == old(slots[i]) + [h] && |slots[i]| == |old(Seen()).fields[i]| + 1
      ensures Seen() == Put(mt, old(Seen()), i, old(Seen()).fields[i] + [ValOf(mt.fields[i].kind, h)])
    {
      ValueAt(mt, Now(), i);
      ValsConcat(mt.fields[i].kind, slots[i], [h]);
      assert AllHeld(mt.fields[i].kind, slots[i] + [h]);
      assert Vals(mt.fields[i].kind, [h]) == [ValOf(mt.fields[i].kind, h)];
      Store(i, slots[i] + [h]);
    }

    /** add_x of a string. */
    method Add(i: nat, v: Val)
      requires Ok() && i < |mt.fields| && mt.fields[i].presence.Repeated? && !mt.fields[i].kind.Sub?
      requires ValTyped(mt.fields[i].kind, v)
      modifies this
      ensures Ok() && Seen() == Put(mt, old(Seen()), i, old(Seen()).fields[i] + [v])
    {
      AddHeld(i, Plain(v));
    }

    /** Follows the pointer to a submessage, of a repeated field to its element k. */
    method Open(i: nat, k: nat) returns (sub: Message)
      requires Ok() && i < |mt.fields| && mt.fields[i].kind.Sub? && k < |slots[i]|
      requires mt.fields[i].presence.Repeated? || i in has
      ensures fresh(sub) && sub.Ok() && sub.mt == mt.fields[i].kind.mt
      ensures k < |Seen().fields[i]| && Seen().fields[i][k] == M(sub.Seen())
    {
      ValueAt(mt, Now(), i);
      assert FieldOK(mt.fields[i]) && HeldOK(mt.fields[i].kind, slots[i][k]);
      sub := new Message.Opens(mt.fields[i].kind.mt, slots[i][k].st);
    }

    /** What was done through the pointer is in the member. */
    method Close(i: nat, k: nat, sub: Message)
      requires Ok() && i < |mt.fields| && mt.fields[i].kind.Sub? && k < |slots[i]|
      requires mt.fields[i].presence.Repeated? || i in has
      requires sub.Ok() && sub.mt == mt.fields[i].kind.mt && sub != this
      modifies this
      ensures Ok() && k < |old(Seen()).fields[i]|
      ensures SlotTyped(mt.fields[i], old(Seen()).fields[i][k := M(sub.Seen())])
      ensures Seen() == Put(mt, old(Seen()), i, old(Seen()).fields[i][k := M(sub.Seen())])
    {
      ValueAt(mt, Now(), i);
      var h := Nested(State(sub.has, sub.slots, sub.unknown));
      HeldReplaced(mt.fields[i].kind, slots[i], k, h);
      Store(i, slots[i][k := h]);
    }

    /** mutable_x of a string: marks it present and leaves its characters. */
    method MutableStr(i: nat)
      requires Ok() && i < |mt.fields| && !mt.fields[i].presence.Repeated? && mt.fields[i].kind.Str?
      modifies this
      ensures Ok()
      ensures Seen() == if old(Seen()).fields[i] == [] then Put(mt, old(Seen()), i, [B([])]) else old(Seen())
    {
      ValueAt(mt, Now(), i);
      ghost var was, x := Seen(), slots[i];
      OneHeld(mt.fields[i], x[0]);
      assert x == [x[0]];
      Store(i, slots[i]);
      assert was.fields[i] != [] ==> was.fields[i := was.fields[i]] == was.fields;
    }

    /** clear_x: a submessage is emptied in place, not freed. */
    method ClearField(i: nat)
      requires Ok() && i < |mt.fields|
      modifies this
      ensures Ok() && Seen() == Put(mt, old(Seen()), i, [])
    {
      ValueAt(mt, Now(), i);
      var f := mt.fields[i];
      assert FieldOK(f);
      FieldClearedOK(f, i in has, slots[i]);
      UnsetIsAbsent(mt, Now(), i, FieldCleared(f, slots[i]));
      var x := DefaultSlot(f);
      if f.kind.Sub? && !f.presence.Repeated? {
        x := ClearSub(f, slots[i]);
      }
      slots, has := slots[i := x], has - {i};
    }

    /** `if (x_ != NULL) x_->Clear()` */
    static method ClearSub(f: Field, x: seq<Held>) returns (y: seq<Held>)
      requires FieldOK(f) && f.kind.Sub? && AllHeld(f.kind, x) && |x| <= 1
      ensures y == ClearedSub(f, x)
      decreases f
    {
      y := [];
      if x != [] {
        assert HeldOK(f.kind, x[0]);
        var sub := new Message.Opens(f.kind.mt, x[0].st);
        sub.Clear();
        y := [Nested(State(sub.has, sub.slots, sub.unknown))];
      }
    }

    /** release_x: hands the member out and leaves a null or empty one behind. */
    method Release(i: nat) returns (x: seq<Held>)
      requires Ok() && i < |mt.fields| && !mt.fields[i].presence.Repeated?
      requires mt.fields[i].kind.Sub? || mt.fields[i].kind.Str?
      modifies this
      ensures Ok() && Seen() == Put(mt, old(Seen()), i, [])
      ensures AllHeld(mt.fields[i].kind, x)
      ensures i in old(has) ==> Vals(mt.fields[i].kind, x) == old(Seen()).fields[i]
    {
      ValueAt(mt, Now(), i);
      assert FieldOK(mt.fields[i]);
      DefaultSlotOK(mt.fields[i]);
      x := slots[i];
      UnsetIsAbsent(mt, Now(), i, DefaultSlot(mt.fields[i]));
      slots, has := slots[i := DefaultSlot(mt.fields[i])], has - {i};
    }

    // -------------------------------------------------------------- whole-object operations

    method Clear()
      requires Ok()
      modifies this
      ensures Ok() && Now() == Cleared(mt, old(Now())) && Blank(mt, Now()) && Seen() == Default(mt)
      decreases mt
    {
      ghost var was := Now();
      ClearEmpties(mt, was);
      for i := 0 to |mt.fields|
        invariant has == was.has && unknown == was.unknown && |slots| == |was.slots|
        invariant forall j :: 0 <= j < |slots| ==>
          slots[j] == if j < i then ClearedSlot(mt, was, j) else was.slots[j]
      {
        var x := ClearMember(i, was);
        slots := slots[i := x];
      }
      has, unknown := {}, [];
      assert slots == Cleared(mt, was).slots;
    }

    /** What Clear does to one member. */
    method ClearMember(i: nat, ghost was: State) returns (x: seq<Held>)
      requires TypeOK(mt) && Valid(mt, was) && i < |mt.fields| && |slots| == |mt.fields|
      requires has == was.has && slots[i] == was.slots[i]
      ensures x == ClearedSlot(mt, was, i)
      decreases mt, 0
    {
      var f := mt.fields[i];
      assert FieldOK(f) && SlotOK(f, i in has, slots[i]);
      x := slots[i];
      if f.presence.Repeated? {
        x := [];
      } else if ChunkVisited(mt, has, i) {
        if f.kind.Sub? {
          if i in has { x := ClearSub(f, x); }
        } else if f.kind.Str? {
          if i in has { x := [Plain(B([]))]; }
        } else {
          x := [Plain(N(0))];
        }
      }
    }

    /** GOOGLE_CHECK_NE: an object is never merged into itself. */
    method MergeFrom(from: Message)
      requires Ok() && from.Ok() && from != this && from.mt == mt
      modifies this
      ensures Ok() && Now() == Merged(mt, old(Now()), from.Now())
      ensures Seen() == Merge(mt, old(Seen()), from.Seen())
      decreases mt
    {
      ghost var was, other := Now(), from.Now();
      MergeStatesIsMerge(mt, was, other);
      var merged := slots;
      for i := 0 to |mt.fields|
        invariant Now() == was && |merged| == |slots|
        invariant forall j :: 0 <= j < |slots| ==>
          merged[j] == if j < i then MergedSlot(mt, was, other, j) else was.slots[j]
      {
        var x := MergeMember(from, i);
        merged := merged[i := x];
      }
      slots, has, unknown := merged, has + from.has, unknown + from.unknown;
      assert slots == Merged(mt, was, other).slots;
    }

    /** What MergeFrom makes of one member. */
    method MergeMember(from: Message, i: nat) returns (x: seq<Held>)
      requires Ok() && from.Ok() && from.mt == mt && i < |mt.fields|
      ensures x == MergedSlot(mt, Now(), from.Now(), i)
      decreases mt, 0
    {
      var f := mt.fields[i];
      assert FieldOK(f) && SlotOK(f, i in has, slots[i]) && SlotOK(f, i in from.has, from.slots[i]);
      x := slots[i];
      if f.presence.Repeated? {
        var copies := CopyElements(f, from.slots[i]);
        x := x + copies;
      } else if ChunkVisited(mt, from.has, i) && i in from.has {
        if f.kind.Sub? {
          var sub := MergeSub(f, Allocated(f, x), Allocated(f, from.slots[i]));
          x := [Nested(sub)];
        } else {
          x := from.slots[i];
        }
      }
    }

    /** MergeFrom of a submessage into the allocated member. */
    static method MergeSub(f: Field, a: State, b: State) returns (c: State)
      requires FieldOK(f) && f.kind.Sub? && Valid(f.kind.mt, a) && Valid(f.kind.mt, b)
      ensures c == MergedSub(f, a, b)
      decreases f, 0
    {
      var to := new Message.Opens(f.kind.mt, a);
      var from := new Message.Opens(f.kind.mt, b);
      to.MergeFrom(from);
      c := State(to.has, to.slots, to.unknown);
    }

    /** MergeFrom of a repeated field: every element is merged into a new object. */
    static method CopyElements(f: Field, y: seq<Held>) returns (z: seq<Held>)
      requires FieldOK(f) && AllHeld(f.kind, y)
      ensures z == Copies(f, y)
      decreases f, 1
    {
      z := [];
      for k := 0 to |y|
        invariant z == Copies(f, y)[..k]
      {
        assert HeldOK(f.kind, y[k]);
        var h := y[k];
        if f.kind.Sub? {
          var sub := MergeSub(f, Allocated(f, []), y[k].st);
          h := Nested(sub);
        }
        z := z + [h];
      }
    }

    method CopyFrom(from: Message)
      requires Ok() && from.Ok() && from.mt == mt
      modifies this
      ensures Ok() && Seen() == old(from.Seen())
    {
      if from == this { return; }
      Clear();
      MergeFrom(from);
      MergeIdentity(mt, from.Seen());
    }

    method Swap(other: Message)
      requires Ok() && other.Ok() && other.mt == mt
      modifies this, other
      ensures Ok() && other.Ok()
      ensures Seen() == old(other.Seen()) && other.Seen() == old(Seen())
      ensures cache == old(other.cache) && other.cache == old(cache)
    {
      if other != this {
        slots, other.slots := other.slots, slots;
        has, other.has := other.has, has;
        unknown, other.unknown := other.unknown, unknown;
        cache, other.cache := other.cache, cache;
      }
    }

    // -------------------------------------------------------------- sizes and serializers

    /** Measures the message and stores the size of every message in the tree. */
    method UpdateSizes() returns (total: nat)
      requires Ok() && |Serialize(mt, Seen())| < LENGTH_LIMIT
      modifies this`cache
      ensures total == |Serialize(mt, Seen())| && cache == Sizes(mt, Seen())
    {
      var st := Content();
      cache := ByteSize(mt, st);
      total := cache.size;
    }

    method ToStream(out: Stream)
      requires Ok() && cache == Sizes(mt, Seen())
      modifies out
      ensures out.bytes == old(out.bytes) + Serialize(mt, Seen())
    {
      var st := Content();
      WriteToStream(mt, st, cache, out);
    }

    method ToArray(a: array<Byte>, pos: nat) returns (end: nat)
      requires Ok() && cache == Sizes(mt, Seen())
      requires pos + cache.size <= a.Length
      modifies a
      ensures end == pos + cache.size && a[..] == Written(old(a[..]), pos, Serialize(mt, Seen()))
    {
      var st := Content();
      end := WriteToArray(mt, st, cache, a, pos);
    }

    // -------------------------------------------------------------- the generated parse loop

    /** The code at the label of field i + 1: reads a value of that field and stores it. */
    method ReadInto(i: nat, s: Bytes) returns (ok: bool, rest: Bytes)
      requires Ok() && i < |mt.fields|
      modifies this
      ensures Ok() && Seen() == ReadField(mt, old(Seen()), i, s).msg
      ensures ok == ReadField(mt, old(Seen()), i, s).Next?
      ensures ok ==> rest == ReadField(mt, old(Seen()), i, s).rest
      decreases |s|, 1
    {
      var f := mt.fields[i];
      assert FieldOK(f);
      match f.kind {
      case U32 =>
        var r := ReadVarint32(s);
        if r.Bad? { return false, s; }
        Set(i, N(r.value));
        return true, r.rest;
      case U64 =>
        var r := ReadVarint64(s);
        if r.Bad? { return false, s; }
        Set(i, N(r.value));
        return true, r.rest;
      case Enum(count) =>
        var r := ReadVarint32(s);
        if r.Bad? { return false, s; }
        if r.value < count {
          Set(i, N(r.value));
        } else {
          AddUnknown(Unknown(8 * (i + 1), Num(SignExtend(r.value))));
        }
        return true, r.rest;
      case Str =>
        ok, rest := ReadStringInto(i, s);
      case Sub(t) =>
        ok, rest := ReadSubInto(i, s);
      }
    }

    method AddUnknown(u: Unknown)
      requires Ok()
      modifies this`unknown
      ensures Ok() && Seen() == Keep(old(Seen()), u)
    {
      unknown := unknown + [u];
      assert Seen().fields == old(Seen()).fields;
    }

    /** The code at handle_uninterpreted: an end-group tag ends the loop, any other field is kept as
        unknown. Done means that the loop goes on. */
    method Uninterpreted(tag: nat, s: Bytes) returns (status: Status, rest: Bytes)
      requires Ok() && tag != 0 && !IsKnown(mt, tag)
      modifies this
      ensures Ok() && Seen() == ReadTagged(mt, old(Seen()), tag, s).msg
      ensures match ReadTagged(mt, old(Seen()), tag, s)
              case Stop(_) => status == Stopped
              case Fail(_) => status == Failed
              case Next(_, r) => status == Done && rest == r
    {
      if tag % 8 == END_GROUP { return Stopped, s; }
      var u := Skip(tag, s);
      if u.Bad? { return Failed, s; }
      AddUnknown(Unknown(tag, u.value));
      status, rest := Done, u.rest;
    }

    /** ReadString or ReadBytes into mutable_x() or add_x(). */
    method ReadStringInto(i: nat, s: Bytes) returns (ok: bool, rest: Bytes)
      requires Ok() && i < |mt.fields| && mt.fields[i].kind.Str?
      modifies this
      ensures Ok() && Seen() == ReadField(mt, old(Seen()), i, s).msg
      ensures ok == ReadField(mt, old(Seen()), i, s).Next?
      ensures ok ==> rest == ReadField(mt, old(Seen()), i, s).rest
    {
      var f, r := mt.fields[i], ReadBytes(s);
      ghost var was := Seen();
      ValueAt(mt, Now(), i);
      if f.presence.Repeated? {
        Add(i, B(if r.Bad? then [] else r.value));
      } else {
        MutableStr(i);
        if r.Good? { Set(i, B(r.value)); }
      }
      ok, rest := r.Good?, if r.Good? then r.rest else s;
    }

    /** ReadMessageNoVirtual into mutable_x() or add_x(): the declared length bounds the nested loop,
        which has to use it up. */
    method ReadSubInto(i: nat, s: Bytes) returns (ok: bool, rest: Bytes)
      requires Ok() && i < |mt.fields| && mt.fields[i].kind.Sub?
      modifies this
      ensures Ok() && Seen() == ReadField(mt, old(Seen()), i, s).msg
      ensures ok == ReadField(mt, old(Seen()), i, s).Next?
      ensures ok ==> rest == ReadField(mt, old(Seen()), i, s).rest
      decreases |s|, 0
    {
      var r := ReadBytes(s);
      ghost var was := Seen();
      assert FieldOK(mt.fields[i]) && SlotTyped(mt.fields[i], was.fields[i]);
      var k := SubToRead(i);
      if r.Bad? { return false, s; }
      var status := ReadThrough(i, k, r.value, was);
      ok, rest := status == Done, r.rest;
    }

    /** The nested loop on the submessage that has just become present. */
    method ReadThrough(i: nat, k: nat, b: Bytes, ghost was: Msg) returns (status: Status)
      requires Ok() && i < |mt.fields| && mt.fields[i].kind.Sub? && k == |slots[i]| - 1
      requires mt.fields[i].presence.Repeated? || i in has
      requires Typed(mt, was) && SlotTyped(mt.fields[i], was.fields[i])
      requires SubPut(mt, was, Seen(), i, k, Existing(mt.fields[i], was.fields[i]))
      modifies this
      ensures var o := ParseInto(mt.fields[i].kind.mt, Existing(mt.fields[i], was.fields[i]), b);
        Ok() && status == o.status && SubPut(mt, was, Seen(), i, k, o.msg)
      decreases |b|, 4
    {
      ghost var before, there := Seen(), Existing(mt.fields[i], was.fields[i]);
      var sub := Open(i, k);
      assert before.fields[i][k] == M(there);
      ReceivedInPlace(mt, was, before, i, k, ParseInto(mt.fields[i].kind.mt, there, b).msg);
      hide SubPut, Value, Valid, ParseInto, Put, Existing;
      status := sub.MergePartialFromCodedStream(b);
      Close(i, k, sub);
    }

    /** mutable_x() or add_x(). */
    method SubToRead(i: nat) returns (k: nat)
      requires Ok() && i < |mt.fields| && mt.fields[i].kind.Sub?
      modifies this
      ensures Ok() && k == |slots[i]| - 1 && (mt.fields[i].presence.Repeated? || i in has)
      ensures SubPut(mt, old(Seen()), Seen(), i, k, Existing(mt.fields[i], old(Seen()).fields[i]))
    {
      ghost var was := Seen();
      ValueAt(mt, Now(), i);
      if mt.fields[i].presence.Repeated? {
        AddSub(i);
      } else {
        MutableSub(i);
      }
      ValueAt(mt, Now(), i);
      k := |slots[i]| - 1;
    }

    /** ReadTag and the switch: ends the loop, or goes on at a label or at the next ReadTag. */
    method AtTag(s: Bytes) returns (exit: bool, status: Status, next: nat, rest: Bytes)
      requires Ok()
      modifies this
      ensures Ok() && next <= |mt.fields|
      ensures exit ==> Outcome(status, Seen()) == ParseInto(mt, old(Seen()), s)
      ensures !exit ==> |rest| < |s| && Pending(mt, Seen(), next, rest) == ParseInto(mt, old(Seen()), s)
    {
      exit, status, next, rest := true, Done, 0, s;
      if s == [] { return; }
      status := Stopped;
      var r := ReadVarint32(s);
      if r.Bad? || r.value == 0 { return; }
      if IsKnown(mt, r.value) {
        exit, next, rest := false, r.value / 8, r.rest;
      } else {
        status, rest := Uninterpreted(r.value, r.rest);
        exit := status != Done;
      }
    }

    /** The label of a field: reads the field and looks ahead. */
    method AtField(field: nat, s: Bytes) returns (exit: bool, status: Status, next: nat, rest: Bytes)
      requires Ok() && 1 <= field <= |mt.fields|
      modifies this
      ensures Ok() && next <= |mt.fields|
      ensures exit ==> Outcome(status, Seen()) == Pending(mt, old(Seen()), field, s)
      ensures !exit ==> |rest| < |s| && Pending(mt, Seen(), next, rest) == Pending(mt, old(Seen()), field, s)
      decreases |s|, 2
    {
      hide ParseInto, ReadField, Valid, Value, Typed;
      var ok;
      ok, rest := ReadInto(field - 1, s);
      if !ok { return true, Failed, 0, rest; }
      exit, next, rest := LookAhead(mt, Seen(), field, rest);
      ParseNothing(mt, Seen());
      status := Done;
    }

    /** The generated loop, with its jumps past ReadTag. Whatever the look-ahead reports, the outcome
        is that of the plain loop. */
    method MergePartialFromCodedStream(s: Bytes) returns (status: Status)
      requires Ok()
      modifies this
      ensures Ok() && Outcome(status, Seen()) == ParseInto(mt, old(Seen()), s)
      decreases |s|, 3
    {
      status := Done;
      var exit, next: nat, rest := false, 0, s;
      ghost var goal := ParseInto(mt, Seen(), s);
      while !exit
        invariant Ok() && next <= |mt.fields| && (exit || |rest| <= |s|)
        invariant if exit then Outcome(status, Seen()) == goal else Pending(mt, Seen(), next, rest) == goal
        decreases !exit, |rest|
      {
        if next == 0 {
          exit, status, next, rest := AtTag(rest);
        } else {
          exit, status, next, rest := AtField(next, rest);
        }
      }
    }

    /** ParseFromArray: clears, parses, and accepts only a whole and initialized message. */
    method ParseFrom(s: Bytes) returns (ok: bool)
      requires Ok()
      modifies this
      ensures Ok() && Seen() == Parse(mt, s).msg
      ensures ok <==> Parse(mt, s).status == Done && Initialized(mt, Seen())
      ensures ok ==> MessagePaths.Accepted(mt, s, Seen())
      ensures !ok ==> forall m :: !MessagePaths.Accepted(mt, s, m)
    {
      forall m ensures Parse(mt, s).status == Done && Parse(mt, s).msg == m && Initialized(mt, Parse(mt, s).msg)
                  <==> MessagePaths.Accepted(mt, s, m)
      {
        MessagePaths.AcceptedIff(mt, s, m);
      }
      Clear();
      var status := MergePartialFromCodedStream(s);
      IsInitializedIff(mt, Now());
      ok := status == Done && IsInitialized(mt, State(has, slots, unknown));
    }
  }
}
