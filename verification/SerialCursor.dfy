/** The serializer, the unserializer and the size helper as cursors that move, each step cut to an int. */
module SerialCursor {
  import opened Bytes
  import opened ByteOrder
  import opened Serial
  import opened SerialSize
  import opened SerialNarrow

  class Serializer {
    const buf: array<Byte>
    var pos: int

    constructor (buf: array<Byte>)
      ensures this.buf == buf && pos == 0
    {
      this.buf, pos := buf, 0;
    }

    predicate Room(n: nat)
      reads this
    {
      0 <= pos && pos + n <= buf.Length
    }

    /** memcpy to the cursor, then advance. Not ok when that would write outside the buffer. */
    method Put(bs: Bytes) returns (ok: bool)
      modifies this, buf
      ensures ok <==> old(Room(|bs|))
      ensures ok ==> pos == old(pos) + Step(|bs|) && buf[..] == Written(old(buf[..]), old(pos), bs)
      ensures !ok ==> pos == old(pos) && buf[..] == old(buf[..])
    {
      ok := Room(|bs|);
      if ok {
        var end := CopyTo(buf, pos, bs);
        pos := pos + Step(|bs|);
      }
    }

    /** Two writes in a row. */
    method PutBoth(b1: Bytes, b2: Bytes) returns (ok: bool)
      modifies this, buf
      ensures ok ==> pos == old(pos) + Step(|b1|) + Step(|b2|)
      ensures |b1| < INT_LIMIT && old(Room(|b1 + b2|)) ==> ok && buf[..] == Written(old(buf[..]), old(pos), b1 + b2)
    {
      ghost var s, start := buf[..], pos;
      StepIff(|b1|);
      ok := Put(b1);
      if ok {
        ok := Put(b2);
        if |b1| < INT_LIMIT && ok {
          WrittenTwice(s, start, b1, b2);
        }
      }
    }

    /** Writes the object. The cursor gets behind it exactly when every move is small; then exactly the
        serialized object is in the buffer and nothing else has changed. */
    method Write(ty: Ty, o: Obj) returns (ok: bool)
      requires HasType(ty, o)
      modifies this, buf
      ensures ok ==> pos == old(pos) + CursorMove(ty, o)
      ensures ok ==> (pos == old(pos) + |Serialize(ty, o)| <==> SmallMoves(ty, o))
      ensures SmallMoves(ty, o) && old(Room(|Serialize(ty, o)|)) ==>
        ok && buf[..] == Written(old(buf[..]), old(pos), Serialize(ty, o))
      decreases Rank(ty), 1
    {
      MoveIff(ty, o);
      hide Written;
      if ty.Pod? {
        ok := Put(o.bytes);
      } else if ty.Str? {
        StepIff(SIZE_BYTES);
        ok := PutBoth(Host(|o.bytes| / ty.width, SIZE_BYTES), o.bytes);
      } else if ty.CStr? {
        ok := WriteText(o.bytes);
      } else if ty.Pair? {
        ok := WritePair(ty, o);
      } else {
        ok := WriteContainer(ty, o);
      }
    }

    /** strcpy, then advance by strlen + 1. */
    method WriteText(b: Bytes) returns (ok: bool)
      modifies this, buf
      ensures ok ==> pos == old(pos) + Step(|b| + 1)
      ensures old(Room(|b| + 1)) ==> ok && buf[..] == Written(old(buf[..]), old(pos), b + [0])
    {
      ok := Put(b + [0]);
    }

    method WritePair(ty: Ty, o: Obj) returns (ok: bool)
      requires ty.Pair? && HasType(ty, o)
      modifies this, buf
      ensures ok ==> pos == old(pos) + CursorMove(ty, o)
      ensures SmallMoves(ty, o) && old(Room(|Serialize(ty, o)|)) ==>
        ok && buf[..] == Written(old(buf[..]), old(pos), Serialize(ty, o))
      decreases Rank(ty), 0
    {
      hide Written;
      ghost var s, start := buf[..], pos;
      ghost var good := SmallMoves(ty, o) && Room(|Serialize(ty, o)|);
      ghost var a, b := Serialize(ty.first, o.a), Serialize(ty.second, o.b);
      ok := Write(ty.first, o.a);
      if ok {
        ok := Write(ty.second, o.b);
        if good {
          WrittenTwice(s, start, a, b);
        }
      }
    }

    /** The count, then the elements. */
    method WriteContainer(ty: Ty, o: Obj) returns (ok: bool)
      requires Container(ty) && HasType(ty, o)
      modifies this, buf
      ensures ok ==> pos == old(pos) + CursorMove(ty, o)
      ensures SmallMoves(ty, o) && old(Room(|Serialize(ty, o)|)) ==>
        ok && buf[..] == Written(old(buf[..]), old(pos), Serialize(ty, o))
      decreases Rank(ty), 0
    {
      ElemsHaveType(ty, o.items);
      hide Written, SmallMoves, AllSmallMoves, CursorMove, CursorMoves, Serialize, SerializeAll, HasType;
      ghost var s, start := buf[..], pos;
      ghost var good := SmallMoves(ty, o) && Room(|Serialize(ty, o)|);
      var count := Host(|o.items|, SIZE_BYTES);
      StepIff(SIZE_BYTES);
      ok := Put(count);
      if ok {
        ok := WriteAll(ElemType(ty), o.items);
        if good {
          WrittenTwice(s, start, count, SerializeAll(ElemType(ty), o.items));
        }
      }
    }

    /** Sequences, sets and maps: the elements in iteration order. */
    method WriteAll(e: Ty, items: seq<Obj>) returns (ok: bool)
      requires AllHaveType(e, items)
      modifies this, buf
      ensures ok ==> pos == old(pos) + CursorMoves(e, items)
      ensures AllSmallMoves(e, items) && old(Room(|SerializeAll(e, items)|)) ==>
        ok && buf[..] == Written(old(buf[..]), old(pos), SerializeAll(e, items))
      decreases Rank(e), 2, 1
    {
      ghost var s, start, done := buf[..], pos, [];
      ghost var good := AllSmallMoves(e, items) && Room(|SerializeAll(e, items)|);
      Begin(e, items, good);
      var todo := items;
      ok := true;
      while todo != []
        invariant AllHaveType(e, todo) && Going(e, items, todo, s, start, done, good)
        decreases |todo|
      {
        hide Going, SerializeAll, AllSmallMoves, CursorMoves, Written;
        ghost var bs := Serialize(e, todo[0]);
        ok := WriteNext(e, items, todo, s, start, done, good);
        if !ok { return; }
        done, todo := done + bs, todo[1..];
      }
      Ended(e, items, s, start, done, good);
    }

    /** A loop over the elements: the cursor is where the elements so far moved it; if all is good, `s`
        has received them from `start` on and nothing else. */
    ghost predicate Going(e: Ty, items: seq<Obj>, todo: seq<Obj>, s: Bytes, start: int, done: Bytes, good: bool)
      requires AllHaveType(e, items) && AllHaveType(e, todo)
      reads this, buf
    {
      && pos + CursorMoves(e, todo) == start + CursorMoves(e, items)
      && (good ==>
            && LeftToWrite(e, todo, SerializeAll(e, items), done)
            && 0 <= start && start + |SerializeAll(e, items)| <= buf.Length == |s|
            && pos == start + |done| && buf[..] == Written(s, start, done))
    }

    lemma Begin(e: Ty, items: seq<Obj>, good: bool)
      requires AllHaveType(e, items)
      requires good ==> AllSmallMoves(e, items) && Room(|SerializeAll(e, items)|)
      ensures Going(e, items, items, buf[..], pos, [], good)
    {
      if good {
        WrittenNothing(buf[..], pos);
      }
    }

    lemma Ended(e: Ty, items: seq<Obj>, s: Bytes, start: int, done: Bytes, good: bool)
      requires AllHaveType(e, items) && AllHaveType(e, []) && Going(e, items, [], s, start, done, good)
      ensures pos == start + CursorMoves(e, items)
      ensures good ==> 0 <= start && start + |SerializeAll(e, items)| <= |s|
      ensures good ==> buf[..] == Written(s, start, SerializeAll(e, items))
    {
      if good {
        assert done + [] == done;
      }
    }

    /** Writes one more element. */
    method WriteNext(e: Ty, ghost items: seq<Obj>, todo: seq<Obj>, ghost s: Bytes, ghost start: int,
                     ghost done: Bytes, ghost good: bool)
      returns (ok: bool)
      requires todo != [] && AllHaveType(e, items) && AllHaveType(e, todo)
      requires Going(e, items, todo, s, start, done, good)
      modifies this, buf
      ensures AllHaveType(e, todo[1..]) && HasType(e, todo[0]) && (good ==> ok)
      ensures ok ==> Going(e, items, todo[1..], s, start, done + Serialize(e, todo[0]), good)
      decreases Rank(e), 2, 0
    {
      hide Written, LeftToWrite, SerializeAll, AllSmallMoves, CursorMoves, CursorMove, Serialize, SmallMoves, HasType;
      ghost var all := SerializeAll(e, items);
      NextToWrite(e, todo, all, done);
      MoveIff(e, todo[0]);
      ghost var bs := Serialize(e, todo[0]);
      if good {
        WrittenTwice(s, start, done, bs);
      }
      ok := Write(e, todo[0]);
    }
  }

  /** What is still to be written is small, and completes `all`. */
  ghost predicate LeftToWrite(e: Ty, todo: seq<Obj>, all: Bytes, done: Bytes) {
    AllHaveType(e, todo) && AllSmallMoves(e, todo) && done + SerializeAll(e, todo) == all
  }

  lemma NextToWrite(e: Ty, todo: seq<Obj>, all: Bytes, done: Bytes)
    requires todo != [] && AllHaveType(e, todo)
    ensures HasType(e, todo[0]) && AllHaveType(e, todo[1..])
    ensures CursorMoves(e, todo) == CursorMove(e, todo[0]) + CursorMoves(e, todo[1..])
    ensures LeftToWrite(e, todo, all, done) ==>
      && SmallMoves(e, todo[0]) && |done + Serialize(e, todo[0])| <= |all|
      && LeftToWrite(e, todo[1..], all, done + Serialize(e, todo[0]))
  {
    FirstAndRest(e, todo);
    MovesOfCons(e, todo[0], todo[1..]);
    Regroup(done, Serialize(e, todo[0]), SerializeAll(e, todo[1..]));
  }

  class Unserializer {
    const buf: Bytes
    var pos: int

    constructor (buf: Bytes)
      ensures this.buf == buf && pos == 0
    {
      this.buf, pos := buf, 0;
    }

    /** A count at the cursor. */
    method ReadCount() returns (ok: bool, n: nat)
      modifies this
      ensures ok <==> CountAt(buf, old(pos)).Moved?
      ensures ok ==> Moved(n, pos) == CountAt(buf, old(pos))
    {
      var bs := TakeAt(buf, pos, SIZE_BYTES);
      ok, n := bs.Some?, 0;
      if ok {
        n, pos := HostValue(bs.value), pos + Step(SIZE_BYTES);
        StepIff(SIZE_BYTES);
      }
    }

    /** Copies n bytes out and moves by n and `skip` more. */
    method Take(n: nat, skip: nat) returns (ok: bool, v: Value)
      modifies this
      ensures ok <==> TakeAt(buf, old(pos), n).Some?
      ensures ok ==> v == VRaw(TakeAt(buf, old(pos), n).value) && pos == old(pos) + Step(n + skip)
    {
      var bs := TakeAt(buf, pos, n);
      ok, v := bs.Some?, VRaw([]);
      if ok {
        v, pos := VRaw(bs.value), pos + Step(n + skip);
      }
    }

    /** Reads into a variable that holds `t`. Not ok when that would read outside the buffer. */
    method Into(ty: Ty, t: Value) returns (ok: bool, v: Value)
      requires TypeOK(ty) && Target(ty, t)
      modifies this
      ensures ok <==> ReadInto(ty, t, buf, old(pos)).Moved?
      ensures ok ==> Moved(v, pos) == ReadInto(ty, t, buf, old(pos))
      decreases Rank(ty), 1
    {
      match ty {
      case Pod(size) => ok, v := Take(size, 0);
      case Str(width) =>
        var n;
        v := t;
        ok, n := ReadCount();
        if ok { ok, v := Take(n * width, 0); }
      case CStr =>
        ok, v := false, t;
        if 0 <= pos < |buf| {
          var n := Strlen(buf[pos..]);
          if pos + n < |buf| { ok, v := Take(n, 1); }
        }
      case Pair(a, b) => ok, v := IntoPair(ty, t);
      case Seq(e) => ok, v := IntoSequence(ty, t);
      case _ => ok, v := InsertElements(ty, t);
      }
    }

    method IntoPair(ty: Ty, t: Value) returns (ok: bool, v: Value)
      requires ty.Pair? && TypeOK(ty) && Target(ty, t)
      modifies this
      ensures ok <==> ReadInto(ty, t, buf, old(pos)).Moved?
      ensures ok ==> Moved(v, pos) == ReadInto(ty, t, buf, old(pos))
      decreases Rank(ty), 0
    {
      ReadPair(ty, t, buf, pos);
      hide ReadInto;
      var va, vb;
      v := t;
      ok, va := Into(ty.first, t.a);
      if ok {
        ok, vb := Into(ty.second, t.b);
        v := VPair(va, vb);
      }
    }

    method IntoSequence(ty: Ty, t: Value) returns (ok: bool, v: Value)
      requires ty.Seq? && TypeOK(ty) && Target(ty, t)
      modifies this
      ensures ok <==> ReadInto(ty, t, buf, old(pos)).Moved?
      ensures ok ==> Moved(v, pos) == ReadInto(ty, t, buf, old(pos))
      decreases Rank(ty), 0
    {
      ReadSequence(ty, t, buf, pos);
      hide ReadInto;
      var n, vs;
      v := t;
      ok, n := ReadCount();
      if ok {
        ok, vs := IntoElements(ty.elem, Resize(ty.elem, t.items, n));
        v := VSeq(vs);
      }
    }

    /** The loop over the resized sequence: every element is read in place. */
    method IntoElements(e: Ty, ts: seq<Value>) returns (ok: bool, vs: seq<Value>)
      requires TypeOK(e) && AllTargets(e, ts)
      modifies this
      ensures ok <==> ReadAllInto(e, ts, buf, old(pos)).Moved?
      ensures ok ==> Moved(vs, pos) == ReadAllInto(e, ts, buf, old(pos))
      decreases Rank(e), 2
    {
      ghost var goal := ReadAllInto(e, ts, buf, pos);
      ReadNothing(e, buf, pos);
      var todo := ts;
      ok, vs := true, [];
      assert goal.Moved? ==> [] + goal.value == goal.value;
      while todo != []
        invariant AllTargets(e, todo) && RestOfSequence(e, vs, todo, buf, pos) == goal
        decreases |todo|
      {
        NextOfSequence(e, vs, todo, buf, pos);
        hide ReadInto, RestOfSequence;
        var v;
        ok, v := Into(e, todo[0]);
        if !ok { return; }
        vs, todo := vs + [v], todo[1..];
      }
      ReadNothing(e, buf, pos);
      assert vs + [] == vs;
    }

    /** The loop that reads a new element and inserts it, as often as the count says. */
    method InsertElements(ty: Ty, t: Value) returns (ok: bool, v: Value)
      requires Container(ty) && !ty.Seq? && TypeOK(ty) && Target(ty, t)
      modifies this
      ensures ok <==> ReadInto(ty, t, buf, old(pos)).Moved?
      ensures ok ==> Moved(v, pos) == ReadInto(ty, t, buf, old(pos))
      decreases Rank(ty), 0
    {
      hide ReadInto;
      ghost var goal := ReadInto(ty, t, buf, pos);
      ReadInserted(ty, t, buf, pos);
      hide CountAt;
      var size;
      v := t;
      ok, size := ReadCount();
      if !ok { return; }
      while size > 0
        invariant Target(ty, v) && RestOfInsertions(ty, v, size, buf, pos) == goal
      {
        NextInsertion(ty, v, size, buf, pos);
        hide RestOfInsertions;
        var elem;
        ok, elem := Into(ElemType(ty), Default(ElemType(ty)));
        if !ok { return; }
        v := InsertOne(ty, v, elem);
        size := size - 1;
      }
      NoInsertions(ty, v, buf, pos);
      ok := true;
    }
  }

  // ---------------------------------------------------------------- sequences, element by element

  lemma ReadPair(ty: Ty, t: Value, buf: Bytes, pos: int)
    requires ty.Pair? && TypeOK(ty) && Target(ty, t)
    ensures var r := ReadInto(ty.first, t.a, buf, pos);
      ReadInto(ty, t, buf, pos) == if r.Outside? then Outside else
        var r1 := ReadInto(ty.second, t.b, buf, r.pos);
        if r1.Outside? then Outside else Moved(VPair(r.value, r1.value), r1.pos)
  {
    if Parse(ty.first, buf, pos).Moved? {
      ParseMoves(ty.first, buf, pos);
      if Parse(ty.second, buf, Parse(ty.first, buf, pos).pos).Moved? {
        ParseMoves(ty.second, buf, Parse(ty.first, buf, pos).pos);
      }
    }
  }

  /** What the elements of a resized sequence are left with. */
  ghost function ReadAllInto(e: Ty, ts: seq<Value>, buf: Bytes, pos: int): Moved<seq<Value>>
    requires TypeOK(e) && AllTargets(e, ts)
  {
    match ParseAll(e, |ts|, buf, pos)
    case Outside => Outside
    case Moved(items, p) =>
      ParseAllMoves(e, |ts|, buf, pos);
      ValuesAreTargets(e, items);
      Moved(MergeAll(e, ts, Values(e, items)), p)
  }

  lemma ReadNothing(e: Ty, buf: Bytes, pos: int)
    requires TypeOK(e)
    ensures ReadAllInto(e, [], buf, pos) == Moved([], pos)
  {
  }

  lemma ReadSequence(ty: Ty, t: Value, buf: Bytes, pos: int)
    requires ty.Seq? && TypeOK(ty) && Target(ty, t)
    ensures var c := CountAt(buf, pos);
      ReadInto(ty, t, buf, pos) == if c.Outside? then Outside else
        var r := ReadAllInto(ty.elem, Resize(ty.elem, t.items, c.value), buf, c.pos);
        if r.Outside? then Outside else Moved(VSeq(r.value), r.pos)
  {
    var c := CountAt(buf, pos);
    if c.Moved? && ParseAll(ty.elem, c.value, buf, c.pos).Moved? {
      ParseAllMoves(ty.elem, c.value, buf, c.pos);
    }
  }

  /** What reading the elements `todo` in place adds to those read. */
  ghost function RestOfSequence(e: Ty, vs: seq<Value>, todo: seq<Value>, buf: Bytes, pos: int): Moved<seq<Value>>
    requires TypeOK(e) && AllTargets(e, todo)
  {
    match ReadAllInto(e, todo, buf, pos)
    case Outside => Outside
    case Moved(more, p) => Moved(vs + more, p)
  }

  lemma NextOfSequence(e: Ty, vs: seq<Value>, todo: seq<Value>, buf: Bytes, pos: int)
    requires TypeOK(e) && todo != [] && AllTargets(e, todo)
    ensures Target(e, todo[0]) && AllTargets(e, todo[1..])
    ensures var r := ReadInto(e, todo[0], buf, pos);
      RestOfSequence(e, vs, todo, buf, pos)
      == if r.Outside? then Outside else RestOfSequence(e, vs + [r.value], todo[1..], buf, r.pos)
  {
    var r := ReadInto(e, todo[0], buf, pos);
    if r.Moved? {
      ParseMoves(e, buf, pos);
      if ParseAll(e, |todo| - 1, buf, r.pos).Moved? {
        FirstOfSequence(e, todo, buf, pos);
        Regroup(vs, [r.value], ReadAllInto(e, todo[1..], buf, r.pos).value);
      }
    }
  }

  lemma FirstOfSequence(e: Ty, todo: seq<Value>, buf: Bytes, pos: int)
    requires TypeOK(e) && todo != [] && AllTargets(e, todo) && AllTargets(e, todo[1..])
    requires ReadInto(e, todo[0], buf, pos).Moved?
    requires ParseAll(e, |todo| - 1, buf, ReadInto(e, todo[0], buf, pos).pos).Moved?
    ensures var r := ReadInto(e, todo[0], buf, pos);
      var more := ReadAllInto(e, todo[1..], buf, r.pos);
      more.Moved? && ReadAllInto(e, todo, buf, pos) == Moved([r.value] + more.value, more.pos)
  {
    hide Parse, ParseAll, HasType, TypeOK, Target, MergeAll, Merge, Values, ValueOf, CursorMove, CursorMoves;
    var o, p := Parse(e, buf, pos).value, Parse(e, buf, pos).pos;
    var r := ParseAll(e, |todo| - 1, buf, p);
    ParseMoves(e, buf, pos);
    ParseAllMoves(e, |todo| - 1, buf, p);
    NextIsParsed(e, |todo|, buf, pos, o, p, r.value, r.pos);
    MovesOfCons(e, o, r.value);
    MergedElements(e, todo, o, r.value);
    ReadElements(e, todo, buf, pos, [o] + r.value, r.pos);
    ReadElements(e, todo[1..], buf, p, r.value, r.pos);
  }

  lemma ReadElements(e: Ty, ts: seq<Value>, buf: Bytes, pos: int, items: seq<Obj>, p: int)
    requires TypeOK(e) && AllTargets(e, ts) && ParseAll(e, |ts|, buf, pos) == Moved(items, p)
    requires AllHaveType(e, items) && |items| == |ts|
    ensures AllTargets(e, Values(e, items))
    ensures ReadAllInto(e, ts, buf, pos) == Moved(MergeAll(e, ts, Values(e, items)), p)
  {
    ValuesAreTargets(e, items);
  }

  lemma MergedElements(e: Ty, ts: seq<Value>, o: Obj, items: seq<Obj>)
    requires |ts| == |items| + 1 && AllTargets(e, ts) && HasType(e, o) && AllHaveType(e, items)
    requires AllHaveType(e, [o] + items)
    ensures AllTargets(e, Values(e, [o] + items)) && AllTargets(e, Values(e, items)) && Target(e, ValueOf(e, o))
    ensures MergeAll(e, ts, Values(e, [o] + items))
         == [Merge(e, ts[0], ValueOf(e, o))] + MergeAll(e, ts[1..], Values(e, items))
  {
    hide HasType, Target, ValueOf, Values, Merge, MergeAll;
    ValuesAreTargets(e, [o] + items);
    ValuesAreTargets(e, items);
    ValueIsTarget(e, o);
    ValuesOfCons(e, o, items);
    MergeAllHead(e, ts, Values(e, [o] + items));
  }

  lemma ValuesOfCons(e: Ty, o: Obj, items: seq<Obj>)
    requires HasType(e, o) && AllHaveType(e, items) && AllHaveType(e, [o] + items)
    ensures Values(e, [o] + items) == [ValueOf(e, o)] + Values(e, items)
  {
    assert ([o] + items)[1..] == items;
  }

  // ---------------------------------------------------------------- sets and maps, element by element

  /** What reading and inserting `size` more elements does to `v`. */
  ghost function RestOfInsertions(ty: Ty, v: Value, size: nat, buf: Bytes, pos: int): Moved<Value>
    requires Container(ty) && !ty.Seq? && TypeOK(ty) && Target(ty, v)
  {
    match ParseAll(ElemType(ty), size, buf, pos)
    case Outside => Outside
    case Moved(items, p) =>
      ParseAllMoves(ElemType(ty), size, buf, pos);
      Moved(InsertAll(ty, v, Values(ElemType(ty), items)), p)
  }

  function InsertOne(ty: Ty, t: Value, v: Value): (r: Value)
    requires Container(ty) && !ty.Seq? && Target(ty, t) && (ElemType(ty).Pair? ==> v.VPair?)
    ensures Target(ty, r)
  {
    if ty.SetOf? then VSet(t.elems + {v})
    else if ty.MapOf? then VMap(Insert(t.m, v.a, v.b))
    else VBag(t.bag + multiset{v})
  }

  lemma InsertAllNext(ty: Ty, t: Value, vs: seq<Value>)
    requires Container(ty) && !ty.Seq? && Target(ty, t) && vs != []
    requires ElemType(ty).Pair? ==> forall i :: 0 <= i < |vs| ==> vs[i].VPair?
    ensures InsertAll(ty, t, vs) == InsertAll(ty, InsertOne(ty, t, vs[0]), vs[1..])
  {
    assert vs == [vs[0]] + vs[1..];
  }

  lemma NoInsertions(ty: Ty, v: Value, buf: Bytes, pos: int)
    requires Container(ty) && !ty.Seq? && TypeOK(ty) && Target(ty, v)
    ensures RestOfInsertions(ty, v, 0, buf, pos) == Moved(v, pos)
  {
    if ty.SetOf? {
      assert v.elems + ToSet([]) == v.elems;
    } else if !ty.MapOf? {
      assert v.bag + multiset([]) == v.bag;
    }
  }

  lemma ReadInserted(ty: Ty, t: Value, buf: Bytes, pos: int)
    requires Container(ty) && !ty.Seq? && TypeOK(ty) && Target(ty, t)
    ensures var c := CountAt(buf, pos);
      ReadInto(ty, t, buf, pos) == if c.Outside? then Outside else RestOfInsertions(ty, t, c.value, buf, c.pos)
  {
    var c := CountAt(buf, pos);
    if c.Moved? && ParseAll(ElemType(ty), c.value, buf, c.pos).Moved? {
      ParseMoves(ty, buf, pos);
      ParseAllMoves(ElemType(ty), c.value, buf, c.pos);
      ValueIsTarget(ty, Parse(ty, buf, pos).value);
      InsertedIsMerge(ty, t, Parse(ty, buf, pos).value);
    }
  }

  lemma NextInsertion(ty: Ty, v: Value, size: nat, buf: Bytes, pos: int)
    requires Container(ty) && !ty.Seq? && TypeOK(ty) && Target(ty, v) && size > 0
    ensures TypeOK(ElemType(ty)) && Target(ElemType(ty), Default(ElemType(ty)))
    ensures var r := ReadInto(ElemType(ty), Default(ElemType(ty)), buf, pos);
      && (r.Moved? && ElemType(ty).Pair? ==> r.value.VPair?)
      && RestOfInsertions(ty, v, size, buf, pos)
      == if r.Outside? then Outside else RestOfInsertions(ty, InsertOne(ty, v, r.value), size - 1, buf, r.pos)
  {
    var e := ElemType(ty);
    DefaultIsTarget(e);
    if Parse(e, buf, pos).Moved? {
      var o, p := Parse(e, buf, pos).value, Parse(e, buf, pos).pos;
      ParseMoves(e, buf, pos);
      ValueIsTarget(e, o);
      MergeIntoDefault(e, ValueOf(e, o));
      var r := ParseAll(e, size - 1, buf, p);
      if r.Moved? {
        ParseAllMoves(e, size - 1, buf, p);
        NextIsParsed(e, size, buf, pos, o, p, r.value, r.pos);
        ParseAllMoves(e, size, buf, pos);
        ValuesOfCons(e, o, r.value);
        InsertAllNext(ty, v, Values(e, [o] + r.value));
      }
    }
  }

  class SizeHelper {
    var value: int

    constructor ()
      ensures value == 0
    {
      value := 0;
    }

    method Advance(n: nat)
      modifies this
      ensures value == old(value) + Step(n)
    {
      value := value + Step(n);
    }

    method Add(ty: Ty, o: Obj)
      requires HasType(ty, o)
      modifies this
      ensures value == old(value) + SerializeSize(ty, o)
      decreases Rank(ty), 1
    {
      match ty {
      case Pod(size) => Advance(size);
      case Str(width) => Advance(SIZE_BYTES + |o.bytes|);
      case CStr => Advance(|o.bytes| + 1);
      case Pair(a, b) =>
        Add(a, o.a);
        Add(b, o.b);
      case _ => AddContainer(ty, o);
      }
    }

    method AddContainer(ty: Ty, o: Obj)
      requires Container(ty) && HasType(ty, o)
      modifies this
      ensures value == old(value) + SerializeSize(ty, o)
      decreases Rank(ty), 0
    {
      StepIff(SIZE_BYTES);
      Advance(SIZE_BYTES);
      if Shortcut(ty) {
        Advance(|o.items| * PerElement(ty));
      } else {
        AddAll(ElemType(ty), o.items);
      }
    }

    method AddAll(e: Ty, items: seq<Obj>)
      requires forall i :: 0 <= i < |items| ==> HasType(e, items[i])
      modifies this
      ensures value == old(value) + SumSizes(e, items)
      decreases Rank(e), 2
    {
      ghost var start := value;
      for i := 0 to |items|
        invariant value + SumSizes(e, items[i..]) == start + SumSizes(e, items)
      {
        assert items[i..][1..] == items[i + 1..];
        Add(e, items[i]);
      }
    }
  }

  /** Measure, allocate, write. The object is at the start of the buffer whenever its moves are small and it
      was not measured too small. Of an exact type, the buffer holds exactly the object if and only if every
      step of the measuring fits an int; otherwise it is too small, or a negative size that no allocation
      has. */
  method Pack(ty: Ty, o: Obj) returns (ok: bool, buf: array<Byte>)
    requires HasType(ty, o)
    ensures fresh(buf)
    ensures SmallMoves(ty, o) && |Serialize(ty, o)| <= SerializeSize(ty, o)
      ==> ok && buf.Length == SerializeSize(ty, o) && There(buf[..], 0, Serialize(ty, o))
    ensures Exact(ty) ==> (ok && buf[..] == Serialize(ty, o) <==> SmallSteps(ty, o))
  {
    PackIsExact(ty, o);
    var helper := new SizeHelper();
    helper.Add(ty, o);
    if helper.value < 0 {
      return false, new Byte[0];
    }
    buf := new Byte[helper.value](i => 0);
    var out := new Serializer(buf);
    ok := out.Write(ty, o);
  }

  /** Small steps make small moves and the right size, and without them the size is wrong. */
  lemma PackIsExact(ty: Ty, o: Obj)
    requires HasType(ty, o)
    ensures Exact(ty) ==> (SmallSteps(ty, o) <==> SerializeSize(ty, o) == |Serialize(ty, o)|)
    ensures Exact(ty) && SmallSteps(ty, o) ==> SmallMoves(ty, o)
  {
    if Exact(ty) {
      SizeIsExact(ty, o);
      if SmallSteps(ty, o) {
        SmallStepsAreSmallMoves(ty, o);
      }
    }
  }

  lemma {:induction false} NoCStrIsExact(ty: Ty)
    requires !HasCStr(ty)
    ensures Exact(ty)
    decreases Rank(ty)
  {
    if ty.Pair? {
      NoCStrIsExact(ty.first);
      NoCStrIsExact(ty.second);
    } else if Container(ty) {
      NoCStrIsExact(ElemType(ty));
    }
  }

  /** What can be read back is of an exact type. */
  lemma {:induction false} ReadableIsExact(ty: Ty)
    requires Readable(ty)
    ensures Exact(ty)
    decreases Rank(ty)
  {
    if ty.Pair? {
      ReadableIsExact(ty.first);
      ReadableIsExact(ty.second);
    } else if Container(ty) {
      NoCStrIsExact(ElemType(ty));
    }
  }

  /** Measure, allocate, write, read: with small steps the object is merged into the target. */
  method Transfer(ty: Ty, o: Obj, t: Value) returns (ok: bool, v: Value)
    requires TypeOK(ty) && HasType(ty, o) && Readable(ty) && Target(ty, t)
    ensures Target(ty, ValueOf(ty, o))
    ensures SmallSteps(ty, o) ==> ok && v == Merge(ty, t, ValueOf(ty, o))
  {
    ValueIsTarget(ty, o);
    ReadableIsExact(ty);
    PackIsExact(ty, o);
    var buf;
    v := t;
    ok, buf := Pack(ty, o);
    if ok {
      if SmallSteps(ty, o) {
        ReadIntoOfWritten(ty, t, o, buf[..], 0);
      }
      var inp := new Unserializer(buf[..]);
      ok, v := inp.Into(ty, t);
    }
  }
}
