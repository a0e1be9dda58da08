/**
 The cursors of the serializer and the unserializer move by an int. A step that an int cannot hold
 leaves the cursor short of its place, and from there on the wrong bytes are written or read. Reading
 is seen here as the list of elements taken from a buffer, in order; what they are worth is merged
 into the target.
 */
module SerialNarrow {
  import opened Bytes
  import opened ByteOrder
  import opened Division
  import opened Serial
  import opened SerialSize

  /** What was read and where the cursor is then, or a read outside the buffer. */
  datatype Moved<+T> = Outside | Moved(value: T, pos: int)

  // ---------------------------------------------------------------- where the cursor goes

  /** How far writing or reading an object moves the cursor. */
  function CursorMove(ty: Ty, o: Obj): int
    requires HasType(ty, o)
    decreases Rank(ty), 1
  {
    match ty
    case Pod(size) => Step(size)
    case Str(_) => SIZE_BYTES + Step(|o.bytes|)
    case CStr => Step(|o.bytes| + 1)
    case Pair(a, b) => CursorMove(a, o.a) + CursorMove(b, o.b)
    case _ => SIZE_BYTES + CursorMoves(ElemType(ty), o.items)
  }

  function CursorMoves(e: Ty, items: seq<Obj>): int
    requires forall i :: 0 <= i < |items| ==> HasType(e, items[i])
    decreases Rank(e), 2, |items|
  {
    if items == [] then 0 else CursorMove(e, items[0]) + CursorMoves(e, items[1..])
  }

  /** Every number, string and C string is short enough for an int. */
  ghost predicate SmallMoves(ty: Ty, o: Obj)
    requires HasType(ty, o)
    decreases Rank(ty), 1
  {
    match ty
    case Pod(size) => size < INT_LIMIT
    case Str(_) => |o.bytes| < INT_LIMIT
    case CStr => |o.bytes| + 1 < INT_LIMIT
    case Pair(a, b) => SmallMoves(a, o.a) && SmallMoves(b, o.b)
    case _ => AllSmallMoves(ElemType(ty), o.items)
  }

  ghost predicate AllSmallMoves(e: Ty, items: seq<Obj>)
    requires forall i :: 0 <= i < |items| ==> HasType(e, items[i])
    decreases Rank(e), 2, |items|
  {
    items == [] || (SmallMoves(e, items[0]) && AllSmallMoves(e, items[1..]))
  }

  /** The cursor never gets too far, and it gets behind the object exactly when every move is small. */
  lemma {:induction false} MoveIff(ty: Ty, o: Obj)
    requires HasType(ty, o)
    ensures CursorMove(ty, o) <= |Serialize(ty, o)|
    ensures CursorMove(ty, o) == |Serialize(ty, o)| <==> SmallMoves(ty, o)
    decreases Rank(ty), 1
  {
    match ty
    case Pod(size) => StepIff(size);
    case Str(_) => StepIff(|o.bytes|);
    case CStr => StepIff(|o.bytes| + 1);
    case Pair(a, b) =>
      MoveIff(a, o.a);
      MoveIff(b, o.b);
    case _ => MovesIff(ElemType(ty), o.items);
  }

  lemma {:induction false} MovesIff(e: Ty, items: seq<Obj>)
    requires forall i :: 0 <= i < |items| ==> HasType(e, items[i])
    ensures CursorMoves(e, items) <= |SerializeAll(e, items)|
    ensures CursorMoves(e, items) == |SerializeAll(e, items)| <==> AllSmallMoves(e, items)
    decreases Rank(e), 2, |items|
  {
    if items != [] {
      MoveIff(e, items[0]);
      MovesIff(e, items[1..]);
    }
  }

  // ---------------------------------------------------------------- reading the elements

  function TakeAt(buf: Bytes, pos: int, n: nat): Option<Bytes> {
    if 0 <= pos && pos + n <= |buf| then Some(buf[pos..pos + n]) else None
  }

  function CountAt(buf: Bytes, pos: int): Moved<nat> {
    match TakeAt(buf, pos, SIZE_BYTES)
    case None => Outside
    case Some(bs) => Moved(HostValue(bs), pos + SIZE_BYTES)
  }

  function Parse(ty: Ty, buf: Bytes, pos: int): Moved<Obj>
    decreases Rank(ty), 1
  {
    match ty
    case Pod(size) =>
      (match TakeAt(buf, pos, size)
       case None => Outside
       case Some(bs) => Moved(Raw(bs), pos + Step(size)))
    case Str(width) =>
      (match CountAt(buf, pos)
       case Outside => Outside
       case Moved(n, p) =>
         match TakeAt(buf, p, n * width)
         case None => Outside
         case Some(bs) => Moved(Raw(bs), p + Step(n * width)))
    case CStr =>
      if !(0 <= pos < |buf|) then Outside
      else
        var n := Strlen(buf[pos..]);
        if pos + n == |buf| then Outside else Moved(Raw(buf[pos..pos + n]), pos + Step(n + 1))
    case Pair(a, b) =>
      (match Parse(a, buf, pos)
       case Outside => Outside
       case Moved(x, p) =>
         match Parse(b, buf, p)
         case Outside => Outside
         case Moved(y, p1) => Moved(Two(x, y), p1))
    case _ =>
      match CountAt(buf, pos)
      case Outside => Outside
      case Moved(n, p) =>
        match ParseAll(ElemType(ty), n, buf, p)
        case Outside => Outside
        case Moved(items, p1) => Moved(Elems(items), p1)
  }

  function ParseAll(e: Ty, n: nat, buf: Bytes, pos: int): Moved<seq<Obj>>
    decreases Rank(e), 2, n
  {
    if n == 0 then Moved([], pos)
    else
      match Parse(e, buf, pos)
      case Outside => Outside
      case Moved(o, p) =>
        match ParseAll(e, n - 1, buf, p)
        case Outside => Outside
        case Moved(items, p1) => Moved([o] + items, p1)
  }

  lemma CountFits(buf: Bytes, pos: int)
    requires CountAt(buf, pos).Moved?
    ensures CountAt(buf, pos).value < Pow256(SIZE_BYTES)
    ensures Host(CountAt(buf, pos).value, SIZE_BYTES) == buf[pos..pos + SIZE_BYTES]
  {
    HostOfValue(buf[pos..pos + SIZE_BYTES]);
  }

  lemma WholeCharactersRead(n: nat, width: nat)
    requires width > 0
    ensures n * width % width == 0 && n * width / width == n
  {
    QuotientIsUnique(n * width, width, n, 0);
  }

  /** The bytes are in the buffer at that place. */
  predicate There(buf: Bytes, pos: int, bs: Bytes) {
    0 <= pos && pos + |bs| <= |buf| && buf[pos..pos + |bs|] == bs
  }

  lemma ThereBoth(buf: Bytes, pos: int, a: Bytes, b: Bytes)
    ensures There(buf, pos, a + b) <==> There(buf, pos, a) && There(buf, pos + |a|, b)
  {
    if There(buf, pos, a + b) {
      assert buf[pos..pos + |a|] == (a + b)[..|a|] && buf[pos + |a|..pos + |a| + |b|] == (a + b)[|a|..];
    }
    if There(buf, pos, a) && There(buf, pos + |a|, b) {
      assert buf[pos..pos + |a + b|] == buf[pos..pos + |a|] + buf[pos + |a|..pos + |a| + |b|];
    }
  }

  /** Whatever the buffer holds, what is read is an object of the type, and the cursor moves as far as
      writing that object would move it. */
  lemma {:induction false} ParseMoves(ty: Ty, buf: Bytes, pos: int)
    requires TypeOK(ty) && Parse(ty, buf, pos).Moved?
    ensures HasType(ty, Parse(ty, buf, pos).value)
    ensures Parse(ty, buf, pos).pos == pos + CursorMove(ty, Parse(ty, buf, pos).value)
    decreases Rank(ty), 1
  {
    if ty.Pair? {
      ParseMoves(ty.first, buf, pos);
      ParseMoves(ty.second, buf, Parse(ty.first, buf, pos).pos);
    } else if Container(ty) {
      ElemsMove(ty, buf, pos);
    } else {
      ParseLeafMoves(ty, buf, pos);
    }
  }

  lemma {:induction false} ElemsMove(ty: Ty, buf: Bytes, pos: int)
    requires Container(ty) && TypeOK(ty) && Parse(ty, buf, pos).Moved?
    ensures HasType(ty, Parse(ty, buf, pos).value)
    ensures Parse(ty, buf, pos).pos == pos + CursorMove(ty, Parse(ty, buf, pos).value)
    decreases Rank(ty), 0
  {
    var e, n := ElemType(ty), CountAt(buf, pos).value;
    CountFits(buf, pos);
    ParseAllMoves(e, n, buf, pos + SIZE_BYTES);
    ElemsHaveType(ty, ParseAll(e, n, buf, pos + SIZE_BYTES).value);
  }

  lemma ElemsHaveType(ty: Ty, items: seq<Obj>)
    requires Container(ty) && |items| < Pow256(SIZE_BYTES)
    requires AllHaveType(ElemType(ty), items)
    ensures HasType(ty, Elems(items))
    ensures CursorMove(ty, Elems(items)) == SIZE_BYTES + CursorMoves(ElemType(ty), items)
    ensures Serialize(ty, Elems(items)) == Host(|items|, SIZE_BYTES) + SerializeAll(ElemType(ty), items)
    ensures SmallMoves(ty, Elems(items)) <==> AllSmallMoves(ElemType(ty), items)
  {
  }

  lemma ItemsHaveType(ty: Ty, items: seq<Obj>)
    requires Container(ty) && HasType(ty, Elems(items))
    ensures |items| < Pow256(SIZE_BYTES) && AllHaveType(ElemType(ty), items)
  {
  }

  lemma PairHasType(ty: Ty, o: Obj)
    requires ty.Pair? && HasType(ty, o)
    ensures o.Two? && HasType(ty.first, o.a) && HasType(ty.second, o.b)
    ensures Serialize(ty, o) == Serialize(ty.first, o.a) + Serialize(ty.second, o.b)
    ensures SmallMoves(ty, o) <==> SmallMoves(ty.first, o.a) && SmallMoves(ty.second, o.b)
  {
  }

  /** A string read from its count and its bytes. */
  lemma StrIsRead(width: nat, n: nat, bs: Bytes)
    requires width > 0 && n < Pow256(SIZE_BYTES) && |bs| == n * width
    ensures HasType(Str(width), Raw(bs))
    ensures CursorMove(Str(width), Raw(bs)) == SIZE_BYTES + Step(|bs|)
    ensures Serialize(Str(width), Raw(bs)) == Host(n, SIZE_BYTES) + bs
  {
    WholeCharactersRead(n, width);
  }

  lemma StrIsParsed(width: nat, buf: Bytes, pos: int)
    requires Parse(Str(width), buf, pos).Moved?
    ensures CountAt(buf, pos).Moved?
    ensures var n, o := CountAt(buf, pos).value, Parse(Str(width), buf, pos).value;
      && o.Raw? && |o.bytes| == n * width && Parse(Str(width), buf, pos).pos == pos + SIZE_BYTES + Step(|o.bytes|)
      && There(buf, pos + SIZE_BYTES, o.bytes)
  {
  }

  lemma ParseLeafMoves(ty: Ty, buf: Bytes, pos: int)
    requires TypeOK(ty) && Parse(ty, buf, pos).Moved? && (ty.Pod? || ty.Str? || ty.CStr?)
    ensures HasType(ty, Parse(ty, buf, pos).value)
    ensures Parse(ty, buf, pos).pos == pos + CursorMove(ty, Parse(ty, buf, pos).value)
    ensures There(buf, pos, Serialize(ty, Parse(ty, buf, pos).value))
  {
    if ty.Str? {
      ParseStrMoves(ty.width, buf, pos);
    } else if ty.CStr? {
      TextIsRead(buf, pos);
    }
  }

  lemma ParseStrMoves(width: nat, buf: Bytes, pos: int)
    requires width > 0 && Parse(Str(width), buf, pos).Moved?
    ensures var r := Parse(Str(width), buf, pos);
      && HasType(Str(width), r.value) && r.pos == pos + CursorMove(Str(width), r.value)
      && There(buf, pos, Serialize(Str(width), r.value))
  {
    var r, n := Parse(Str(width), buf, pos), CountAt(buf, pos).value;
    StrIsParsed(width, buf, pos);
    CountFits(buf, pos);
    hide Parse, HasType, CursorMove, Serialize;
    StrIsRead(width, n, r.value.bytes);
    ThereBoth(buf, pos, Host(n, SIZE_BYTES), r.value.bytes);
  }

  lemma TextIsRead(buf: Bytes, pos: int)
    requires Parse(CStr, buf, pos).Moved?
    ensures var r := Parse(CStr, buf, pos);
      && HasType(CStr, r.value) && r.pos == pos + CursorMove(CStr, r.value)
      && There(buf, pos, Serialize(CStr, r.value))
  {
    var n := Strlen(buf[pos..]);
    assert buf[pos..][..n] == buf[pos..pos + n] && buf[pos..][n] == buf[pos + n] == 0;
    ThereBoth(buf, pos, buf[pos..pos + n], [0]);
  }

  lemma {:induction false} ParseAllMoves(e: Ty, n: nat, buf: Bytes, pos: int)
    requires TypeOK(e) && ParseAll(e, n, buf, pos).Moved?
    ensures |ParseAll(e, n, buf, pos).value| == n
    ensures AllHaveType(e, ParseAll(e, n, buf, pos).value)
    ensures ParseAll(e, n, buf, pos).pos == pos + CursorMoves(e, ParseAll(e, n, buf, pos).value)
    decreases Rank(e), 2, n
  {
    if n > 0 {
      ParseMoves(e, buf, pos);
      var p := Parse(e, buf, pos).pos;
      ParseAllMoves(e, n - 1, buf, p);
      var items := ParseAll(e, n - 1, buf, p).value;
      NextIsParsed(e, n, buf, pos, Parse(e, buf, pos).value, p, items, ParseAll(e, n - 1, buf, p).pos);
      MovesOfCons(e, Parse(e, buf, pos).value, items);
    }
  }

  // ---------------------------------------------------------------- reading what was written

  lemma CountThere(buf: Bytes, pos: int, n: nat)
    requires n < Pow256(SIZE_BYTES) && There(buf, pos, Host(n, SIZE_BYTES))
    ensures CountAt(buf, pos) == Moved(n, pos + SIZE_BYTES)
  {
    HostRoundTrip(n, SIZE_BYTES);
  }

  lemma TextThere(buf: Bytes, pos: int, b: Bytes)
    requires 0 !in b && There(buf, pos, b + [0])
    ensures Parse(CStr, buf, pos) == Moved(Raw(b), pos + Step(|b| + 1))
  {
    ThereBoth(buf, pos, b, [0]);
    var r := buf[pos + |b| + 1..];
    assert buf[pos..] == b + [0] + r;
    StrlenOfWritten(b, r);
  }

  lemma PairIsParsed(ty: Ty, buf: Bytes, pos: int, x: Obj, p: int, y: Obj, p1: int)
    requires ty.Pair? && Parse(ty.first, buf, pos) == Moved(x, p) && Parse(ty.second, buf, p) == Moved(y, p1)
    ensures Parse(ty, buf, pos) == Moved(Two(x, y), p1)
  {
  }

  lemma ElemsAreParsed(ty: Ty, buf: Bytes, pos: int, n: nat, p: int, items: seq<Obj>, p1: int)
    requires Container(ty) && CountAt(buf, pos) == Moved(n, p)
    requires ParseAll(ElemType(ty), n, buf, p) == Moved(items, p1)
    ensures Parse(ty, buf, pos) == Moved(Elems(items), p1)
  {
  }

  lemma NextIsParsed(e: Ty, n: nat, buf: Bytes, pos: int, o: Obj, p: int, items: seq<Obj>, p1: int)
    requires n > 0 && Parse(e, buf, pos) == Moved(o, p) && ParseAll(e, n - 1, buf, p) == Moved(items, p1)
    ensures ParseAll(e, n, buf, pos) == Moved([o] + items, p1)
  {
  }

  lemma NextWasParsed(e: Ty, n: nat, buf: Bytes, pos: int)
    requires n > 0 && ParseAll(e, n, buf, pos).Moved?
    ensures Parse(e, buf, pos).Moved?
    ensures var r := ParseAll(e, n - 1, buf, Parse(e, buf, pos).pos);
      r.Moved? && ParseAll(e, n, buf, pos) == Moved([Parse(e, buf, pos).value] + r.value, r.pos)
  {
  }

  lemma FirstAndRest(e: Ty, items: seq<Obj>)
    requires items != [] && AllHaveType(e, items)
    ensures HasType(e, items[0]) && AllHaveType(e, items[1..]) && items == [items[0]] + items[1..]
  {
  }

  lemma EndIsInside(buf: Bytes, pos: int, bs: Bytes)
    requires There(buf, pos, bs)
    ensures 0 <= pos <= pos + |bs| <= |buf|
  {
  }

  lemma MovesOfCons(e: Ty, o: Obj, items: seq<Obj>)
    requires HasType(e, o) && AllHaveType(e, items)
    ensures AllHaveType(e, [o] + items)
    ensures CursorMoves(e, [o] + items) == CursorMove(e, o) + CursorMoves(e, items)
    ensures SerializeAll(e, [o] + items) == Serialize(e, o) + SerializeAll(e, items)
    ensures AllSmallMoves(e, [o] + items) <==> SmallMoves(e, o) && AllSmallMoves(e, items)
  {
    assert ([o] + items)[1..] == items;
  }

  /** With small moves the elements read are those written, and the cursor is behind them. */
  lemma {:induction false} ParseOfWritten(ty: Ty, o: Obj, buf: Bytes, pos: int)
    requires HasType(ty, o) && SmallMoves(ty, o) && There(buf, pos, Serialize(ty, o))
    ensures Parse(ty, buf, pos) == Moved(o, pos + |Serialize(ty, o)|)
    decreases Rank(ty), 1
  {
    if ty.Pair? {
      PairOfWritten(ty, o, buf, pos);
    } else if Container(ty) {
      ElemsOfWritten(ty, o.items, buf, pos);
    } else {
      LeafOfWritten(ty, o, buf, pos);
    }
  }

  lemma {:induction false} PairOfWritten(ty: Ty, o: Obj, buf: Bytes, pos: int)
    requires ty.Pair? && HasType(ty, o) && SmallMoves(ty, o) && There(buf, pos, Serialize(ty, o))
    ensures Parse(ty, buf, pos) == Moved(o, pos + |Serialize(ty, o)|)
    decreases Rank(ty), 0
  {
    hide Serialize, SmallMoves, HasType, Parse, There;
    PairHasType(ty, o);
    var a, b := Serialize(ty.first, o.a), Serialize(ty.second, o.b);
    ThereBoth(buf, pos, a, b);
    ParseOfWritten(ty.first, o.a, buf, pos);
    ParseOfWritten(ty.second, o.b, buf, pos + |a|);
    PairIsParsed(ty, buf, pos, o.a, pos + |a|, o.b, pos + |a| + |b|);
  }

  lemma LeafOfWritten(ty: Ty, o: Obj, buf: Bytes, pos: int)
    requires HasType(ty, o) && SmallMoves(ty, o) && There(buf, pos, Serialize(ty, o))
    requires ty.Pod? || ty.Str? || ty.CStr?
    ensures Parse(ty, buf, pos) == Moved(o, pos + |Serialize(ty, o)|)
  {
    if ty.Pod? {
      StepIff(ty.size);
    } else if ty.Str? {
      var n := |o.bytes| / ty.width;
      WholeCharacters(|o.bytes|, ty.width);
      ThereBoth(buf, pos, Host(n, SIZE_BYTES), o.bytes);
      CountThere(buf, pos, n);
      StepIff(|o.bytes|);
    } else {
      TextThere(buf, pos, o.bytes);
      StepIff(|o.bytes| + 1);
    }
  }

  lemma {:induction false} ElemsOfWritten(ty: Ty, items: seq<Obj>, buf: Bytes, pos: int)
    requires Container(ty) && HasType(ty, Elems(items)) && SmallMoves(ty, Elems(items))
    requires There(buf, pos, Serialize(ty, Elems(items)))
    ensures Parse(ty, buf, pos) == Moved(Elems(items), pos + |Serialize(ty, Elems(items))|)
    decreases Rank(ty), 0
  {
    hide Serialize, SerializeAll, SmallMoves, AllSmallMoves, HasType, Parse, ParseAll, There;
    var e := ElemType(ty);
    ItemsHaveType(ty, items);
    ElemsHaveType(ty, items);
    var all := SerializeAll(e, items);
    ThereBoth(buf, pos, Host(|items|, SIZE_BYTES), all);
    CountThere(buf, pos, |items|);
    ParseAllOfWritten(e, items, buf, pos + SIZE_BYTES);
    ElemsAreParsed(ty, buf, pos, |items|, pos + SIZE_BYTES, items, pos + SIZE_BYTES + |all|);
  }

  lemma {:induction false} ParseAllOfWritten(e: Ty, items: seq<Obj>, buf: Bytes, pos: int)
    requires AllHaveType(e, items) && AllSmallMoves(e, items) && There(buf, pos, SerializeAll(e, items))
    ensures ParseAll(e, |items|, buf, pos) == Moved(items, pos + |SerializeAll(e, items)|)
    decreases Rank(e), 2, |items|
  {
    if items != [] {
      hide Serialize, SerializeAll, SmallMoves, AllSmallMoves, HasType, AllHaveType, Parse, ParseAll, There;
      FirstAndRest(e, items);
      FirstOfWritten(e, items, buf, pos);
      ParseAllOfWritten(e, items[1..], buf, Parse(e, buf, pos).pos);
      NextWasWritten(e, items, buf, pos);
    }
  }

  lemma {:induction false} FirstOfWritten(e: Ty, items: seq<Obj>, buf: Bytes, pos: int)
    requires items != [] && AllHaveType(e, items)
    requires AllSmallMoves(e, items) && There(buf, pos, SerializeAll(e, items))
    ensures items == [items[0]] + items[1..] && AllHaveType(e, items[1..]) && AllSmallMoves(e, items[1..])
    ensures var r := Parse(e, buf, pos);
      && r.Moved? && r.value == items[0] && There(buf, r.pos, SerializeAll(e, items[1..]))
      && r.pos + |SerializeAll(e, items[1..])| == pos + |SerializeAll(e, items)|
    decreases Rank(e), 2, 0
  {
    hide Serialize, SerializeAll, SmallMoves, AllSmallMoves, HasType, Parse, There;
    FirstAndRest(e, items);
    MovesOfCons(e, items[0], items[1..]);
    ThereBoth(buf, pos, Serialize(e, items[0]), SerializeAll(e, items[1..]));
    ParseOfWritten(e, items[0], buf, pos);
  }

  /** The other elements follow the first. */
  lemma NextWasWritten(e: Ty, items: seq<Obj>, buf: Bytes, pos: int)
    requires items != [] && Parse(e, buf, pos).Moved? && Parse(e, buf, pos).value == items[0]
    requires ParseAll(e, |items| - 1, buf, Parse(e, buf, pos).pos).Moved?
    requires ParseAll(e, |items| - 1, buf, Parse(e, buf, pos).pos).value == items[1..]
    ensures ParseAll(e, |items|, buf, pos) == Moved(items, ParseAll(e, |items| - 1, buf, Parse(e, buf, pos).pos).pos)
  {
    hide Parse;
    assert items == [items[0]] + items[1..];
  }

  /** And only then: of what was written, the elements are read back in order with the cursor behind
      them if and only if every move is small. */
  lemma ReadBackIff(ty: Ty, o: Obj, buf: Bytes, pos: int)
    requires TypeOK(ty) && HasType(ty, o) && There(buf, pos, Serialize(ty, o))
    ensures Parse(ty, buf, pos) == Moved(o, pos + |Serialize(ty, o)|) <==> SmallMoves(ty, o)
  {
    MoveIff(ty, o);
    if SmallMoves(ty, o) {
      ParseOfWritten(ty, o, buf, pos);
    }
    if Parse(ty, buf, pos) == Moved(o, pos + |Serialize(ty, o)|) {
      ParseMoves(ty, buf, pos);
    }
  }

  /** A string of 2^31 bytes: it is written and read whole, but then the cursor stands 2^32 bytes before the
      place it should be at, and the size it is given is negative. */
  lemma LongStringIsMisplaced()
    ensures var o := Raw(seq(INT_LIMIT, i => 0));
      && HasType(Str(1), o) && !SmallMoves(Str(1), o)
      && Parse(Str(1), Serialize(Str(1), o), 0) == Moved(o, SIZE_BYTES - INT_LIMIT)
      && SerializeSize(Str(1), o) == SIZE_BYTES - INT_LIMIT
  {
    var n, o := INT_LIMIT, Raw(seq(INT_LIMIT, i => 0));
    assert Pow256(4) <= Pow256(8);
    var s := Host(n, SIZE_BYTES) + o.bytes;
    assert n / 1 == n && n % 1 == 0 && n * 1 == n;
    HostRoundTrip(n, SIZE_BYTES);
    assert s[..SIZE_BYTES] == Host(n, SIZE_BYTES) && s[SIZE_BYTES..SIZE_BYTES + n] == o.bytes;
    assert CountAt(s, 0) == Moved(n, SIZE_BYTES);
  }

  /** What is read with small moves stood in the buffer as it would be written. */
  lemma {:induction false} ParseSound(ty: Ty, buf: Bytes, pos: int)
    requires TypeOK(ty) && Parse(ty, buf, pos).Moved? && HasType(ty, Parse(ty, buf, pos).value)
    requires SmallMoves(ty, Parse(ty, buf, pos).value)
    ensures There(buf, pos, Serialize(ty, Parse(ty, buf, pos).value))
    decreases Rank(ty), 1
  {
    var o := Parse(ty, buf, pos).value;
    if ty.Pair? {
      var p := Parse(ty.first, buf, pos).pos;
      ParseMoves(ty.first, buf, pos);
      ParseSound(ty.first, buf, pos);
      MoveIff(ty.first, o.a);
      ParseSound(ty.second, buf, p);
      ThereBoth(buf, pos, Serialize(ty.first, o.a), Serialize(ty.second, o.b));
    } else if Container(ty) {
      ElemsSound(ty, buf, pos);
    } else {
      ParseLeafMoves(ty, buf, pos);
    }
  }

  lemma {:induction false} ElemsSound(ty: Ty, buf: Bytes, pos: int)
    requires Container(ty) && TypeOK(ty) && Parse(ty, buf, pos).Moved? && HasType(ty, Parse(ty, buf, pos).value)
    requires SmallMoves(ty, Parse(ty, buf, pos).value)
    ensures There(buf, pos, Serialize(ty, Parse(ty, buf, pos).value))
    decreases Rank(ty), 0
  {
    var e, n, o := ElemType(ty), CountAt(buf, pos).value, Parse(ty, buf, pos).value;
    CountFits(buf, pos);
    ParseAllMoves(e, n, buf, pos + SIZE_BYTES);
    ElemsHaveType(ty, o.items);
    hide HasType, SmallMoves, AllSmallMoves;
    ParseAllSound(e, n, buf, pos + SIZE_BYTES);
    ThereBoth(buf, pos, Host(n, SIZE_BYTES), SerializeAll(e, o.items));
  }

  lemma {:induction false} ParseAllSound(e: Ty, n: nat, buf: Bytes, pos: int)
    requires TypeOK(e) && ParseAll(e, n, buf, pos).Moved? && 0 <= pos <= |buf|
    requires AllHaveType(e, ParseAll(e, n, buf, pos).value)
    requires AllSmallMoves(e, ParseAll(e, n, buf, pos).value)
    ensures There(buf, pos, SerializeAll(e, ParseAll(e, n, buf, pos).value))
    decreases Rank(e), 2, n
  {
    hide Serialize, SerializeAll, SmallMoves, AllSmallMoves, HasType, TypeOK, Parse, ParseAll, There;
    if n == 0 {
      NoneIsThere(e, buf, pos);
    } else {
      ParsedInParts(e, n, buf, pos);
      var p := Parse(e, buf, pos).pos;
      ParseSound(e, buf, pos);
      EndIsInside(buf, pos, Serialize(e, Parse(e, buf, pos).value));
      ParseAllSound(e, n - 1, buf, p);
      ThereBoth(buf, pos, Serialize(e, Parse(e, buf, pos).value), SerializeAll(e, ParseAll(e, n - 1, buf, p).value));
    }
  }

  lemma NoneIsThere(e: Ty, buf: Bytes, pos: int)
    requires 0 <= pos <= |buf|
    ensures There(buf, pos, SerializeAll(e, ParseAll(e, 0, buf, pos).value))
  {
  }

  /** The first element and the others, all of small moves. */
  lemma ParsedInParts(e: Ty, n: nat, buf: Bytes, pos: int)
    requires n > 0 && TypeOK(e) && ParseAll(e, n, buf, pos).Moved?
    requires AllHaveType(e, ParseAll(e, n, buf, pos).value)
    requires AllSmallMoves(e, ParseAll(e, n, buf, pos).value)
    ensures var r := Parse(e, buf, pos);
      && r.Moved? && HasType(e, r.value) && SmallMoves(e, r.value) && r.pos == pos + |Serialize(e, r.value)|
      && var r1 := ParseAll(e, n - 1, buf, r.pos);
      && r1.Moved? && AllHaveType(e, r1.value) && AllSmallMoves(e, r1.value)
      && SerializeAll(e, ParseAll(e, n, buf, pos).value) == Serialize(e, r.value) + SerializeAll(e, r1.value)
  {
    NextWasParsed(e, n, buf, pos);
    var o, p := Parse(e, buf, pos).value, Parse(e, buf, pos).pos;
    ParseMoves(e, buf, pos);
    ParseAllMoves(e, n - 1, buf, p);
    hide Serialize, SerializeAll, SmallMoves, AllSmallMoves, HasType, Parse, ParseAll, CursorMove, CursorMoves;
    MovesOfCons(e, o, ParseAll(e, n - 1, buf, p).value);
    MoveIff(e, o);
  }

  // ---------------------------------------------------------------- reading into a target

  /** The value a target is left with, and the cursor. */
  ghost function ReadInto(ty: Ty, t: Value, buf: Bytes, pos: int): (r: Moved<Value>)
    requires TypeOK(ty) && Target(ty, t)
    ensures r.Moved? ==> Target(ty, r.value)
  {
    match Parse(ty, buf, pos)
    case Outside => Outside
    case Moved(o, p) =>
      ParseMoves(ty, buf, pos);
      ValueIsTarget(ty, o);
      Moved(Merge(ty, t, ValueOf(ty, o)), p)
  }

  /** A read of small moves is the read of the merge law. */
  lemma ReadIntoIsUnserialize(ty: Ty, t: Value, buf: Bytes, pos: int)
    requires TypeOK(ty) && Target(ty, t) && Readable(ty) && Parse(ty, buf, pos).Moved?
    requires HasType(ty, Parse(ty, buf, pos).value) && SmallMoves(ty, Parse(ty, buf, pos).value)
    ensures ReadInto(ty, t, buf, pos).Moved? && 0 <= pos <= ReadInto(ty, t, buf, pos).pos <= |buf|
    ensures Unserialize(ty, t, buf[pos..]) == Good(ReadInto(ty, t, buf, pos).value, buf[ReadInto(ty, t, buf, pos).pos..])
  {
    hide Parse, HasType, TypeOK, Target, SmallMoves, CursorMove, Serialize, ValueOf, Merge, Unserialize;
    var o, p := Parse(ty, buf, pos).value, Parse(ty, buf, pos).pos;
    ParseMoves(ty, buf, pos);
    ParseSound(ty, buf, pos);
    MoveIff(ty, o);
    assert buf[pos..] == Serialize(ty, o) + buf[p..];
    MergeLaw(ty, t, o, buf[p..]);
  }

  /** What was written with small moves is merged into the target. */
  lemma ReadIntoOfWritten(ty: Ty, t: Value, o: Obj, buf: Bytes, pos: int)
    requires TypeOK(ty) && Target(ty, t) && HasType(ty, o) && SmallMoves(ty, o)
    requires There(buf, pos, Serialize(ty, o))
    ensures Target(ty, ValueOf(ty, o))
    ensures ReadInto(ty, t, buf, pos) == Moved(Merge(ty, t, ValueOf(ty, o)), pos + |Serialize(ty, o)|)
  {
    ParseOfWritten(ty, o, buf, pos);
    ValueIsTarget(ty, o);
  }

  /** Sizes measured step by step are right only if the cursor's steps are. */
  lemma {:induction false} SmallStepsAreSmallMoves(ty: Ty, o: Obj)
    requires HasType(ty, o) && Exact(ty) && SmallSteps(ty, o)
    ensures SmallMoves(ty, o)
    decreases Rank(ty), 1
  {
    if ty.Pair? {
      SmallStepsAreSmallMoves(ty.first, o.a);
      SmallStepsAreSmallMoves(ty.second, o.b);
    } else if Container(ty) {
      ContainerMoves(ty, o);
    }
  }

  lemma {:induction false} ContainerMoves(ty: Ty, o: Obj)
    requires Container(ty) && HasType(ty, o) && Exact(ty) && SmallSteps(ty, o)
    ensures SmallMoves(ty, o)
    decreases Rank(ty), 0
  {
    if !Shortcut(ty) {
      AllSmallStepsAreMoves(ElemType(ty), o.items);
    } else if o.items != [] {
      assert 1 * PerElement(ty) <= |o.items| * PerElement(ty);
      ShortcutMoves(ty, o.items);
    }
  }

  lemma {:induction false} ShortcutMoves(ty: Ty, items: seq<Obj>)
    requires Container(ty) && Shortcut(ty) && Exact(ty) && PerElement(ty) < INT_LIMIT
    requires AllHaveType(ElemType(ty), items)
    ensures AllSmallMoves(ElemType(ty), items)
    decreases |items|
  {
    if items != [] {
      ShortcutMove(ty, items[0]);
      ShortcutMoves(ty, items[1..]);
    }
  }

  lemma ShortcutMove(ty: Ty, x: Obj)
    requires Container(ty) && Shortcut(ty) && Exact(ty) && PerElement(ty) < INT_LIMIT && HasType(ElemType(ty), x)
    ensures SmallMoves(ElemType(ty), x)
  {
    ShortcutElement(ty);
  }

  lemma {:induction false} AllSmallStepsAreMoves(e: Ty, items: seq<Obj>)
    requires forall i :: 0 <= i < |items| ==> HasType(e, items[i])
    requires Exact(e) && AllSmallSteps(e, items)
    ensures AllSmallMoves(e, items)
    decreases Rank(e), 2, |items|
  {
    if items != [] {
      FirstIsSmall(e, items);
      SmallStepsAreSmallMoves(e, items[0]);
      AllSmallStepsAreMoves(e, items[1..]);
    }
  }
}
