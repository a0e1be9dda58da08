/**
 The generic serializer. A type is a tree of tags; a serializable object is seen through its
 iterators, so a container is the list of its elements in whatever order they come; the
 variable that is read into has a value in which sets and maps have no order.
 */
module Serial {
  import opened Bytes
  import opened ByteOrder

  datatype Ty =
    | Pod(size: nat)
    | Str(width: nat)                 // basic_string of width-byte characters
    | CStr                            // char*
    | Seq(elem: Ty)                   // vector, deque, list
    | Pair(first: Ty, second: Ty)
    | SetOf(elem: Ty)                 // set, unordered_set
    | MultisetOf(elem: Ty)            // multiset, unordered_multiset
    | MapOf(key: Ty, mapped: Ty)      // map, unordered_map
    | MultimapOf(key: Ty, mapped: Ty) // multimap, unordered_multimap

  datatype Obj =
    | Raw(bytes: Bytes)
    | Elems(items: seq<Obj>)
    | Two(a: Obj, b: Obj)

  datatype Value =
    | VRaw(bytes: Bytes)
    | VSeq(items: seq<Value>)
    | VPair(a: Value, b: Value)
    | VSet(elems: set<Value>)
    | VBag(bag: multiset<Value>)
    | VMap(m: map<Value, Value>)

  /** sizeof(size_t). */
  const SIZE_BYTES: nat := 8

  /** What an element of a container is serialized as. */
  function ElemType(ty: Ty): Ty
    requires Container(ty)
  {
    match ty
    case Seq(e) => e
    case SetOf(e) => e
    case MultisetOf(e) => e
    case MapOf(k, v) => Pair(k, v)
    case MultimapOf(k, v) => Pair(k, v)
  }

  predicate Container(ty: Ty) {
    ty.Seq? || ty.SetOf? || ty.MultisetOf? || ty.MapOf? || ty.MultimapOf?
  }

  /** A pair is no larger than the map it is an element of. */
  function Rank(ty: Ty): nat {
    match ty
    case Pod(_) => 0
    case Str(_) => 0
    case CStr => 0
    case Pair(a, b) => 1 + Rank(a) + Rank(b)
    case Seq(e) => 1 + Rank(e)
    case SetOf(e) => 1 + Rank(e)
    case MultisetOf(e) => 1 + Rank(e)
    case MapOf(k, v) => 2 + Rank(k) + Rank(v)
    case MultimapOf(k, v) => 2 + Rank(k) + Rank(v)
  }

  ghost predicate TypeOK(ty: Ty)
    decreases Rank(ty)
  {
    match ty
    case Pod(size) => size > 0
    case Str(width) => width > 0
    case CStr => true
    case Pair(a, b) => TypeOK(a) && TypeOK(b)
    case _ => TypeOK(ElemType(ty))
  }

  /** The objects of a type; characters are whole and C strings end at their first NUL. */
  ghost predicate HasType(ty: Ty, o: Obj)
    decreases Rank(ty)
  {
    match ty
    case Pod(size) => o.Raw? && |o.bytes| == size
    case Str(width) => o.Raw? && width > 0 && |o.bytes| % width == 0 && |o.bytes| / width < Pow256(SIZE_BYTES)
    case CStr => o.Raw? && 0 !in o.bytes
    case Pair(a, b) => o.Two? && HasType(a, o.a) && HasType(b, o.b)
    case _ => o.Elems? && |o.items| < Pow256(SIZE_BYTES)
              && forall i :: 0 <= i < |o.items| ==> HasType(ElemType(ty), o.items[i])
  }

  // ---------------------------------------------------------------- Serialize

  function Serialize(ty: Ty, o: Obj): Bytes
    requires HasType(ty, o)
    decreases Rank(ty), 1
  {
    match ty
    case Pod(_) => o.bytes
    case Str(width) => Host(|o.bytes| / width, SIZE_BYTES) + o.bytes
    case CStr => o.bytes + [0]
    case Pair(a, b) => Serialize(a, o.a) + Serialize(b, o.b)
    case _ => Host(|o.items|, SIZE_BYTES) + SerializeAll(ElemType(ty), o.items)
  }

  function SerializeAll(e: Ty, items: seq<Obj>): Bytes
    requires forall i :: 0 <= i < |items| ==> HasType(e, items[i])
    decreases Rank(e), 2, |items|
  {
    if items == [] then [] else Serialize(e, items[0]) + SerializeAll(e, items[1..])
  }

  // ---------------------------------------------------------------- what an object is worth

  /** Insertion into a map: a key that is there keeps its value. */
  function Insert(m: map<Value, Value>, k: Value, v: Value): map<Value, Value> {
    if k in m then m else m[k := v]
  }

  function ValueOf(ty: Ty, o: Obj): (v: Value)
    requires HasType(ty, o)
    decreases Rank(ty), 1
  {
    match ty
    case Pod(_) => VRaw(o.bytes)
    case Str(_) => VRaw(o.bytes)
    case CStr => VRaw(o.bytes)
    case Pair(a, b) => VPair(ValueOf(a, o.a), ValueOf(b, o.b))
    case Seq(e) => VSeq(Values(e, o.items))
    case SetOf(e) => VSet(ToSet(Values(e, o.items)))
    case MultisetOf(e) => VBag(multiset(Values(e, o.items)))
    case MapOf(k, v) => VMap(ToMap(map[], Values(Pair(k, v), o.items)))
    case MultimapOf(k, v) => VBag(multiset(Values(Pair(k, v), o.items)))
  }

  function ToSet(vs: seq<Value>): set<Value> {
    set x | x in vs
  }

  function Values(e: Ty, items: seq<Obj>): (vs: seq<Value>)
    requires forall i :: 0 <= i < |items| ==> HasType(e, items[i])
    ensures |vs| == |items|
    ensures forall i :: 0 <= i < |vs| ==> vs[i] == ValueOf(e, items[i])
    ensures e.Pair? ==> forall i :: 0 <= i < |vs| ==> vs[i].VPair?
    decreases Rank(e), 2, |items|
  {
    if items == [] then [] else [ValueOf(e, items[0])] + Values(e, items[1..])
  }

  function ToMap(m: map<Value, Value>, ps: seq<Value>): map<Value, Value>
    requires forall i :: 0 <= i < |ps| ==> ps[i].VPair?
    decreases |ps|
  {
    if ps == [] then m else ToMap(Insert(m, ps[0].a, ps[0].b), ps[1..])
  }

  // ---------------------------------------------------------------- targets

  /** A value-initialized variable. */
  function Default(ty: Ty): Value {
    match ty
    case Pod(size) => VRaw(seq(size, i => 0))
    case Str(_) => VRaw([])
    case CStr => VRaw([])
    case Pair(a, b) => VPair(Default(a), Default(b))
    case Seq(_) => VSeq([])
    case SetOf(_) => VSet({})
    case MultisetOf(_) => VBag(multiset{})
    case MapOf(_, _) => VMap(map[])
    case MultimapOf(_, _) => VBag(multiset{})
  }

  /** Every variable of a type has a value of its form; nothing else is asked of a target. */
  ghost predicate Target(ty: Ty, t: Value)
    decreases Rank(ty)
  {
    match ty
    case Pod(_) => t.VRaw?
    case Str(_) => t.VRaw?
    case CStr => t.VRaw?
    case Pair(a, b) => t.VPair? && Target(a, t.a) && Target(b, t.b)
    case Seq(e) => t.VSeq? && forall i :: 0 <= i < |t.items| ==> Target(e, t.items[i])
    case SetOf(_) => t.VSet?
    case MultisetOf(_) => t.VBag?
    case MapOf(_, _) => t.VMap?
    case MultimapOf(_, _) => t.VBag?
  }

  ghost predicate AllHaveType(e: Ty, items: seq<Obj>) {
    forall i :: 0 <= i < |items| ==> HasType(e, items[i])
  }

  ghost predicate AllTargets(e: Ty, ts: seq<Value>) {
    forall i :: 0 <= i < |ts| ==> Target(e, ts[i])
  }

  lemma {:induction false} DefaultIsTarget(ty: Ty)
    ensures Target(ty, Default(ty))
    decreases Rank(ty)
  {
    if ty.Pair? {
      DefaultIsTarget(ty.first);
      DefaultIsTarget(ty.second);
    }
  }

  /** vector::resize, deque::resize, list::resize. */
  function Resize(e: Ty, ts: seq<Value>, n: nat): (r: seq<Value>)
    requires forall i :: 0 <= i < |ts| ==> Target(e, ts[i])
    ensures |r| == n && forall i :: 0 <= i < n ==> Target(e, r[i])
  {
    DefaultIsTarget(e);
    seq(n, i requires 0 <= i < n => if i < |ts| then ts[i] else Default(e))
  }

  // ---------------------------------------------------------------- Unserialize

  predicate HasCStr(ty: Ty)
    decreases Rank(ty)
  {
    match ty
    case Pod(_) => false
    case Str(_) => false
    case CStr => true
    case Pair(a, b) => HasCStr(a) || HasCStr(b)
    case _ => HasCStr(ElemType(ty))
  }

  /** A C string inside a container would be copied through an uninitialized pointer. */
  predicate Readable(ty: Ty) {
    match ty
    case Pod(_) => true
    case Str(_) => true
    case CStr => true
    case Pair(a, b) => Readable(a) && Readable(b)
    case _ => !HasCStr(ElemType(ty))
  }

  /** Reads into the variable whose value is `t`; Bad when the source would run past its buffer. */
  function Unserialize(ty: Ty, t: Value, s: Bytes): (r: Read<Value>)
    requires Target(ty, t)
    ensures r.Good? ==> Target(ty, r.value)
    decreases Rank(ty), 1
  {
    match ty
    case Pod(size) => if |s| < size then Bad else Good(VRaw(s[..size]), s[size..])
    case Str(width) =>
      (match ReadSize(s)
       case Bad => Bad
       case Good(n, rest) =>
         if |rest| < n * width then Bad else Good(VRaw(rest[..n * width]), rest[n * width..]))
    case CStr =>
      var n := Strlen(s);
      if n == |s| then Bad else Good(VRaw(s[..n]), s[n + 1..])
    case Pair(a, b) =>
      (match Unserialize(a, t.a, s)
       case Bad => Bad
       case Good(va, rest) =>
         match Unserialize(b, t.b, rest)
         case Bad => Bad
         case Good(vb, rest1) => Good(VPair(va, vb), rest1))
    case Seq(e) =>
      (match ReadSize(s)
       case Bad => Bad
       case Good(n, rest) =>
         match UnserializeSeq(e, Resize(e, t.items, n), rest)
         case Bad => Bad
         case Good(vs, rest1) => Good(VSeq(vs), rest1))
    case _ =>
      match ReadAll(ElemType(ty), s)
      case Bad => Bad
      case Good(vs, rest) => Good(InsertAll(ty, t, vs), rest)
  }

  /** Every element inserted into a set, multiset, map or multimap. */
  function InsertAll(ty: Ty, t: Value, vs: seq<Value>): (r: Value)
    requires Container(ty) && !ty.Seq? && Target(ty, t)
    requires ElemType(ty).Pair? ==> forall i :: 0 <= i < |vs| ==> vs[i].VPair?
    ensures Target(ty, r)
  {
    if ty.SetOf? then VSet(t.elems + ToSet(vs))
    else if ty.MapOf? then VMap(ToMap(t.m, vs))
    else VBag(t.bag + multiset(vs))
  }

  function ReadSize(s: Bytes): (r: Read<nat>) {
    if |s| < SIZE_BYTES then Bad else Good(HostValue(s[..SIZE_BYTES]), s[SIZE_BYTES..])
  }

  function Strlen(s: Bytes): (n: nat)
    ensures n <= |s| && 0 !in s[..n] && (n < |s| ==> s[n] == 0)
  {
    if s == [] || s[0] == 0 then 0 else 1 + Strlen(s[1..])
  }

  /** Every element of a sequence is read into the element that is there. */
  function UnserializeSeq(e: Ty, ts: seq<Value>, s: Bytes): (r: Read<seq<Value>>)
    requires forall i :: 0 <= i < |ts| ==> Target(e, ts[i])
    ensures r.Good? ==> forall i :: 0 <= i < |r.value| ==> Target(e, r.value[i])
    decreases Rank(e), 2, |ts|
  {
    if ts == [] then Good([], s)
    else match Unserialize(e, ts[0], s)
      case Bad => Bad
      case Good(v, rest) =>
        match UnserializeSeq(e, ts[1..], rest)
        case Bad => Bad
        case Good(vs, rest1) => Good([v] + vs, rest1)
  }

  /** The elements of a set or map are each read into a new variable and then inserted. */
  function ReadAll(e: Ty, s: Bytes): (r: Read<seq<Value>>)
    ensures r.Good? && e.Pair? ==> forall i :: 0 <= i < |r.value| ==> r.value[i].VPair?
    decreases Rank(e), 3
  {
    match ReadSize(s)
    case Bad => Bad
    case Good(n, rest) =>
      DefaultIsTarget(e);
      UnserializeSeq(e, seq(n, i => Default(e)), rest)
  }

  // ---------------------------------------------------------------- the merge law

  /** What a variable holds after a value was read into it: numbers and strings are replaced,
      sequences resized and merged element by element, sets and multisets joined, and a map keeps
      its own value for a key it already has. */
  function Merge(ty: Ty, t: Value, v: Value): (r: Value)
    requires Target(ty, t) && Target(ty, v)
    ensures Target(ty, r)
    decreases Rank(ty), 1
  {
    match ty
    case Pod(_) => v
    case Str(_) => v
    case CStr => v
    case Pair(a, b) => VPair(Merge(a, t.a, v.a), Merge(b, t.b, v.b))
    case Seq(e) => VSeq(MergeAll(e, Resize(e, t.items, |v.items|), v.items))
    case SetOf(_) => VSet(t.elems + v.elems)
    case MultisetOf(_) => VBag(t.bag + v.bag)
    case MapOf(_, _) => VMap(v.m + t.m)
    case MultimapOf(_, _) => VBag(t.bag + v.bag)
  }

  function MergeAll(e: Ty, ts: seq<Value>, vs: seq<Value>): (r: seq<Value>)
    requires |ts| == |vs|
    requires forall i :: 0 <= i < |ts| ==> Target(e, ts[i]) && Target(e, vs[i])
    ensures |r| == |vs| && forall i :: 0 <= i < |r| ==> Target(e, r[i])
    decreases Rank(e), 2
  {
    seq(|vs|, i requires 0 <= i < |vs| => Merge(e, ts[i], vs[i]))
  }

  lemma {:induction false} ValueIsTarget(ty: Ty, o: Obj)
    requires HasType(ty, o)
    ensures Target(ty, ValueOf(ty, o))
    decreases Rank(ty)
  {
    match ty
    case Pair(a, b) =>
      ValueIsTarget(a, o.a);
      ValueIsTarget(b, o.b);
    case Seq(e) =>
      forall i | 0 <= i < |o.items| ensures Target(e, Values(e, o.items)[i]) {
        ValueIsTarget(e, o.items[i]);
      }
    case _ =>
  }

  /** Inserting pairs one by one keeps the old entries and adds what inserting into an empty map gives. */
  lemma {:induction false} ToMapIsUnion(m: map<Value, Value>, ps: seq<Value>)
    requires forall i :: 0 <= i < |ps| ==> ps[i].VPair?
    ensures ToMap(m, ps) == ToMap(map[], ps) + m
    decreases |ps|
  {
    if ps != [] {
      var k, v := ps[0].a, ps[0].b;
      ToMapIsUnion(Insert(m, k, v), ps[1..]);
      ToMapIsUnion(Insert(map[], k, v), ps[1..]);
    }
  }

  lemma {:induction false} MergeIntoDefault(ty: Ty, v: Value)
    requires Target(ty, v)
    ensures Target(ty, Default(ty)) && Merge(ty, Default(ty), v) == v
    decreases Rank(ty)
  {
    DefaultIsTarget(ty);
    match ty
    case Pair(a, b) =>
      MergeIntoDefault(a, v.a);
      MergeIntoDefault(b, v.b);
    case Seq(e) =>
      forall i | 0 <= i < |v.items| ensures Target(e, Default(e)) && Merge(e, Default(e), v.items[i]) == v.items[i] {
        MergeIntoDefault(e, v.items[i]);
      }
      assert Merge(ty, Default(ty), v).items == v.items;
    case _ =>
  }

  lemma ReadSizeOfWritten(n: nat, r: Bytes)
    requires n < Pow256(SIZE_BYTES)
    ensures ReadSize(Host(n, SIZE_BYTES) + r) == Good(n, r)
  {
    HostRoundTrip(n, SIZE_BYTES);
    assert (Host(n, SIZE_BYTES) + r)[..SIZE_BYTES] == Host(n, SIZE_BYTES);
  }

  lemma {:induction false} StrlenOfWritten(b: Bytes, r: Bytes)
    requires 0 !in b
    ensures Strlen(b + [0] + r) == |b|
  {
    if b != [] {
      assert (b + [0] + r)[1..] == b[1..] + [0] + r;
      StrlenOfWritten(b[1..], r);
    }
  }

  lemma WholeCharacters(n: nat, width: nat)
    requires width > 0 && n % width == 0
    ensures n / width * width == n
  {
  }

  lemma MergeLawStr(width: nat, t: Value, o: Obj, r: Bytes)
    requires HasType(Str(width), o) && Target(Str(width), t)
    ensures Unserialize(Str(width), t, Serialize(Str(width), o) + r) == Good(VRaw(o.bytes), r)
  {
    var n, rest := |o.bytes| / width, o.bytes + r;
    WholeCharacters(|o.bytes|, width);
    assert Serialize(Str(width), o) + r == Host(n, SIZE_BYTES) + rest;
    ReadSizeOfWritten(n, rest);
    assert rest[..n * width] == o.bytes && rest[n * width..] == r;
  }

  lemma MergeLawLeaf(ty: Ty, t: Value, o: Obj, r: Bytes)
    requires HasType(ty, o) && Target(ty, t) && (ty.Pod? || ty.Str? || ty.CStr?)
    ensures Unserialize(ty, t, Serialize(ty, o) + r) == Good(VRaw(o.bytes), r)
  {
    if ty.Str? {
      MergeLawStr(ty.width, t, o, r);
    } else if ty.CStr? {
      var s := o.bytes + [0] + r;
      StrlenOfWritten(o.bytes, r);
      assert s[..|o.bytes|] == o.bytes && s[|o.bytes| + 1..] == r;
    } else {
      assert (o.bytes + r)[..ty.size] == o.bytes;
    }
  }

  lemma UnserializePair(ty: Ty, t: Value, s: Bytes, va: Value, s1: Bytes, vb: Value, r: Bytes)
    requires ty.Pair? && Target(ty, t)
    requires Unserialize(ty.first, t.a, s) == Good(va, s1) && Unserialize(ty.second, t.b, s1) == Good(vb, r)
    ensures Unserialize(ty, t, s) == Good(VPair(va, vb), r)
  {
  }

  lemma UnserializeElements(ty: Ty, t: Value, s: Bytes, n: nat, s1: Bytes, vs: seq<Value>, r: Bytes)
    requires ty.Seq? && Target(ty, t) && ReadSize(s) == Good(n, s1)
    requires UnserializeSeq(ty.elem, Resize(ty.elem, t.items, n), s1) == Good(vs, r)
    ensures Unserialize(ty, t, s) == Good(VSeq(vs), r)
  {
  }

  /** Sets, multisets, maps and multimaps: what reading the elements gives is inserted into the target. */
  lemma UnserializeInserted(ty: Ty, t: Value, o: Obj, s: Bytes, r: Bytes)
    requires Container(ty) && !ty.Seq? && HasType(ty, o) && Target(ty, t) && Target(ty, ValueOf(ty, o))
    requires ReadAll(ElemType(ty), s) == Good(Values(ElemType(ty), o.items), r)
    ensures Unserialize(ty, t, s) == Good(Merge(ty, t, ValueOf(ty, o)), r)
  {
    InsertedIsMerge(ty, t, o);
  }

  lemma InsertedIsMerge(ty: Ty, t: Value, o: Obj)
    requires Container(ty) && !ty.Seq? && HasType(ty, o) && Target(ty, t) && Target(ty, ValueOf(ty, o))
    ensures InsertAll(ty, t, Values(ElemType(ty), o.items)) == Merge(ty, t, ValueOf(ty, o))
  {
    if ty.MapOf? {
      ToMapIsUnion(t.m, Values(ElemType(ty), o.items));
    }
  }

  /** For every type, object and existing target, in the order the object is iterated in: what is
      read back is the merge of the object's value into the target. */
  lemma {:induction false} MergeLaw(ty: Ty, t: Value, o: Obj, r: Bytes)
    requires HasType(ty, o) && Target(ty, t) && Readable(ty)
    ensures Target(ty, ValueOf(ty, o))
    ensures Unserialize(ty, t, Serialize(ty, o) + r) == Good(Merge(ty, t, ValueOf(ty, o)), r)
    decreases Rank(ty), 1
  {
    ValueIsTarget(ty, o);
    var s := Serialize(ty, o) + r;
    if ty.Pair? {
      var a, b := ty.first, ty.second;
      var s1 := Serialize(b, o.b) + r;
      assert s == Serialize(a, o.a) + s1;
      MergeLaw(a, t.a, o.a, s1);
      MergeLaw(b, t.b, o.b, r);
      UnserializePair(ty, t, s, Merge(a, t.a, ValueOf(a, o.a)), s1, Merge(b, t.b, ValueOf(b, o.b)), r);
    } else if Container(ty) {
      MergeLawContainer(ty, t, o, r);
    } else {
      MergeLawLeaf(ty, t, o, r);
    }
  }

  lemma {:induction false} MergeLawContainer(ty: Ty, t: Value, o: Obj, r: Bytes)
    requires Container(ty) && HasType(ty, o) && Target(ty, t) && Readable(ty) && Target(ty, ValueOf(ty, o))
    ensures Unserialize(ty, t, Serialize(ty, o) + r) == Good(Merge(ty, t, ValueOf(ty, o)), r)
    decreases Rank(ty), 0
  {
    var e, s, n := ElemType(ty), Serialize(ty, o) + r, |o.items|;
    ContainerBytes(ty, o, r);
    ReadableElement(e);
    if ty.Seq? {
      var ts := Resize(e, t.items, n);
      MergeLawAll(e, ts, o.items, r);
      UnserializeElements(ty, t, s, n, SerializeAll(e, o.items) + r, MergeAll(e, ts, Values(e, o.items)), r);
    } else {
      ReadAllLaw(e, o.items, r);
      UnserializeInserted(ty, t, o, s, r);
    }
  }

  lemma ReadableElement(e: Ty)
    requires !HasCStr(e)
    ensures Readable(e)
    decreases Rank(e)
  {
    if e.Pair? {
      ReadableElement(e.first);
      ReadableElement(e.second);
    }
  }

  lemma ContainerBytes(ty: Ty, o: Obj, r: Bytes)
    requires HasType(ty, o) && Container(ty)
    ensures Serialize(ty, o) + r == Host(|o.items|, SIZE_BYTES) + (SerializeAll(ElemType(ty), o.items) + r)
    ensures ReadSize(Serialize(ty, o) + r) == Good(|o.items|, SerializeAll(ElemType(ty), o.items) + r)
  {
    var body := SerializeAll(ElemType(ty), o.items) + r;
    assert Serialize(ty, o) + r == Host(|o.items|, SIZE_BYTES) + body;
    ReadSizeOfWritten(|o.items|, body);
  }

  lemma SerializeAllHead(e: Ty, items: seq<Obj>, r: Bytes)
    requires items != [] && forall i :: 0 <= i < |items| ==> HasType(e, items[i])
    ensures SerializeAll(e, items) + r == Serialize(e, items[0]) + (SerializeAll(e, items[1..]) + r)
  {
  }

  lemma ValuesAreTargets(e: Ty, items: seq<Obj>)
    requires forall i :: 0 <= i < |items| ==> HasType(e, items[i])
    ensures forall i :: 0 <= i < |items| ==> Target(e, Values(e, items)[i])
  {
    forall i | 0 <= i < |items| ensures Target(e, Values(e, items)[i]) {
      ValueIsTarget(e, items[i]);
    }
  }

  lemma MergeAllHead(e: Ty, ts: seq<Value>, vs: seq<Value>)
    requires |ts| == |vs| > 0
    requires forall i :: 0 <= i < |ts| ==> Target(e, ts[i]) && Target(e, vs[i])
    ensures MergeAll(e, ts, vs) == [Merge(e, ts[0], vs[0])] + MergeAll(e, ts[1..], vs[1..])
  {
  }

  lemma {:induction false} MergeLawAll(e: Ty, ts: seq<Value>, items: seq<Obj>, r: Bytes)
    requires |ts| == |items| && Readable(e) && AllHaveType(e, items) && AllTargets(e, ts)
    ensures AllTargets(e, Values(e, items))
    ensures UnserializeSeq(e, ts, SerializeAll(e, items) + r) == Good(MergeAll(e, ts, Values(e, items)), r)
    decreases Rank(e), 2, |ts|
  {
    ValuesAreTargets(e, items);
    if ts == [] {
      assert SerializeAll(e, items) + r == r;
    } else {
      MergeLawFirst(e, ts, items, r);
      MergeLawAll(e, ts[1..], items[1..], r);
      MergedHead(e, ts, items);
    }
  }

  /** The first element of a sequence is merged, and the others are still to be read. */
  lemma {:induction false} MergeLawFirst(e: Ty, ts: seq<Value>, items: seq<Obj>, r: Bytes)
    requires |ts| == |items| > 0 && Readable(e) && AllHaveType(e, items) && AllTargets(e, ts)
    ensures AllTargets(e, ts[1..]) && Target(e, ValueOf(e, items[0]))
    ensures UnserializeSeq(e, ts, SerializeAll(e, items) + r) ==
      match UnserializeSeq(e, ts[1..], SerializeAll(e, items[1..]) + r)
      case Bad => Bad
      case Good(vs, rest) => Good([Merge(e, ts[0], ValueOf(e, items[0]))] + vs, rest)
    decreases Rank(e), 2, 0
  {
    var s1 := SerializeAll(e, items[1..]) + r;
    SerializeAllHead(e, items, r);
    MergeLaw(e, ts[0], items[0], s1);
  }

  lemma MergedHead(e: Ty, ts: seq<Value>, items: seq<Obj>)
    requires |ts| == |items| > 0 && AllHaveType(e, items) && AllHaveType(e, items[1..])
    requires AllTargets(e, ts) && AllTargets(e, ts[1..])
    requires AllTargets(e, Values(e, items)) && AllTargets(e, Values(e, items[1..]))
    ensures MergeAll(e, ts, Values(e, items))
         == [Merge(e, ts[0], Values(e, items)[0])] + MergeAll(e, ts[1..], Values(e, items[1..]))
  {
    MergeAllHead(e, ts, Values(e, items));
    assert Values(e, items)[1..] == Values(e, items[1..]);
  }

  lemma MergeAllIntoDefault(e: Ty, ts: seq<Value>, vs: seq<Value>)
    requires |ts| == |vs|
    requires forall i :: 0 <= i < |ts| ==> Target(e, ts[i]) && ts[i] == Default(e) && Target(e, vs[i])
    ensures MergeAll(e, ts, vs) == vs
  {
    forall i | 0 <= i < |vs| ensures Merge(e, ts[i], vs[i]) == vs[i] {
      MergeIntoDefault(e, vs[i]);
    }
  }

  lemma {:induction false} ReadAllLaw(e: Ty, items: seq<Obj>, r: Bytes)
    requires !HasCStr(e) && |items| < Pow256(SIZE_BYTES)
    requires forall i :: 0 <= i < |items| ==> HasType(e, items[i])
    ensures ReadAll(e, Host(|items|, SIZE_BYTES) + (SerializeAll(e, items) + r)) == Good(Values(e, items), r)
    decreases Rank(e), 3
  {
    ReadSizeOfWritten(|items|, SerializeAll(e, items) + r);
    ReadableElement(e);
    DefaultIsTarget(e);
    var ts := seq(|items|, i => Default(e));
    MergeLawAll(e, ts, items, r);
    MergeAllIntoDefault(e, ts, Values(e, items));
  }

  /** A new variable receives exactly the value that was written. */
  lemma RoundTrip(ty: Ty, o: Obj, r: Bytes)
    requires HasType(ty, o) && Readable(ty)
    ensures Target(ty, Default(ty))
    ensures Unserialize(ty, Default(ty), Serialize(ty, o) + r) == Good(ValueOf(ty, o), r)
  {
    DefaultIsTarget(ty);
    MergeLaw(ty, Default(ty), o, r);
    MergeIntoDefault(ty, ValueOf(ty, o));
  }
}
