/**
 SerializeSize predicts how many bytes Serialize writes. For containers of POD elements it
 multiplies instead of visiting the elements; sets and sequences ask for the POD tag of the
 element, maps ask boost::is_pod of key and mapped type, which a C string pointer passes.
 */
module SerialSize {
  import opened Serial

  /** SizeHelper::advance takes an int: a step is cut to 32 bits and read as signed. */
  const INT_LIMIT: nat := 0x8000_0000
  const TWO_32: nat := 0x1_0000_0000
  const POINTER_BYTES: nat := 8

  function Step(n: nat): int {
    var low := n % TWO_32;
    if low < INT_LIMIT then low else low - TWO_32
  }

  /** A narrowed step never goes too far, and exactly the steps an int can hold are right. */
  lemma StepIff(n: nat)
    ensures Step(n) <= n && (Step(n) == n <==> n < INT_LIMIT)
  {
  }

  /** A step is the 32-bit signed number with the same low bits. */
  lemma StepIsSigned32(n: nat)
    ensures -0x8000_0000 <= Step(n) < 0x8000_0000 && (n - Step(n)) % 0x1_0000_0000 == 0
  {
    var low := n % TWO_32;
    assert n - low == n / TWO_32 * TWO_32;
    assert (n - low + TWO_32) % TWO_32 == 0;
  }

  /** boost::is_pod. */
  predicate IsPod(ty: Ty) {
    ty.Pod? || ty.CStr?
  }

  function SizeOf(ty: Ty): nat
    requires IsPod(ty)
  {
    if ty.Pod? then ty.size else POINTER_BYTES
  }

  /** Whether the size of a container is computed by multiplication, and the bytes per element. */
  predicate Shortcut(ty: Ty)
    requires Container(ty)
  {
    match ty
    case MapOf(k, v) => IsPod(k) && IsPod(v)
    case MultimapOf(k, v) => IsPod(k) && IsPod(v)
    case _ => ElemType(ty).Pod?
  }

  function PerElement(ty: Ty): nat
    requires Container(ty) && Shortcut(ty)
  {
    match ty
    case MapOf(k, v) => SizeOf(k) + SizeOf(v)
    case MultimapOf(k, v) => SizeOf(k) + SizeOf(v)
    case _ => ElemType(ty).size
  }

  /** What SerializeSize adds to the helper. */
  function SerializeSize(ty: Ty, o: Obj): int
    requires HasType(ty, o)
    decreases Rank(ty), 1
  {
    match ty
    case Pod(size) => Step(size)
    case Str(_) => Step(SIZE_BYTES + |o.bytes|)
    case CStr => Step(|o.bytes| + 1)
    case Pair(a, b) => SerializeSize(a, o.a) + SerializeSize(b, o.b)
    case _ =>
      if Shortcut(ty) then SIZE_BYTES + Step(|o.items| * PerElement(ty))
      else SIZE_BYTES + SumSizes(ElemType(ty), o.items)
  }

  function SumSizes(e: Ty, items: seq<Obj>): int
    requires forall i :: 0 <= i < |items| ==> HasType(e, items[i])
    decreases Rank(e), 2, |items|
  {
    if items == [] then 0 else SerializeSize(e, items[0]) + SumSizes(e, items[1..])
  }

  /** No map with a C string takes the shortcut. */
  predicate Exact(ty: Ty)
    decreases Rank(ty)
  {
    match ty
    case Pod(_) => true
    case Str(_) => true
    case CStr => true
    case Pair(a, b) => Exact(a) && Exact(b)
    case _ => Exact(ElemType(ty)) && (Shortcut(ty) ==> !HasCStr(ElemType(ty)))
  }

  /** Every step fits an int: each number, string and C string, and each product of a shortcut. */
  ghost predicate SmallSteps(ty: Ty, o: Obj)
    requires HasType(ty, o)
    decreases Rank(ty), 1
  {
    match ty
    case Pod(size) => size < INT_LIMIT
    case Str(_) => SIZE_BYTES + |o.bytes| < INT_LIMIT
    case CStr => |o.bytes| + 1 < INT_LIMIT
    case Pair(a, b) => SmallSteps(a, o.a) && SmallSteps(b, o.b)
    case _ =>
      if Shortcut(ty) then |o.items| * PerElement(ty) < INT_LIMIT
      else AllSmallSteps(ElemType(ty), o.items)
  }

  ghost predicate AllSmallSteps(e: Ty, items: seq<Obj>)
    requires forall i :: 0 <= i < |items| ==> HasType(e, items[i])
    decreases Rank(e), 2
  {
    forall i :: 0 <= i < |items| ==> SmallSteps(e, items[i])
  }

  lemma FirstIsSmall(e: Ty, items: seq<Obj>)
    requires items != [] && forall i :: 0 <= i < |items| ==> HasType(e, items[i])
    ensures AllSmallSteps(e, items) <==> SmallSteps(e, items[0]) && AllSmallSteps(e, items[1..])
  {
    assert items == [items[0]] + items[1..];
  }

  // ---------------------------------------------------------------- exact types

  lemma {:induction false} FixedSizes(e: Ty, items: seq<Obj>, size: nat)
    requires forall i :: 0 <= i < |items| ==> HasType(e, items[i]) && |Serialize(e, items[i])| == size
    ensures |SerializeAll(e, items)| == |items| * size
    decreases |items|
  {
    if items != [] {
      FixedSizes(e, items[1..], size);
      assert |items| * size == size + (|items| - 1) * size;
    }
  }

  /** The elements a shortcut multiplies are POD, or pairs of POD and C strings. */
  lemma ShortcutElement(ty: Ty)
    requires Container(ty) && Shortcut(ty)
    ensures var e := ElemType(ty);
            Exact(e) && (e.Pod? || (e.Pair? && IsPod(e.first) && IsPod(e.second)))
    ensures HasCStr(ElemType(ty)) <==> ElemType(ty).Pair? && (ElemType(ty).first.CStr? || ElemType(ty).second.CStr?)
  {
  }

  lemma ShortcutElementSize(ty: Ty, x: Obj)
    requires Container(ty) && Shortcut(ty) && !HasCStr(ElemType(ty)) && HasType(ElemType(ty), x)
    ensures |Serialize(ElemType(ty), x)| == PerElement(ty)
  {
    ShortcutElement(ty);
  }

  /** For an exact type the size is never overestimated, and it is the number of bytes written if and
      only if every step fits an int. */
  lemma {:induction false} SizeIsExact(ty: Ty, o: Obj)
    requires HasType(ty, o) && Exact(ty)
    ensures SerializeSize(ty, o) <= |Serialize(ty, o)|
    ensures SerializeSize(ty, o) == |Serialize(ty, o)| <==> SmallSteps(ty, o)
    decreases Rank(ty), 1
  {
    if ty.Pair? {
      SizeIsExact(ty.first, o.a);
      SizeIsExact(ty.second, o.b);
    } else if Container(ty) {
      ContainerSizeIsExact(ty, o);
    } else {
      StepIff(|Serialize(ty, o)|);
    }
  }

  lemma {:induction false} ContainerSizeIsExact(ty: Ty, o: Obj)
    requires Container(ty) && HasType(ty, o) && Exact(ty)
    ensures SerializeSize(ty, o) <= |Serialize(ty, o)|
    ensures SerializeSize(ty, o) == |Serialize(ty, o)| <==> SmallSteps(ty, o)
    decreases Rank(ty), 0
  {
    var e := ElemType(ty);
    if Shortcut(ty) {
      forall i | 0 <= i < |o.items| ensures |Serialize(e, o.items[i])| == PerElement(ty) {
        ShortcutElementSize(ty, o.items[i]);
      }
      FixedSizes(e, o.items, PerElement(ty));
      StepIff(|o.items| * PerElement(ty));
    } else {
      SumIsExact(e, o.items);
    }
  }

  lemma {:induction false} SumIsExact(e: Ty, items: seq<Obj>)
    requires forall i :: 0 <= i < |items| ==> HasType(e, items[i])
    requires Exact(e)
    ensures SumSizes(e, items) <= |SerializeAll(e, items)|
    ensures SumSizes(e, items) == |SerializeAll(e, items)| <==> AllSmallSteps(e, items)
    decreases Rank(e), 2, |items|
  {
    if items != [] {
      SizeIsExact(e, items[0]);
      SumIsExact(e, items[1..]);
      FirstIsSmall(e, items);
    }
  }

  // ---------------------------------------------------------------- the others

  /** Some object of the type has small steps only. */
  predicate HasSmall(ty: Ty) {
    match ty
    case Pod(size) => size < INT_LIMIT
    case Pair(a, b) => HasSmall(a) && HasSmall(b)
    case _ => true
  }

  /** Some object of small steps is overestimated: in it is a map with C strings that takes the shortcut,
      with elements an int can count. */
  predicate Overestimated(ty: Ty)
    decreases Rank(ty)
  {
    match ty
    case Pod(_) => false
    case Str(_) => false
    case CStr => false
    case Pair(a, b) => (Overestimated(a) && HasSmall(b)) || (HasSmall(a) && Overestimated(b))
    case _ =>
      if Shortcut(ty) then HasCStr(ElemType(ty)) && PerElement(ty) < INT_LIMIT else Overestimated(ElemType(ty))
  }

  /** Zeros, empty strings and empty containers. */
  function Least(ty: Ty): (o: Obj)
    requires TypeOK(ty)
    ensures HasType(ty, o)
    decreases Rank(ty)
  {
    match ty
    case Pod(size) => Raw(seq(size, i => 0))
    case Str(_) => Raw([])
    case CStr => Raw([])
    case Pair(a, b) => Two(Least(a), Least(b))
    case _ => Elems([])
  }

  lemma {:induction false} LeastIsSmall(ty: Ty)
    requires TypeOK(ty) && HasSmall(ty)
    ensures SmallSteps(ty, Least(ty)) && SerializeSize(ty, Least(ty)) == |Serialize(ty, Least(ty))|
    decreases Rank(ty)
  {
    match ty
    case Pod(size) => StepIff(size);
    case Pair(a, b) =>
      LeastIsSmall(a);
      LeastIsSmall(b);
    case _ =>
  }

  /** An object whose size is overestimated. */
  function Worst(ty: Ty): (o: Obj)
    requires TypeOK(ty) && Overestimated(ty)
    ensures HasType(ty, o)
    decreases Rank(ty)
  {
    if ty.Pair? then
      if Overestimated(ty.first) && HasSmall(ty.second) then Two(Worst(ty.first), Least(ty.second))
      else Two(Least(ty.first), Worst(ty.second))
    else OneOf(ty, if Shortcut(ty) then Least(ElemType(ty)) else Worst(ElemType(ty)))
  }

  function OneOf(ty: Ty, x: Obj): (o: Obj)
    requires Container(ty) && HasType(ElemType(ty), x)
    ensures HasType(ty, o)
  {
    Elems([x])
  }

  lemma {:induction false} WorstIsOverestimated(ty: Ty)
    requires TypeOK(ty) && Overestimated(ty)
    ensures SmallSteps(ty, Worst(ty)) && SerializeSize(ty, Worst(ty)) > |Serialize(ty, Worst(ty))|
    decreases Rank(ty)
  {
    if ty.Pair? {
      WorstPair(ty);
    } else if Shortcut(ty) {
      PointersOutweigh(ty);
      OneElement(ty, Least(ElemType(ty)));
      StepIff(PerElement(ty));
    } else {
      WorstIsOverestimated(ElemType(ty));
      OneElement(ty, Worst(ElemType(ty)));
    }
  }

  lemma {:induction false} WorstPair(ty: Ty)
    requires TypeOK(ty) && ty.Pair? && Overestimated(ty)
    ensures SmallSteps(ty, Worst(ty)) && SerializeSize(ty, Worst(ty)) > |Serialize(ty, Worst(ty))|
    decreases Rank(ty), 0
  {
    if Overestimated(ty.first) && HasSmall(ty.second) {
      WorstIsOverestimated(ty.first);
      LeastIsSmall(ty.second);
    } else {
      LeastIsSmall(ty.first);
      WorstIsOverestimated(ty.second);
    }
  }

  /** A pointer is counted for the one byte an empty C string takes. */
  lemma PointersOutweigh(ty: Ty)
    requires TypeOK(ty) && Container(ty) && Shortcut(ty) && HasCStr(ElemType(ty))
    ensures |Serialize(ElemType(ty), Least(ElemType(ty)))| < PerElement(ty)
  {
    var e := ElemType(ty);
    ShortcutElement(ty);
    assert Least(e) == Two(Least(e.first), Least(e.second));
  }

  lemma OneElement(ty: Ty, x: Obj)
    requires Container(ty) && HasType(ElemType(ty), x)
    ensures |Serialize(ty, OneOf(ty, x))| == SIZE_BYTES + |Serialize(ElemType(ty), x)|
    ensures SerializeSize(ty, OneOf(ty, x))
         == SIZE_BYTES + if Shortcut(ty) then Step(PerElement(ty)) else SerializeSize(ElemType(ty), x)
    ensures SmallSteps(ty, OneOf(ty, x))
       <==> if Shortcut(ty) then PerElement(ty) < INT_LIMIT else SmallSteps(ElemType(ty), x)
  {
    hide Serialize, SerializeSize, SmallSteps, HasType;
    OneElementBytes(ty, x);
    OneElementSize(ty, x);
    OneElementSteps(ty, x);
  }

  lemma OneElementBytes(ty: Ty, x: Obj)
    requires Container(ty) && HasType(ElemType(ty), x)
    ensures |Serialize(ty, OneOf(ty, x))| == SIZE_BYTES + |Serialize(ElemType(ty), x)|
  {
    var e := ElemType(ty);
    assert [x][1..] == [];
    assert SerializeAll(e, [x]) == Serialize(e, x) + SerializeAll(e, []);
  }

  lemma OneElementSize(ty: Ty, x: Obj)
    requires Container(ty) && HasType(ElemType(ty), x)
    ensures SerializeSize(ty, OneOf(ty, x))
         == SIZE_BYTES + if Shortcut(ty) then Step(PerElement(ty)) else SerializeSize(ElemType(ty), x)
  {
    hide Step, PerElement;
    var e := ElemType(ty);
    assert OneOf(ty, x).items == [x] && [x][1..] == [];
    if !Shortcut(ty) {
      assert SumSizes(e, [x]) == SerializeSize(e, x) + SumSizes(e, []);
    }
  }

  lemma OneElementSteps(ty: Ty, x: Obj)
    requires Container(ty) && HasType(ElemType(ty), x)
    ensures SmallSteps(ty, OneOf(ty, x))
       <==> if Shortcut(ty) then PerElement(ty) < INT_LIMIT else SmallSteps(ElemType(ty), x)
  {
    assert AllSmallSteps(ElemType(ty), [x]) <==> SmallSteps(ElemType(ty), [x][0]);
  }

  /** Small objects of all other types are measured exactly. */
  lemma {:induction false} NotOverestimated(ty: Ty, o: Obj)
    requires HasType(ty, o) && !Overestimated(ty) && SmallSteps(ty, o)
    ensures HasSmall(ty) && SerializeSize(ty, o) == |Serialize(ty, o)|
    decreases Rank(ty), 1
  {
    if ty.Pair? {
      SmallHasSmall(ty.first, o.a);
      SmallHasSmall(ty.second, o.b);
      NotOverestimated(ty.first, o.a);
      NotOverestimated(ty.second, o.b);
    } else if Container(ty) {
      ContainerNotOverestimated(ty, o);
    } else {
      StepIff(|Serialize(ty, o)|);
    }
  }

  lemma {:induction false} SmallHasSmall(ty: Ty, o: Obj)
    requires HasType(ty, o) && SmallSteps(ty, o)
    ensures HasSmall(ty)
    decreases Rank(ty)
  {
    if ty.Pair? {
      SmallHasSmall(ty.first, o.a);
      SmallHasSmall(ty.second, o.b);
    }
  }

  lemma {:induction false} ContainerNotOverestimated(ty: Ty, o: Obj)
    requires Container(ty) && HasType(ty, o) && !Overestimated(ty) && SmallSteps(ty, o)
    ensures SerializeSize(ty, o) == |Serialize(ty, o)|
    decreases Rank(ty), 0
  {
    if !Shortcut(ty) {
      SumNotOverestimated(ElemType(ty), o.items);
    } else if HasCStr(ElemType(ty)) {
      // an element is more than an int can count, so there is none
      TooLargeToCount(|o.items|, PerElement(ty));
    } else {
      ShortcutElement(ty);
      ContainerSizeIsExact(ty, o);
    }
  }

  lemma TooLargeToCount(n: nat, size: nat)
    requires n * size < INT_LIMIT <= size
    ensures n == 0
  {
    assert n >= 1 ==> n * size >= size;
  }

  lemma {:induction false} SumNotOverestimated(e: Ty, items: seq<Obj>)
    requires forall i :: 0 <= i < |items| ==> HasType(e, items[i])
    requires !Overestimated(e) && AllSmallSteps(e, items)
    ensures SumSizes(e, items) == |SerializeAll(e, items)|
    decreases Rank(e), 2, |items|
  {
    if items != [] {
      FirstIsSmall(e, items);
      NotOverestimated(e, items[0]);
      SumNotOverestimated(e, items[1..]);
    }
  }

  /** For every type: prediction and writing agree on all objects of small steps if and only if the type
      has no overestimated one. */
  lemma SizeAgreesIff(ty: Ty)
    requires TypeOK(ty)
    ensures (forall o :: HasType(ty, o) && SmallSteps(ty, o) ==> SerializeSize(ty, o) == |Serialize(ty, o)|)
       <==> !Overestimated(ty)
  {
    if Overestimated(ty) {
      WorstIsOverestimated(ty);
    } else {
      forall o | HasType(ty, o) && SmallSteps(ty, o) ensures SerializeSize(ty, o) == |Serialize(ty, o)| {
        NotOverestimated(ty, o);
      }
    }
  }

  /** std::map<const char*, int> with the one entry "" -> 0: 20 bytes predicted, 13 written. */
  lemma CStringMapIsOverestimated()
    ensures var ty, o := MapOf(CStr, Pod(4)), Elems([Two(Raw([]), Raw([0, 0, 0, 0]))]);
            HasType(ty, o) && SerializeSize(ty, o) == 20 && |Serialize(ty, o)| == 13
  {
    var e, x := Pair(CStr, Pod(4)), Two(Raw([]), Raw([0, 0, 0, 0]));
    assert HasType(CStr, x.a) && HasType(Pod(4), x.b);
    assert |Serialize(e, x)| == |Serialize(CStr, x.a)| + |Serialize(Pod(4), x.b)| == 5;
    assert OneOf(MapOf(CStr, Pod(4)), x) == Elems([x]);
    OneElement(MapOf(CStr, Pod(4)), x);
    StepIff(12);
  }

  /** Maps and multimaps of PODs and C strings are multiplied, with eight bytes for each pointer, whatever
      the strings hold. */
  lemma MapIsMultiplied(ty: Ty, k: Ty, v: Ty, o: Obj)
    requires ty == MapOf(k, v) || ty == MultimapOf(k, v)
    requires (k.Pod? || k.CStr?) && (v.Pod? || v.CStr?) && HasType(ty, o)
    ensures SerializeSize(ty, o)
         == 8 + Step(|o.items| * ((if k.Pod? then k.size else 8) + (if v.Pod? then v.size else 8)))
  {
  }

  /** A value-initialized variable holds what an object of zeros, empty strings and empty containers does. */
  lemma {:induction false} DefaultIsLeast(ty: Ty)
    requires TypeOK(ty)
    ensures Default(ty) == ValueOf(ty, Least(ty))
    decreases Rank(ty)
  {
    if ty.Pair? {
      DefaultIsLeast(ty.first);
      DefaultIsLeast(ty.second);
    } else if ty.SetOf? {
      assert ToSet([]) == {};
    }
  }
}
