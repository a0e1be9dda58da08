/** The order in which sets and maps are iterated, and so written, at any depth of an object. */
module SerialOrder {
  import opened Bytes
  import opened Serial

  // ---------------------------------------------------------------- the same up to order

  /** The objects differ at most in the iteration order of the sets and maps inside them. */
  ghost predicate SameUpToOrder(ty: Ty, o1: Obj, o2: Obj)
    requires HasType(ty, o1) && HasType(ty, o2)
    decreases Rank(ty), 1
  {
    match ty
    case Pod(_) => o1 == o2
    case Str(_) => o1 == o2
    case CStr => o1 == o2
    case Pair(a, b) => SameUpToOrder(a, o1.a, o2.a) && SameUpToOrder(b, o1.b, o2.b)
    case Seq(e) => Elementwise(e, o1.items, o2.items)
    case _ => Shuffled(ElemType(ty), o1.items, o2.items)
  }

  ghost predicate Elementwise(e: Ty, xs: seq<Obj>, ys: seq<Obj>)
    requires AllHaveType(e, xs) && AllHaveType(e, ys)
    decreases Rank(e), 2
  {
    |xs| == |ys| && forall i :: 0 <= i < |xs| ==> SameUpToOrder(e, xs[i], ys[i])
  }

  /** Every element of the one is an element of the other, each taken once. */
  ghost predicate Shuffled(e: Ty, xs: seq<Obj>, ys: seq<Obj>)
    requires AllHaveType(e, xs) && AllHaveType(e, ys)
    decreases Rank(e), 2, |xs|
  {
    |xs| == |ys| &&
    (xs != [] ==> exists j :: 0 <= j < |ys| && SameUpToOrder(e, xs[0], ys[j]) && Shuffled(e, xs[1..], Without(ys, j)))
  }

  function Without<T>(s: seq<T>, j: nat): (r: seq<T>)
    requires j < |s|
    ensures |r| == |s| - 1 && forall i :: 0 <= i < |r| ==> r[i] in s
  {
    s[..j] + s[j + 1..]
  }

  /** In no map a key comes twice. */
  ghost predicate IsProper(ty: Ty, o: Obj)
    requires HasType(ty, o)
    decreases Rank(ty), 1
  {
    match ty
    case Pod(_) => true
    case Str(_) => true
    case CStr => true
    case Pair(a, b) => IsProper(a, o.a) && IsProper(b, o.b)
    case _ => AllProper(ElemType(ty), o.items) && KeysOnce(ty, o)
  }

  ghost predicate AllProper(e: Ty, xs: seq<Obj>)
    requires AllHaveType(e, xs)
    decreases Rank(e), 2
  {
    forall i :: 0 <= i < |xs| ==> IsProper(e, xs[i])
  }

  ghost predicate KeysOnce(ty: Ty, o: Obj)
    requires Container(ty) && HasType(ty, o)
  {
    var vs := Values(ElemType(ty), o.items);
    ty.MapOf? ==> DistinctKeys(vs)
  }

  // ---------------------------------------------------------------- values

  ghost predicate DistinctKeys(ps: seq<Value>)
    requires forall i :: 0 <= i < |ps| ==> ps[i].VPair?
  {
    forall i, j :: 0 <= i < j < |ps| ==> ps[i].a != ps[j].a
  }

  /** The entries of the map are the pairs. */
  ghost predicate EntriesOf(m: map<Value, Value>, ps: seq<Value>)
    requires forall i :: 0 <= i < |ps| ==> ps[i].VPair?
  {
    && (forall p :: p in ps ==> p.a in m && m[p.a] == p.b)
    && (forall k :: k in m ==> VPair(k, m[k]) in ps)
  }

  lemma {:induction false} ToMapEntries(ps: seq<Value>)
    requires forall i :: 0 <= i < |ps| ==> ps[i].VPair?
    requires DistinctKeys(ps)
    ensures EntriesOf(ToMap(map[], ps), ps)
    decreases |ps|
  {
    if ps != [] {
      var p, rest := ps[0], ps[1..];
      ToMapEntries(rest);
      ToMapIsUnion(Insert(map[], p.a, p.b), rest);
      assert ToMap(map[], ps) == ToMap(map[], rest) + map[p.a := p.b];
      hide ToMap, DistinctKeys;
      EntriesGrow(ToMap(map[], rest), ps);
    }
  }

  lemma EntriesGrow(m: map<Value, Value>, ps: seq<Value>)
    requires ps != [] && (forall i :: 0 <= i < |ps| ==> ps[i].VPair?) && EntriesOf(m, ps[1..])
    requires forall j :: 0 < j < |ps| ==> ps[0].a != ps[j].a
    ensures EntriesOf(m + map[ps[0].a := ps[0].b], ps)
  {
    var p, rest := ps[0], ps[1..];
    assert ps == [p] + rest;
    assert forall q :: q in rest ==> q.a != p.a;
  }

  lemma ToMapOrderIrrelevant(v1: seq<Value>, v2: seq<Value>)
    requires forall i :: 0 <= i < |v1| ==> v1[i].VPair?
    requires forall i :: 0 <= i < |v2| ==> v2[i].VPair?
    requires DistinctKeys(v1) && DistinctKeys(v2) && forall x :: x in v1 <==> x in v2
    ensures ToMap(map[], v1) == ToMap(map[], v2)
  {
    var m1, m2 := ToMap(map[], v1), ToMap(map[], v2);
    ToMapEntries(v1);
    ToMapEntries(v2);
    forall k ensures k in m1 ==> k in m2 && m2[k] == m1[k] {
      if k in m1 { assert VPair(k, m1[k]) in v2; }
    }
    forall k ensures k in m2 ==> k in m1 {
      if k in m2 { assert VPair(k, m2[k]) in v1; }
    }
  }

  lemma SameElements(v1: seq<Value>, v2: seq<Value>)
    requires multiset(v1) == multiset(v2)
    ensures ToSet(v1) == ToSet(v2) && forall x :: x in v1 <==> x in v2
  {
    forall x ensures x in v1 <==> x in v2 {
      assert x in v1 <==> x in multiset(v1);
      assert x in v2 <==> x in multiset(v2);
    }
  }

  /** Containers with the same elements in different orders have the same value. */
  lemma SameContents(ty: Ty, o1: Obj, o2: Obj)
    requires Container(ty) && !ty.Seq? && HasType(ty, o1) && HasType(ty, o2)
    requires multiset(Values(ElemType(ty), o1.items)) == multiset(Values(ElemType(ty), o2.items))
    requires ty.MapOf? ==> DistinctKeys(Values(ElemType(ty), o1.items)) && DistinctKeys(Values(ElemType(ty), o2.items))
    ensures ValueOf(ty, o1) == ValueOf(ty, o2)
  {
    var v1, v2 := Values(ElemType(ty), o1.items), Values(ElemType(ty), o2.items);
    SameElements(v1, v2);
    if ty.MapOf? {
      ToMapOrderIrrelevant(v1, v2);
    }
  }

  lemma TakenOut<T>(s: seq<T>, j: nat)
    requires j < |s|
    ensures multiset(s) == multiset{s[j]} + multiset(Without(s, j))
  {
    assert s == s[..j] + [s[j]] + s[j + 1..];
  }

  lemma WithoutHasType(e: Ty, ys: seq<Obj>, j: nat)
    requires AllHaveType(e, ys) && j < |ys|
    ensures AllHaveType(e, Without(ys, j))
  {
  }

  lemma ValuesWithout(e: Ty, ys: seq<Obj>, j: nat)
    requires AllHaveType(e, ys) && j < |ys| && AllHaveType(e, Without(ys, j))
    ensures Values(e, Without(ys, j)) == Without(Values(e, ys), j)
  {
    hide HasType, ValueOf, Values;
    var zs, vs := Without(ys, j), Values(e, ys);
    forall i | 0 <= i < |zs| ensures Values(e, zs)[i] == Without(vs, j)[i] {
      assert zs[i] == ys[if i < j then i else i + 1];
    }
  }

  /** The same value put back into what is the same in any order. */
  lemma SameBag(vs: seq<Value>, ws: seq<Value>, j: nat)
    requires vs != [] && j < |ws| && vs[0] == ws[j]
    requires multiset(Without(vs, 0)) == multiset(Without(ws, j))
    ensures multiset(vs) == multiset(ws)
  {
    TakenOut(vs, 0);
    TakenOut(ws, j);
  }

  /** Objects that are the same up to iteration order, at any depth, have the same value. */
  lemma {:induction false} OrderIrrelevant(ty: Ty, o1: Obj, o2: Obj)
    requires HasType(ty, o1) && HasType(ty, o2) && SameUpToOrder(ty, o1, o2)
    requires IsProper(ty, o1) && IsProper(ty, o2)
    ensures ValueOf(ty, o1) == ValueOf(ty, o2)
    decreases Rank(ty), 1
  {
    if ty.Pair? {
      OrderIrrelevant(ty.first, o1.a, o2.a);
      OrderIrrelevant(ty.second, o1.b, o2.b);
    } else if ty.Seq? {
      ElementwiseIrrelevant(ty.elem, o1.items, o2.items);
    } else if Container(ty) {
      ShuffledIrrelevant(ElemType(ty), o1.items, o2.items);
      SameContents(ty, o1, o2);
    }
  }

  lemma {:induction false} ElementwiseIrrelevant(e: Ty, xs: seq<Obj>, ys: seq<Obj>)
    requires AllHaveType(e, xs) && AllHaveType(e, ys) && Elementwise(e, xs, ys)
    requires AllProper(e, xs) && AllProper(e, ys)
    ensures Values(e, xs) == Values(e, ys)
    decreases Rank(e), 2
  {
    forall i | 0 <= i < |xs| ensures ValueOf(e, xs[i]) == ValueOf(e, ys[i]) {
      OrderIrrelevant(e, xs[i], ys[i]);
    }
  }

  lemma {:induction false} ShuffledIrrelevant(e: Ty, xs: seq<Obj>, ys: seq<Obj>)
    requires AllHaveType(e, xs) && AllHaveType(e, ys) && Shuffled(e, xs, ys)
    requires AllProper(e, xs) && AllProper(e, ys)
    ensures multiset(Values(e, xs)) == multiset(Values(e, ys))
    decreases Rank(e), 2, |xs|
  {
    if xs != [] {
      var j :| 0 <= j < |ys| && SameUpToOrder(e, xs[0], ys[j]) && Shuffled(e, xs[1..], Without(ys, j));
      PartnerIrrelevant(e, xs, ys, j);
      TheOthers(e, xs, ys, j);
      ShuffledIrrelevant(e, xs[1..], Without(ys, j));
      SameWithPartner(e, xs, ys, j);
    }
  }

  lemma {:induction false} PartnerIrrelevant(e: Ty, xs: seq<Obj>, ys: seq<Obj>, j: nat)
    requires AllHaveType(e, xs) && AllHaveType(e, ys) && xs != [] && j < |ys|
    requires AllProper(e, xs) && AllProper(e, ys) && SameUpToOrder(e, xs[0], ys[j])
    ensures Values(e, xs)[0] == Values(e, ys)[j]
    decreases Rank(e), 2, 0
  {
    OrderIrrelevant(e, xs[0], ys[j]);
  }

  lemma TheOthers(e: Ty, xs: seq<Obj>, ys: seq<Obj>, j: nat)
    requires AllHaveType(e, xs) && AllHaveType(e, ys) && xs != [] && j < |ys|
    requires AllProper(e, xs) && AllProper(e, ys)
    ensures AllHaveType(e, xs[1..]) && AllHaveType(e, Without(ys, j))
    ensures AllProper(e, xs[1..]) && AllProper(e, Without(ys, j))
  {
    WithoutHasType(e, ys, j);
  }

  lemma SameWithPartner(e: Ty, xs: seq<Obj>, ys: seq<Obj>, j: nat)
    requires AllHaveType(e, xs) && AllHaveType(e, ys) && xs != [] && j < |ys|
    requires AllHaveType(e, xs[1..]) && AllHaveType(e, Without(ys, j))
    requires Values(e, xs)[0] == Values(e, ys)[j]
    requires multiset(Values(e, xs[1..])) == multiset(Values(e, Without(ys, j)))
    ensures multiset(Values(e, xs)) == multiset(Values(e, ys))
  {
    hide HasType, ValueOf, Values;
    assert Without(xs, 0) == xs[1..];
    ValuesWithout(e, xs, 0);
    ValuesWithout(e, ys, j);
    SameBag(Values(e, xs), Values(e, ys), j);
  }

  /** So whatever order sets and maps are written in, reading into any target gives the same. */
  lemma OrderCannotBeNoticed(ty: Ty, t: Value, o1: Obj, o2: Obj, r: Bytes)
    requires HasType(ty, o1) && HasType(ty, o2) && SameUpToOrder(ty, o1, o2)
    requires IsProper(ty, o1) && IsProper(ty, o2) && Readable(ty) && Target(ty, t)
    ensures Unserialize(ty, t, Serialize(ty, o1) + r) == Unserialize(ty, t, Serialize(ty, o2) + r)
  {
    OrderIrrelevant(ty, o1, o2);
    MergeLaw(ty, t, o1, r);
    MergeLaw(ty, t, o2, r);
  }

  // ---------------------------------------------------------------- which objects are the same

  lemma {:induction false} SameAsItself(ty: Ty, o: Obj)
    requires HasType(ty, o)
    ensures SameUpToOrder(ty, o, o)
    decreases Rank(ty), 1
  {
    if ty.Pair? {
      SameAsItself(ty.first, o.a);
      SameAsItself(ty.second, o.b);
    } else if ty.Seq? {
      forall i | 0 <= i < |o.items| ensures SameUpToOrder(ty.elem, o.items[i], o.items[i]) {
        SameAsItself(ty.elem, o.items[i]);
      }
    } else if Container(ty) {
      PermutedIsShuffled(ElemType(ty), o.items, o.items);
    }
  }

  lemma {:induction false} PermutedIsShuffled(e: Ty, xs: seq<Obj>, ys: seq<Obj>)
    requires AllHaveType(e, xs) && AllHaveType(e, ys) && multiset(xs) == multiset(ys)
    ensures Shuffled(e, xs, ys)
    decreases Rank(e), 2, |xs|
  {
    hide HasType, SameUpToOrder;
    assert |xs| == |multiset(xs)| == |multiset(ys)| == |ys|;
    if xs != [] {
      var j := Partner(xs, ys);
      SameAsItself(e, xs[0]);
      WithoutHasType(e, ys, j);
      PermutedIsShuffled(e, xs[1..], Without(ys, j));
    }
  }

  lemma Partner(xs: seq<Obj>, ys: seq<Obj>) returns (j: nat)
    requires xs != [] && multiset(xs) == multiset(ys)
    ensures j < |ys| && ys[j] == xs[0] && multiset(xs[1..]) == multiset(Without(ys, j))
  {
    assert xs[0] in multiset(xs);
    assert xs[0] in ys;
    j :| 0 <= j < |ys| && ys[j] == xs[0];
    TakenOut(xs, 0);
    TakenOut(ys, j);
    assert Without(xs, 0) == xs[1..];
    assert multiset(xs[1..]) == multiset(xs) - multiset{xs[0]} == multiset(ys) - multiset{ys[j]};
  }

  /** Any order in which the same elements of a set or map are iterated is the same up to order. */
  lemma PermutedIsSame(ty: Ty, o1: Obj, o2: Obj)
    requires Container(ty) && !ty.Seq? && HasType(ty, o1) && HasType(ty, o2)
    requires multiset(o1.items) == multiset(o2.items)
    ensures SameUpToOrder(ty, o1, o2)
  {
    PermutedIsShuffled(ElemType(ty), o1.items, o2.items);
  }

  /** In a map of proper entries it takes keys of different values, two by two. */
  lemma ProperMapIff(k: Ty, v: Ty, o: Obj)
    requires HasType(MapOf(k, v), o) && AllProper(Pair(k, v), o.items)
    ensures forall i :: 0 <= i < |o.items| ==> o.items[i].Two? && HasType(k, o.items[i].a)
    ensures IsProper(MapOf(k, v), o)
       <==> forall i, j :: 0 <= i < j < |o.items| ==> ValueOf(k, o.items[i].a) != ValueOf(k, o.items[j].a)
  {
    var e := Pair(k, v);
    forall i | 0 <= i < |o.items|
      ensures o.items[i].Two? && HasType(k, o.items[i].a)
      ensures Values(e, o.items)[i].a == ValueOf(k, o.items[i].a)
    {
      assert HasType(e, o.items[i]);
      assert Values(e, o.items)[i] == ValueOf(e, o.items[i]);
    }
  }

  predicate HasMap(ty: Ty) {
    match ty
    case Pod(_) => false
    case Str(_) => false
    case CStr => false
    case Pair(a, b) => HasMap(a) || HasMap(b)
    case Seq(e) => HasMap(e)
    case SetOf(e) => HasMap(e)
    case MultisetOf(e) => HasMap(e)
    case MapOf(_, _) => true
    case MultimapOf(k, v) => HasMap(k) || HasMap(v)
  }

  /** Without maps there is nothing to ask. */
  lemma {:induction false} ProperWithoutMaps(ty: Ty, o: Obj)
    requires HasType(ty, o) && !HasMap(ty)
    ensures IsProper(ty, o)
    decreases Rank(ty)
  {
    if ty.Pair? {
      ProperWithoutMaps(ty.first, o.a);
      ProperWithoutMaps(ty.second, o.b);
    } else if Container(ty) {
      forall i | 0 <= i < |o.items| ensures IsProper(ElemType(ty), o.items[i]) {
        ProperWithoutMaps(ElemType(ty), o.items[i]);
      }
    }
  }
}
