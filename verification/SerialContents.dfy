/**
 What the bytes of an object are and what a target holds after reading them, said type by type of the
 contents themselves: of elements, keys and counts.
 */
module SerialContents {
  import opened Bytes
  import opened ByteOrder
  import opened Serial
  import opened SerialSize

  // ---------------------------------------------------------------- the bytes

  /** A container is preceded by the number of its elements in eight bytes, the lowest first. */
  lemma CountIsWritten(ty: Ty, o: Obj)
    requires Container(ty) && HasType(ty, o)
    ensures |Serialize(ty, o)| >= 8 && Serialize(ty, o)[8..] == SerializeAll(ElemType(ty), o.items)
    ensures forall i :: 0 <= i < 8 ==> Serialize(ty, o)[i] == |o.items| / Pow256(i) % 256
  {
    forall i | 0 <= i < 8 ensures Serialize(ty, o)[i] == |o.items| / Pow256(i) % 256 {
      HostByte(|o.items|, 8, i);
    }
  }

  /** A string is preceded by the number of its characters, of whatever width. */
  lemma LengthIsWritten(width: nat, o: Obj)
    requires HasType(Str(width), o)
    ensures |Serialize(Str(width), o)| >= 8 && Serialize(Str(width), o)[8..] == o.bytes
    ensures |o.bytes| / width * width == |o.bytes|
    ensures forall i :: 0 <= i < 8 ==> Serialize(Str(width), o)[i] == |o.bytes| / width / Pow256(i) % 256
  {
    WholeCharacters(|o.bytes|, width);
    var n := |o.bytes| / width;
    forall i | 0 <= i < 8 ensures Serialize(Str(width), o)[i] == n / Pow256(i) % 256 {
      HostByte(n, 8, i);
    }
  }

  lemma FirstWritten(e: Ty, items: seq<Obj>)
    requires items != [] && AllHaveType(e, items)
    ensures AllHaveType(e, items[1..]) && HasType(e, items[0])
    ensures SerializeAll(e, items) == Serialize(e, items[0]) + SerializeAll(e, items[1..])
  {
  }

  /** Elements are written in iteration order. */
  lemma {:induction false} WrittenInOrder(e: Ty, xs: seq<Obj>, ys: seq<Obj>)
    requires AllHaveType(e, xs) && AllHaveType(e, ys) && AllHaveType(e, xs + ys)
    ensures SerializeAll(e, xs + ys) == SerializeAll(e, xs) + SerializeAll(e, ys)
    decreases |xs|
  {
    hide HasType, Serialize, SerializeAll;
    if xs == [] {
      NoneWritten(e);
      assert xs + ys == ys;
    } else {
      FirstWritten(e, xs);
      FirstWritten(e, xs + ys);
      assert (xs + ys)[0] == xs[0] && (xs + ys)[1..] == xs[1..] + ys;
      WrittenInOrder(e, xs[1..], ys);
      Regroup(Serialize(e, xs[0]), SerializeAll(e, xs[1..]), SerializeAll(e, ys));
    }
  }

  lemma NoneWritten(e: Ty)
    ensures SerializeAll(e, []) == []
  {
  }

  // ---------------------------------------------------------------- sequences

  /** The sequence gets the size that was read. Elements it had are merged with the ones read in their
      place, further ones are what was read. */
  lemma SequenceRead(e: Ty, t: Value, o: Obj, r: Bytes)
    requires HasType(Seq(e), o) && Target(Seq(e), t) && Readable(Seq(e))
    ensures var res := Unserialize(Seq(e), t, Serialize(Seq(e), o) + r);
      && res.Good? && res.rest == r && res.value.VSeq? && |res.value.items| == |o.items|
      && forall i :: 0 <= i < |o.items| ==>
           && Target(e, ValueOf(e, o.items[i]))
           && res.value.items[i] == if i < |t.items| then Merge(e, t.items[i], ValueOf(e, o.items[i]))
                                    else ValueOf(e, o.items[i])
  {
    MergeLaw(Seq(e), t, o, r);
    forall i | 0 <= i < |o.items|
      ensures Target(e, ValueOf(e, o.items[i]))
      ensures Merge(Seq(e), t, ValueOf(Seq(e), o)).items[i]
           == if i < |t.items| then Merge(e, t.items[i], ValueOf(e, o.items[i])) else ValueOf(e, o.items[i])
    {
      ValueIsTarget(e, o.items[i]);
      MergeIntoDefault(e, ValueOf(e, o.items[i]));
    }
  }

  /** Every element the sequence had is read into as if it were read alone, and keeps what that keeps. */
  lemma ElementsReadInPlace(e: Ty, t: Value, o: Obj, r: Bytes, i: nat)
    requires HasType(Seq(e), o) && Target(Seq(e), t) && Readable(Seq(e)) && i < |o.items| && i < |t.items|
    ensures var res := Unserialize(Seq(e), t, Serialize(Seq(e), o) + r);
      && res.Good? && res.value.VSeq? && i < |res.value.items|
      && Unserialize(e, t.items[i], Serialize(e, o.items[i])) == Good(res.value.items[i], [])
  {
    SequenceRead(e, t, o, r);
    ReadableElement(e);
    MergeLaw(e, t.items[i], o.items[i], []);
    assert Serialize(e, o.items[i]) + [] == Serialize(e, o.items[i]);
  }

  // ---------------------------------------------------------------- pairs

  /** The members of a pair are read one after the other, each into the member that is there. */
  lemma MembersRead(a: Ty, b: Ty, t: Value, o: Obj, r: Bytes)
    requires HasType(Pair(a, b), o) && Target(Pair(a, b), t) && Readable(Pair(a, b))
    ensures var res := Unserialize(Pair(a, b), t, Serialize(Pair(a, b), o) + r);
      && res.Good? && res.rest == r && res.value.VPair?
      && Unserialize(a, t.a, Serialize(a, o.a)) == Good(res.value.a, [])
      && Unserialize(b, t.b, Serialize(b, o.b)) == Good(res.value.b, [])
  {
    MergeLaw(Pair(a, b), t, o, r);
    MergeLaw(a, t.a, o.a, []);
    MergeLaw(b, t.b, o.b, []);
    assert Serialize(a, o.a) + [] == Serialize(a, o.a) && Serialize(b, o.b) + [] == Serialize(b, o.b);
  }

  // ---------------------------------------------------------------- sets and maps

  /** Some element of the object has this value. */
  ghost predicate Holds(e: Ty, items: seq<Obj>, x: Value)
    requires AllHaveType(e, items)
  {
    exists i :: 0 <= i < |items| && ValueOf(e, items[i]) == x
  }

  /** A set has what it had and the values of the elements read. */
  lemma SetRead(e: Ty, t: Value, o: Obj, r: Bytes, x: Value)
    requires HasType(SetOf(e), o) && Target(SetOf(e), t) && Readable(SetOf(e))
    ensures var res := Unserialize(SetOf(e), t, Serialize(SetOf(e), o) + r);
      && res.Good? && res.rest == r && res.value.VSet?
      && (x in res.value.elems <==> x in t.elems || Holds(e, o.items, x))
  {
    MergeLaw(SetOf(e), t, o, r);
    var vs := Values(e, o.items);
    assert x in vs <==> Holds(e, o.items, x) by {
      if i :| 0 <= i < |vs| && vs[i] == x {
        assert ValueOf(e, o.items[i]) == x;
      }
      if i :| 0 <= i < |o.items| && ValueOf(e, o.items[i]) == x {
        assert vs[i] == x;
      }
    }
  }

  /** So the sets in a sequence keep what they had. */
  lemma SetsInSequence(e: Ty, t: Value, o: Obj, r: Bytes, i: nat, x: Value)
    requires HasType(Seq(SetOf(e)), o) && Target(Seq(SetOf(e)), t) && Readable(Seq(SetOf(e)))
    requires i < |o.items| && i < |t.items|
    ensures var res := Unserialize(Seq(SetOf(e)), t, Serialize(Seq(SetOf(e)), o) + r);
      && res.Good? && res.value.VSeq? && i < |res.value.items| && res.value.items[i].VSet?
      && t.items[i].VSet? && o.items[i].Elems? && AllHaveType(e, o.items[i].items)
      && (x in res.value.items[i].elems <==> x in t.items[i].elems || Holds(e, o.items[i].items, x))
  {
    ElementsReadInPlace(SetOf(e), t, o, r, i);
    ReadableElement(SetOf(e));
    SetRead(e, t.items[i], o.items[i], [], x);
    assert Serialize(SetOf(e), o.items[i]) + [] == Serialize(SetOf(e), o.items[i]);
  }

  /** How often a value is in the list. */
  function Times(vs: seq<Value>, x: Value): nat {
    if vs == [] then 0 else (if vs[0] == x then 1 else 0) + Times(vs[1..], x)
  }

  lemma {:induction false} TimesIsMultiplicity(vs: seq<Value>, x: Value)
    ensures multiset(vs)[x] == Times(vs, x)
  {
    if vs != [] {
      TimesIsMultiplicity(vs[1..], x);
      assert vs == [vs[0]] + vs[1..];
    }
  }

  /** In a multiset or multimap every value occurs as often as before and as often as it was read. */
  lemma BagRead(ty: Ty, t: Value, o: Obj, r: Bytes, x: Value)
    requires (ty.MultisetOf? || ty.MultimapOf?) && HasType(ty, o) && Target(ty, t) && Readable(ty)
    ensures var res := Unserialize(ty, t, Serialize(ty, o) + r);
      && res.Good? && res.rest == r && res.value.VBag?
      && res.value.bag[x] == t.bag[x] + Times(Values(ElemType(ty), o.items), x)
  {
    MergeLaw(ty, t, o, r);
    TimesIsMultiplicity(Values(ElemType(ty), o.items), x);
  }

  /** Entry i is the first with its key. */
  ghost predicate FirstOfKey(k: Ty, items: seq<Obj>, i: nat, key: Value)
    requires forall j :: 0 <= j < |items| ==> items[j].Two? && HasType(k, items[j].a)
  {
    && i < |items| && ValueOf(k, items[i].a) == key
    && forall j :: 0 <= j < i ==> ValueOf(k, items[j].a) != key
  }

  lemma EntriesHaveType(k: Ty, v: Ty, items: seq<Obj>)
    requires AllHaveType(Pair(k, v), items)
    ensures forall j :: 0 <= j < |items| ==> items[j].Two? && HasType(k, items[j].a) && HasType(v, items[j].b)
  {
    forall j | 0 <= j < |items| ensures items[j].Two? && HasType(k, items[j].a) && HasType(v, items[j].b) {
      assert HasType(Pair(k, v), items[j]);
    }
  }

  /** A map has the keys it had, with the values it had for them, and for every other key that was read the
      value of the first entry with that key. */
  lemma MapRead(k: Ty, v: Ty, t: Value, o: Obj, r: Bytes, key: Value)
    requires HasType(MapOf(k, v), o) && Target(MapOf(k, v), t) && Readable(MapOf(k, v))
    ensures var res := Unserialize(MapOf(k, v), t, Serialize(MapOf(k, v), o) + r);
      && res.Good? && res.rest == r && res.value.VMap?
      && (forall j :: 0 <= j < |o.items| ==> o.items[j].Two? && HasType(k, o.items[j].a) && HasType(v, o.items[j].b))
      && (key in t.m ==> key in res.value.m && res.value.m[key] == t.m[key])
      && (key in res.value.m ==> key in t.m || exists i: nat :: FirstOfKey(k, o.items, i, key))
      && (key !in t.m ==> forall i: nat :: FirstOfKey(k, o.items, i, key) ==>
            key in res.value.m && res.value.m[key] == ValueOf(v, o.items[i].b))
  {
    MergeLaw(MapOf(k, v), t, o, r);
    EntriesHaveType(k, v, o.items);
    if key in ToMap(map[], Values(Pair(k, v), o.items)) {
      ToMapEntry(k, v, o.items, key);
    }
    if key !in t.m {
      forall i: nat | FirstOfKey(k, o.items, i, key)
        ensures key in ToMap(map[], Values(Pair(k, v), o.items))
        ensures ToMap(map[], Values(Pair(k, v), o.items))[key] == ValueOf(v, o.items[i].b)
      {
        ToMapFirst(k, v, o.items, i, key);
      }
    }
  }

  lemma FirstAndOthers(k: Ty, v: Ty, items: seq<Obj>)
    requires items != [] && AllHaveType(Pair(k, v), items)
    ensures AllHaveType(Pair(k, v), items[1..])
    ensures items[0].Two? && HasType(k, items[0].a) && HasType(v, items[0].b)
    ensures ToMap(map[], Values(Pair(k, v), items))
         == ToMap(map[], Values(Pair(k, v), items[1..])) + map[ValueOf(k, items[0].a) := ValueOf(v, items[0].b)]
  {
    EntriesHaveType(k, v, items);
    var x := VPair(ValueOf(k, items[0].a), ValueOf(v, items[0].b));
    assert ValueOf(Pair(k, v), items[0]) == x;
    var vs, rest := Values(Pair(k, v), items), Values(Pair(k, v), items[1..]);
    assert vs == [x] + rest;
    assert vs[1..] == rest;
    ToMapIsUnion(Insert(map[], x.a, x.b), rest);
  }

  lemma {:induction false} ToMapEntry(k: Ty, v: Ty, items: seq<Obj>, key: Value)
    requires AllHaveType(Pair(k, v), items) && key in ToMap(map[], Values(Pair(k, v), items))
    requires forall j :: 0 <= j < |items| ==> items[j].Two? && HasType(k, items[j].a)
    ensures exists i: nat :: FirstOfKey(k, items, i, key)
    decreases |items|
  {
    hide HasType, ValueOf, Values;
    if items != [] {
      FirstAndOthers(k, v, items);
      if ValueOf(k, items[0].a) == key {
        assert FirstOfKey(k, items, 0, key);
      } else {
        var rest := items[1..];
        ToMapEntry(k, v, rest, key);
        var i: nat :| FirstOfKey(k, rest, i, key);
        assert FirstOfKey(k, items, i + 1, key) by {
          forall j | 0 <= j < i + 1 ensures ValueOf(k, items[j].a) != key {
            if j > 0 { assert items[j] == rest[j - 1]; }
          }
        }
      }
    }
  }

  lemma {:induction false} ToMapFirst(k: Ty, v: Ty, items: seq<Obj>, i: nat, key: Value)
    requires AllHaveType(Pair(k, v), items)
    requires forall j :: 0 <= j < |items| ==> items[j].Two? && HasType(k, items[j].a) && HasType(v, items[j].b)
    requires FirstOfKey(k, items, i, key)
    ensures var m := ToMap(map[], Values(Pair(k, v), items)); key in m && m[key] == ValueOf(v, items[i].b)
    decreases |items|
  {
    hide HasType, ValueOf, Values, ToMap;
    FirstAndOthers(k, v, items);
    if i > 0 {
      var rest := items[1..];
      assert FirstOfKey(k, rest, i - 1, key) by {
        forall j | 0 <= j < i - 1 ensures ValueOf(k, rest[j].a) != key {
          assert rest[j] == items[j + 1];
        }
      }
      ToMapFirst(k, v, rest, i - 1, key);
      assert ValueOf(k, items[0].a) != key;
    }
  }

  // ---------------------------------------------------------------- types

  /** A type and the types inside it. */
  function Parts(ty: Ty): set<Ty> {
    {ty} +
    match ty
    case Pod(_) => {}
    case Str(_) => {}
    case CStr => {}
    case Pair(a, b) => Parts(a) + Parts(b)
    case Seq(e) => Parts(e)
    case SetOf(e) => Parts(e)
    case MultisetOf(e) => Parts(e)
    case MapOf(k, v) => Parts(k) + Parts(v)
    case MultimapOf(k, v) => Parts(k) + Parts(v)
  }

  /** Every type whose numbers and characters have at least one byte is modelled. */
  lemma {:induction false} TypeOKIff(ty: Ty)
    ensures TypeOK(ty) <==> forall c :: c in Parts(ty) ==> (c.Pod? ==> c.size >= 1) && (c.Str? ==> c.width >= 1)
  {
    match ty
    case Pod(_) =>
    case Str(_) =>
    case CStr =>
    case Pair(a, b) =>
      TypeOKIff(a);
      TypeOKIff(b);
    case Seq(e) => TypeOKIff(e);
    case SetOf(e) => TypeOKIff(e);
    case MultisetOf(e) => TypeOKIff(e);
    case MapOf(k, v) =>
      TypeOKIff(k);
      TypeOKIff(v);
      assert TypeOK(ty) == TypeOK(Pair(k, v));
    case MultimapOf(k, v) =>
      TypeOKIff(k);
      TypeOKIff(v);
      assert TypeOK(ty) == TypeOK(Pair(k, v));
  }

  lemma {:induction false} HasCStrIff(ty: Ty)
    ensures HasCStr(ty) <==> CStr in Parts(ty)
  {
    match ty
    case Pod(_) =>
    case Str(_) =>
    case CStr =>
    case Pair(a, b) =>
      HasCStrIff(a);
      HasCStrIff(b);
    case Seq(e) => HasCStrIff(e);
    case SetOf(e) => HasCStrIff(e);
    case MultisetOf(e) => HasCStrIff(e);
    case MapOf(k, v) =>
      HasCStrIff(k);
      HasCStrIff(v);
      assert HasCStr(ty) == HasCStr(Pair(k, v));
    case MultimapOf(k, v) =>
      HasCStrIff(k);
      HasCStrIff(v);
      assert HasCStr(ty) == HasCStr(Pair(k, v));
  }

  lemma {:induction false} PartsOfPart(ty: Ty, c: Ty)
    requires c in Parts(ty)
    ensures Parts(c) <= Parts(ty)
  {
    if c != ty {
      match ty
      case Pair(a, b) => if c in Parts(a) { PartsOfPart(a, c); } else { PartsOfPart(b, c); }
      case Seq(e) => PartsOfPart(e, c);
      case SetOf(e) => PartsOfPart(e, c);
      case MultisetOf(e) => PartsOfPart(e, c);
      case MapOf(k, v) => if c in Parts(k) { PartsOfPart(k, c); } else { PartsOfPart(v, c); }
      case MultimapOf(k, v) => if c in Parts(k) { PartsOfPart(k, c); } else { PartsOfPart(v, c); }
    }
  }

  /** No container in it has a C string in it. */
  ghost predicate NoCStrInContainer(ty: Ty) {
    forall c :: c in Parts(ty) && Container(c) ==> CStr !in Parts(c)
  }

  lemma {:induction false} ReadableIff(ty: Ty)
    ensures Readable(ty) <==> NoCStrInContainer(ty)
  {
    if ty.Pair? {
      ReadableIff(ty.first);
      ReadableIff(ty.second);
    } else if Container(ty) {
      HasCStrIff(ty);
      forall c | c in Parts(ty) && CStr !in Parts(ty) ensures CStr !in Parts(c) {
        PartsOfPart(ty, c);
      }
      assert ty in Parts(ty);
    }
  }

  /** No container in it has its size multiplied although there are C strings in its elements. */
  ghost predicate NoPointerCounted(ty: Ty) {
    forall c :: c in Parts(ty) && Container(c) && Shortcut(c) ==> CStr !in Parts(ElemType(c))
  }

  lemma {:induction false} ExactIff(ty: Ty)
    ensures Exact(ty) <==> NoPointerCounted(ty)
    decreases Rank(ty)
  {
    if ty.Pair? {
      ExactIff(ty.first);
      ExactIff(ty.second);
    } else if Container(ty) {
      var e := ElemType(ty);
      ExactIff(e);
      HasCStrIff(e);
      ContainerParts(ty);
    }
  }

  /** Beside itself a container has the parts of its elements; a map's pairs are none of its own. */
  lemma ContainerParts(ty: Ty)
    requires Container(ty)
    ensures forall c :: Container(c) ==> (c in Parts(ty) <==> c == ty || c in Parts(ElemType(ty)))
  {
  }
}
