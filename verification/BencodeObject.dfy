/**
 Entries as objects: a tag beside a storage in which at most one payload lives. Every payload
 that is built has a number of its own, so that it can be said which payloads are alive, which
 object owns them, and that none is destroyed twice.
 */
module BencodeObject {
  import opened Bytes
  import opened Decimal
  import opened BencodeEntries

  datatype Tag = INT_T | STRING_T | LIST_T | DICTIONARY_T | UNDEFINED_T

  datatype Payload = PInt(v: Int64) | PStr(s: Text) | PList | PDict(keys: seq<Text>)

  /** The children are the elements of a list, or the values of a map in the order of its keys. */
  datatype Storage = Raw | Live(id: nat, p: Payload, children: seq<Obj>)

  datatype Obj = Obj(tag: Tag, data: Storage)

  const UNDEFINED := Obj(UNDEFINED_T, Raw)

  function TagOf(p: Payload): Tag {
    match p
    case PInt(_) => INT_T
    case PStr(_) => STRING_T
    case PList => LIST_T
    case PDict(_) => DICTIONARY_T
  }

  ghost predicate Ascending(keys: seq<Text>) {
    forall i, j :: 0 <= i < j < |keys| ==> Less(keys[i], keys[j])
  }

  ghost predicate PayloadOK(p: Payload, size: nat) {
    match p
    case PList => true
    case PDict(keys) => |keys| == size && Ascending(keys)
    case _ => size == 0
  }

  /** The tag names the payload that lives in the storage, here and in everything inside. */
  ghost predicate Tagged(o: Obj) {
    match o.data
    case Raw => o.tag == UNDEFINED_T
    case Live(_, p, cs) => o.tag == TagOf(p) && PayloadOK(p, |cs|) && forall i :: 0 <= i < |cs| ==> Tagged(cs[i])
  }

  ghost predicate AllTagged(os: seq<Obj>) {
    forall i :: 0 <= i < |os| ==> Tagged(os[i])
  }

  /** The value of an object. */
  ghost function ValueOf(o: Obj): (e: Entry)
    requires Tagged(o)
    ensures e == Undefined <==> o.data == Raw
    ensures IsMap(e)
    decreases o, 1
  {
    if o.data == Raw then Undefined
    else
      var cs := o.data.children;
      match o.data.p
      case PInt(v) => Int(v)
      case PStr(s) => Str(s)
      case PList => List(Values(cs))
      case PDict(keys) => Dict(Zip(keys, Values(cs)))
  }

  ghost function Values(os: seq<Obj>): (es: seq<Entry>)
    requires AllTagged(os)
    ensures |es| == |os| && forall i :: 0 <= i < |os| ==> es[i] == ValueOf(os[i]) && IsMap(es[i])
    decreases os, 0
  {
    seq(|os|, i requires 0 <= i < |os| => ValueOf(os[i]))
  }

  function Zip(keys: seq<Text>, es: seq<Entry>): (xs: seq<Item>)
    requires |keys| == |es|
    ensures |xs| == |es| && forall i :: 0 <= i < |es| ==> xs[i] == Item(keys[i], es[i])
  {
    seq(|es|, i requires 0 <= i < |es| => Item(keys[i], es[i]))
  }

  /** The payloads an object owns, its own and those inside. */
  ghost function Ids(o: Obj): multiset<nat>
    decreases o, 1
  {
    match o.data
    case Raw => multiset{}
    case Live(id, _, cs) => multiset{id} + IdsAll(cs)
  }

  ghost function IdsAll(os: seq<Obj>): multiset<nat>
    decreases os, 0
  {
    if os == [] then multiset{} else Ids(os[0]) + IdsAll(os[1..])
  }

  // ---------------------------------------------------------------- references

  /** The object at a path of child positions. */
  function At(o: Obj, path: seq<nat>): Option<Obj>
    decreases |path|
  {
    if path == [] then Some(o)
    else if o.data == Raw || |o.data.children| <= path[0] then None
    else At(o.data.children[path[0]], path[1..])
  }

  function Replace(o: Obj, path: seq<nat>, x: Obj): Obj
    requires At(o, path).Some?
    decreases |path|
  {
    if path == [] then x
    else WithChild(o, path[0], Replace(o.data.children[path[0]], path[1..], x))
  }

  function WithChild(o: Obj, i: nat, c: Obj): Obj
    requires o.data.Live? && i < |o.data.children|
  {
    o.(data := o.data.(children := o.data.children[i := c]))
  }

  lemma {:induction false} IdsConcat(a: seq<Obj>, b: seq<Obj>)
    ensures IdsAll(a + b) == IdsAll(a) + IdsAll(b)
    decreases |a|
  {
    if a == [] {
      assert a + b == b;
    } else {
      assert (a + b)[1..] == a[1..] + b;
      IdsConcat(a[1..], b);
    }
  }

  lemma IdsInsert(a: seq<Obj>, x: Obj, b: seq<Obj>)
    ensures IdsAll(a + [x] + b) == Ids(x) + (IdsAll(a) + IdsAll(b))
  {
    IdsConcat(a + [x], b);
    IdsConcat(a, [x]);
    assert [x][1..] == [];
  }

  lemma IdsAppend(os: seq<Obj>, x: Obj)
    ensures IdsAll(os + [x]) == Ids(x) + IdsAll(os)
  {
    IdsInsert(os, x, []);
    assert os + [x] + [] == os + [x];
  }

  /** The payloads of all but one. */
  ghost function Others(os: seq<Obj>, i: nat): multiset<nat>
    requires i < |os|
  {
    IdsAll(os[..i]) + IdsAll(os[i + 1..])
  }

  lemma IdsUpdate(os: seq<Obj>, i: nat, x: Obj)
    requires i < |os|
    ensures IdsAll(os) == Ids(os[i]) + Others(os, i)
    ensures IdsAll(os[i := x]) == Ids(x) + Others(os, i)
  {
    hide IdsAll, Ids;
    var a, b := os[..i], os[i + 1..];
    IdsInsert(a, os[i], b);
    IdsInsert(a, x, b);
    assert os == a + [os[i]] + b;
    assert os[i := x] == a + [x] + b;
  }

  /** The payloads around a place. */
  ghost function Around(o: Obj, path: seq<nat>): multiset<nat>
    requires At(o, path).Some?
    decreases |path|
  {
    if path == [] then multiset{}
    else
      var cs := o.data.children;
      multiset{o.data.id} + Others(cs, path[0]) + Around(cs[path[0]], path[1..])
  }

  /** Putting something else at a place exchanges exactly the payloads there. */
  lemma {:induction false} IdsReplace(o: Obj, path: seq<nat>, x: Obj)
    requires At(o, path).Some?
    ensures Ids(o) == Ids(At(o, path).value) + Around(o, path)
    ensures Ids(Replace(o, path, x)) == Ids(x) + Around(o, path)
    decreases |path|
  {
    if path != [] {
      var c := o.data.children[path[0]];
      IdsReplace(c, path[1..], x);
      IdsUpdate(o.data.children, path[0], Replace(c, path[1..], x));
    }
  }

  /** What is found at a place is well tagged, and so is the whole when something well tagged is put
      there. */
  lemma {:induction false} ReplaceAt(o: Obj, path: seq<nat>, x: Obj)
    requires Tagged(o) && Tagged(x) && At(o, path).Some?
    ensures Tagged(At(o, path).value)
    ensures Tagged(Replace(o, path, x)) && At(Replace(o, path, x), path) == Some(x)
    decreases |path|
  {
    if path != [] {
      var c := o.data.children[path[0]];
      ReplaceAt(c, path[1..], x);
      TaggedWithChild(o, path[0], Replace(c, path[1..], x));
    }
  }

  lemma TaggedWithChild(o: Obj, i: nat, c: Obj)
    requires Tagged(o) && o.data.Live? && i < |o.data.children| && Tagged(c)
    ensures Tagged(WithChild(o, i, c))
  {
  }

  /** Two places of which none is inside the other. */
  predicate Apart(p: seq<nat>, q: seq<nat>) {
    !(p <= q) && !(q <= p)
  }

  /** A place apart keeps what it has. */
  lemma {:induction false} AtApart(o: Obj, p: seq<nat>, q: seq<nat>, x: Obj)
    requires At(o, p).Some? && Apart(p, q)
    ensures At(Replace(o, p, x), q) == At(o, q)
    decreases |p|
  {
    if p != [] && q != [] && p[0] == q[0] {
      assert p == [p[0]] + p[1..] && q == [q[0]] + q[1..];
      AtApart(o.data.children[p[0]], p[1..], q[1..], x);
    }
  }

  /** A place inside is now inside what was put there. */
  lemma {:induction false} AtInside(o: Obj, p: seq<nat>, r: seq<nat>, x: Obj)
    requires At(o, p).Some?
    ensures At(Replace(o, p, x), p + r) == At(x, r)
    decreases |p|
  {
    if p == [] {
      assert p + r == r;
    } else {
      assert (p + r)[1..] == p[1..] + r;
      AtInside(o.data.children[p[0]], p[1..], r, x);
    }
  }

  /** A place around sees the change. */
  lemma {:induction false} AtAround(o: Obj, q: seq<nat>, r: seq<nat>, x: Obj)
    requires At(o, q + r).Some?
    ensures At(o, q).Some? && At(At(o, q).value, r) == At(o, q + r)
    ensures At(Replace(o, q + r, x), q) == Some(Replace(At(o, q).value, r, x))
    decreases |q|
  {
    if q == [] {
      assert q + r == r;
    } else {
      assert (q + r)[1..] == q[1..] + r;
      AtAround(o.data.children[q[0]], q[1..], r, x);
    }
  }

  // ---------------------------------------------------------------- values of parts

  /** Objects of one value have parts of one value at each place. */
  lemma {:induction false} SameParts(a: Obj, b: Obj, path: seq<nat>)
    requires Tagged(a) && Tagged(b) && ValueOf(a) == ValueOf(b) && At(a, path).Some?
    ensures At(b, path).Some? && Tagged(At(a, path).value) && Tagged(At(b, path).value)
    ensures ValueOf(At(a, path).value) == ValueOf(At(b, path).value)
    decreases |path|
  {
    if path != [] {
      SameChildren(a, b, path[0]);
      SameParts(a.data.children[path[0]], b.data.children[path[0]], path[1..]);
    }
  }

  lemma SameChildren(a: Obj, b: Obj, i: nat)
    requires Tagged(a) && Tagged(b) && ValueOf(a) == ValueOf(b)
    requires a.data.Live? && i < |a.data.children|
    ensures b.data.Live? && i < |b.data.children|
    ensures Tagged(a.data.children[i]) && Tagged(b.data.children[i])
    ensures ValueOf(a.data.children[i]) == ValueOf(b.data.children[i])
  {
    var x, y := a.data.children, b.data.children;
    assert Values(x)[i] == ValueOf(x[i]);
    if a.data.p.PDict? {
      assert Zip(a.data.p.keys, Values(x))[i] == Zip(b.data.p.keys, Values(y))[i];
    }
  }

  /** Emptying a place changes the value exactly when there was something. */
  lemma {:induction false} EmptiedIff(o: Obj, path: seq<nat>)
    requires Tagged(o) && At(o, path).Some?
    ensures Tagged(At(o, path).value) && Tagged(Replace(o, path, UNDEFINED))
    ensures ValueOf(Replace(o, path, UNDEFINED)) == ValueOf(o) <==> ValueOf(At(o, path).value) == Undefined
    decreases |path|
  {
    ReplaceAt(o, path, UNDEFINED);
    if path != [] {
      var c := o.data.children[path[0]];
      EmptiedIff(c, path[1..]);
      ChildDecides(o, path[0], Replace(c, path[1..], UNDEFINED));
    }
  }

  lemma ChildDecides(o: Obj, i: nat, c: Obj)
    requires Tagged(o) && o.data.Live? && i < |o.data.children| && Tagged(c)
    requires Tagged(o.data.children[i]) && Tagged(WithChild(o, i, c))
    ensures ValueOf(WithChild(o, i, c)) == ValueOf(o) <==> ValueOf(c) == ValueOf(o.data.children[i])
  {
    var o1, cs := WithChild(o, i, c), o.data.children;
    assert o1.data.children[i] == c;
    if ValueOf(o1) == ValueOf(o) {
      SameChildren(o1, o, i);
    }
    if ValueOf(c) == ValueOf(cs[i]) {
      assert Values(cs[i := c]) == Values(cs);
    }
  }
}
