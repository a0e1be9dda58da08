/**
 References to entry objects and what an assignment through them means. A reference is the path of
 an object: its variable, then child positions. A reference that finds nothing any more dangles.
 */
module BencodeLife {
  import opened Bytes
  import opened BencodeEntries
  import opened BencodeObject

  type Ref = p: seq<nat> | p != [] witness [0]

  /** The variables, seen as the children of one object. */
  function World(roots: seq<Obj>): Obj {
    Obj(LIST_T, Live(0, PList, roots))
  }

  predicate Refers(roots: seq<Obj>, r: Ref) {
    At(World(roots), r).Some?
  }

  function Deref(roots: seq<Obj>, r: Ref): Obj
    requires Refers(roots, r)
  {
    At(World(roots), r).value
  }

  function Write(roots: seq<Obj>, r: Ref, x: Obj): seq<Obj>
    requires Refers(roots, r)
  {
    Replace(World(roots), r, x).data.children
  }

  lemma WorldAfterWrite(roots: seq<Obj>, r: Ref, x: Obj)
    requires Refers(roots, r)
    ensures World(Write(roots, r, x)) == Replace(World(roots), r, x)
  {
  }

  lemma WriteIsTagged(roots: seq<Obj>, r: Ref, x: Obj)
    requires AllTagged(roots) && Tagged(x) && Refers(roots, r)
    ensures Tagged(Deref(roots, r)) && AllTagged(Write(roots, r, x))
    ensures Refers(Write(roots, r, x), r) && Deref(Write(roots, r, x), r) == x
  {
    ReplaceAt(World(roots), r, x);
    WorldAfterWrite(roots, r, x);
  }

  lemma DerefTagged(roots: seq<Obj>, r: Ref)
    requires AllTagged(roots) && Refers(roots, r)
    ensures Tagged(Deref(roots, r))
  {
    WriteIsTagged(roots, r, UNDEFINED);
  }

  lemma {:induction false} ReplaceTwice(o: Obj, path: seq<nat>, x: Obj, y: Obj)
    requires At(o, path).Some?
    ensures At(Replace(o, path, x), path).Some? && Replace(Replace(o, path, x), path, y) == Replace(o, path, y)
    decreases |path|
  {
    if path != [] {
      var c := o.data.children[path[0]];
      ReplaceTwice(c, path[1..], x, y);
      assert o.data.children[path[0] := Replace(c, path[1..], x)][path[0] := Replace(c, path[1..], y)]
          == o.data.children[path[0] := Replace(c, path[1..], y)];
    }
  }

  lemma WriteTwice(roots: seq<Obj>, r: Ref, x: Obj, y: Obj)
    requires Refers(roots, r)
    ensures Refers(Write(roots, r, x), r) && Write(Write(roots, r, x), r, y) == Write(roots, r, y)
  {
    ReplaceTwice(World(roots), r, x, y);
    WorldAfterWrite(roots, r, x);
  }

  /** The payloads of everything but what is at a reference. */
  ghost function Rest(roots: seq<Obj>, r: Ref): multiset<nat>
    requires Refers(roots, r)
  {
    Others(roots, r[0]) + Around(roots[r[0]], r[1..])
  }

  lemma IdsWrite(roots: seq<Obj>, r: Ref, x: Obj)
    requires Refers(roots, r)
    ensures IdsAll(roots) == Ids(Deref(roots, r)) + Rest(roots, r)
    ensures IdsAll(Write(roots, r, x)) == Ids(x) + Rest(roots, r)
  {
    IdsReplace(roots[r[0]], r[1..], x);
    IdsUpdate(roots, r[0], Replace(roots[r[0]], r[1..], x));
  }

  lemma IdsOfEmpty(roots: seq<Obj>, r: Ref)
    requires Refers(roots, r) && Deref(roots, r).data == Raw
    ensures IdsAll(roots) == Rest(roots, r)
  {
    IdsWrite(roots, r, UNDEFINED);
    assert Ids(Deref(roots, r)) == multiset{};
  }

  // ---------------------------------------------------------------- what assignment does

  /** Whether q is a place inside p. */
  predicate Inside(q: Ref, p: Ref) {
    p < q
  }

  /** What the source of an assignment is after the target was destroyed. */
  lemma SourceAfterDestruct(roots: seq<Obj>, dst: Ref, src: Ref)
    requires AllTagged(roots) && Refers(roots, dst) && Refers(roots, src)
    ensures Refers(Write(roots, dst, UNDEFINED), src) <==> !Inside(src, dst)
    ensures src == dst ==> Deref(Write(roots, dst, UNDEFINED), src) == UNDEFINED
    ensures Apart(dst, src) ==> Deref(Write(roots, dst, UNDEFINED), src) == Deref(roots, src)
    ensures Inside(dst, src) ==>
      At(Deref(roots, src), dst[|src|..]) == Some(Deref(roots, dst))
      && Deref(Write(roots, dst, UNDEFINED), src) == Replace(Deref(roots, src), dst[|src|..], UNDEFINED)
  {
    var w := World(roots);
    WorldAfterWrite(roots, dst, UNDEFINED);
    if dst <= src {
      assert src == dst + src[|dst|..];
      AtInside(w, dst, src[|dst|..], UNDEFINED);
    } else if src <= dst {
      assert dst == src + dst[|src|..];
      AtAround(w, src, dst[|src|..], UNDEFINED);
    } else {
      AtApart(w, dst, src, UNDEFINED);
    }
  }

  /** An object around the target still has a payload. */
  lemma EmptiedSource(roots: seq<Obj>, dst: Ref, src: Ref)
    requires AllTagged(roots) && Refers(roots, dst) && Refers(roots, src) && Deref(roots, src).data.Live?
    requires Refers(Write(roots, dst, UNDEFINED), src)
    ensures Deref(Write(roots, dst, UNDEFINED), src).data == Raw <==> dst == src
  {
    SourceAfterDestruct(roots, dst, src);
  }

  /** After an assignment `*this == e` holds exactly when this is not inside e; and this holds what e
      held before exactly when neither is the other or inside it, or this held nothing. */
  lemma AssignmentLaw(roots: seq<Obj>, dst: Ref, src: Ref, x: Obj)
    requires AllTagged(roots) && Refers(roots, dst) && Refers(roots, src) && !Inside(src, dst)
    requires Refers(Write(roots, dst, UNDEFINED), src) && Tagged(Deref(Write(roots, dst, UNDEFINED), src))
    requires Tagged(x) && ValueOf(x) == ValueOf(Deref(Write(roots, dst, UNDEFINED), src))
    ensures var after := Write(roots, dst, x);
      && AllTagged(after) && Refers(after, src) && Tagged(Deref(after, src)) && Tagged(Deref(roots, src))
      && Tagged(Deref(roots, dst))
      && (ValueOf(Deref(after, src)) == ValueOf(x) <==> !Inside(dst, src))
      && (ValueOf(x) == ValueOf(Deref(roots, src)) <==> Apart(dst, src) || ValueOf(Deref(roots, dst)) == Undefined)
  {
    var after := Write(roots, dst, x);
    WriteIsTagged(roots, dst, x);
    WriteIsTagged(roots, src, x);
    WorldAfterWrite(roots, dst, x);
    SourceAfterDestruct(roots, dst, src);
    if src == dst {
    } else if Inside(dst, src) {
      var r := dst[|src|..];
      assert dst == src + r;
      AtAround(World(roots), src, r, x);
      AssignedInside(Deref(roots, src), r, x);
      WriteIsTagged(after, src, x);
    } else {
      AtApart(World(roots), dst, src, x);
    }
  }

  /** The case of a target inside its source. */
  lemma AssignedInside(o: Obj, path: seq<nat>, x: Obj)
    requires Tagged(o) && path != [] && At(o, path).Some? && Tagged(x)
    requires Tagged(Replace(o, path, UNDEFINED)) && ValueOf(x) == ValueOf(Replace(o, path, UNDEFINED))
    ensures Tagged(Replace(o, path, x)) && ValueOf(Replace(o, path, x)) != ValueOf(x)
    ensures Tagged(At(o, path).value)
    ensures ValueOf(x) == ValueOf(o) <==> ValueOf(At(o, path).value) == Undefined
  {
    ReplaceAt(o, path, x);
    EmptiedIff(o, path);
    if ValueOf(Replace(o, path, x)) == ValueOf(x) {
      ReplaceAt(o, path, UNDEFINED);
      SameParts(Replace(o, path, x), Replace(o, path, UNDEFINED), path);
    }
  }

  /** The value at a reference. */
  ghost function Val(roots: seq<Obj>, r: Ref): (e: Entry)
    requires AllTagged(roots) && Refers(roots, r)
    ensures IsMap(e) && (e == Undefined <==> Deref(roots, r).tag == UNDEFINED_T)
  {
    DerefTagged(roots, r);
    ValueOf(Deref(roots, r))
  }

  /** The value of the source of an assignment after the target was destroyed. */
  ghost function Source(roots: seq<Obj>, dst: Ref, src: Ref): Entry
    requires AllTagged(roots) && Refers(roots, dst) && Refers(roots, src) && !Inside(src, dst)
  {
    WriteIsTagged(roots, dst, UNDEFINED);
    SourceAfterDestruct(roots, dst, src);
    Val(Write(roots, dst, UNDEFINED), src)
  }

  /** Nothing but the object at the reference is different. */
  ghost predicate Changed(before: seq<Obj>, after: seq<Obj>, r: Ref) {
    Refers(before, r) && Refers(after, r) && after == Write(before, r, Deref(after, r))
  }

  /** What an assignment that goes well leaves: the target is what the source was once the target was
      destroyed. `*this == e` holds exactly when this is not inside e; and this is what e was before
      exactly when neither is the other or inside it, or this was nothing. */
  ghost predicate Assigned(before: seq<Obj>, after: seq<Obj>, dst: Ref, src: Ref)
    requires AllTagged(before) && AllTagged(after) && Refers(before, dst) && Refers(before, src)
    requires !Inside(src, dst)
  {
    && Changed(before, after, dst) && Refers(after, src)
    && Val(after, dst) == Source(before, dst, src)
    && (Val(after, dst) == Val(after, src) <==> !Inside(dst, src))
    && (Val(after, dst) == Val(before, src) <==> Apart(dst, src) || Val(before, dst) == Undefined)
  }

  lemma AssignedBy(before: seq<Obj>, dst: Ref, src: Ref, x: Obj)
    requires AllTagged(before) && Refers(before, dst) && Refers(before, src) && !Inside(src, dst)
    requires Refers(Write(before, dst, UNDEFINED), src) && Tagged(Deref(Write(before, dst, UNDEFINED), src))
    requires Tagged(x) && ValueOf(x) == ValueOf(Deref(Write(before, dst, UNDEFINED), src))
    ensures AllTagged(Write(before, dst, x)) && Assigned(before, Write(before, dst, x), dst, src)
  {
    AssignmentLaw(before, dst, src, x);
    WriteIsTagged(before, dst, x);
  }

  lemma {:induction false} ReplaceSame(o: Obj, path: seq<nat>)
    requires At(o, path).Some?
    ensures Replace(o, path, At(o, path).value) == o
    decreases |path|
  {
    if path != [] {
      ReplaceSame(o.data.children[path[0]], path[1..]);
      assert o.data.children[path[0] := o.data.children[path[0]]] == o.data.children;
    }
  }

  lemma WriteSame(roots: seq<Obj>, r: Ref)
    requires Refers(roots, r)
    ensures Write(roots, r, Deref(roots, r)) == roots
  {
    ReplaceSame(World(roots), r);
  }

  lemma {:induction false} AroundReplaced(o: Obj, path: seq<nat>, x: Obj)
    requires At(o, path).Some?
    ensures At(Replace(o, path, x), path).Some? && Around(Replace(o, path, x), path) == Around(o, path)
    decreases |path|
  {
    if path != [] {
      var cs := o.data.children;
      var c := Replace(cs[path[0]], path[1..], x);
      AroundReplaced(cs[path[0]], path[1..], x);
      OthersUpdated(cs, path[0], c);
    }
  }

  lemma OthersUpdated(os: seq<Obj>, i: nat, x: Obj)
    requires i < |os|
    ensures Others(os[i := x], i) == Others(os, i)
  {
    assert os[i := x][..i] == os[..i] && os[i := x][i + 1..] == os[i + 1..];
  }

  lemma RestAfterWrite(roots: seq<Obj>, r: Ref, x: Obj)
    requires Refers(roots, r)
    ensures Refers(Write(roots, r, x), r) && Rest(Write(roots, r, x), r) == Rest(roots, r)
  {
    AroundReplaced(roots[r[0]], r[1..], x);
    OthersUpdated(roots, r[0], Replace(roots[r[0]], r[1..], x));
  }

  // ---------------------------------------------------------------- dictionaries and lists

  /** The items of a dictionary; an UNDEFINED entry becomes an empty one. */
  function ItemsOf(e: Entry): seq<Item> {
    if e.Dict? then e.items else []
  }

  lemma NotBehind(keys: seq<Text>, key: Text, pos: nat)
    requires Ascending(keys) && pos <= |keys| && (forall i :: 0 <= i < pos ==> Less(keys[i], key))
    requires pos < |keys| ==> keys[pos] != key && !Less(keys[pos], key)
    ensures key !in keys && (pos < |keys| ==> Less(key, keys[pos]))
  {
    if pos < |keys| {
      LessTrichotomy(keys[pos], key);
    }
    forall i | 0 <= i < |keys| ensures keys[i] != key {
      LessTrichotomy(keys[i], key);
      if i > pos {
        LessTransitive(key, keys[pos], keys[i]);
      }
    }
  }

  /** Where std::map::insert puts an item. */
  lemma {:induction false} InsertAt(items: seq<Item>, x: Item, pos: nat)
    requires pos <= |items| && forall i :: 0 <= i < pos ==> Less(items[i].key, x.key)
    requires pos < |items| ==> items[pos].key == x.key || Less(x.key, items[pos].key)
    ensures Insert(items, x)
         == if pos < |items| && items[pos].key == x.key then items else items[..pos] + [x] + items[pos..]
    decreases pos
  {
    if pos == 0 {
      if items != [] { LessTrichotomy(items[0].key, x.key); }
    } else {
      LessTrichotomy(items[0].key, x.key);
      InsertAt(items[1..], x, pos - 1);
      SpliceTail(items, x, pos);
      assert items == [items[0]] + items[1..];
    }
  }

  lemma SpliceTail(items: seq<Item>, x: Item, pos: nat)
    requires 0 < pos <= |items|
    ensures items[..pos] + [x] + items[pos..]
         == [items[0]] + (items[1..][..pos - 1] + [x] + items[1..][pos - 1..])
  {
  }

  lemma InsertZip(keys: seq<Text>, es: seq<Entry>, key: Text, pos: nat)
    requires |keys| == |es| && pos <= |keys| && forall i :: 0 <= i < pos ==> Less(keys[i], key)
    requires pos < |keys| ==> keys[pos] == key || Less(key, keys[pos])
    ensures Insert(Zip(keys, es), Item(key, Undefined))
         == if pos < |keys| && keys[pos] == key then Zip(keys, es)
            else Zip(keys[..pos] + [key] + keys[pos..], es[..pos] + [Undefined] + es[pos..])
  {
    InsertAt(Zip(keys, es), Item(key, Undefined), pos);
    ZipInsert(keys, es, key, Undefined, pos);
  }

  lemma ZipInsert(keys: seq<Text>, es: seq<Entry>, key: Text, e: Entry, pos: nat)
    requires |keys| == |es| && pos <= |keys|
    ensures Zip(keys, es)[..pos] + [Item(key, e)] + Zip(keys, es)[pos..]
         == Zip(keys[..pos] + [key] + keys[pos..], es[..pos] + [e] + es[pos..])
  {
  }

  /** A dictionary with one more key, under which nothing is stored yet. */
  function WithItem(o: Obj, pos: nat, key: Text): Obj
    requires o.data.Live? && o.data.p.PDict? && pos <= |o.data.children| && pos <= |o.data.p.keys|
  {
    var keys, cs := o.data.p.keys, o.data.children;
    Obj(o.tag, Live(o.data.id, PDict(keys[..pos] + [key] + keys[pos..]), cs[..pos] + [UNDEFINED] + cs[pos..]))
  }

  lemma WithItemTagged(o: Obj, pos: nat, key: Text)
    requires Tagged(o) && o.data.Live? && o.data.p.PDict? && pos <= |o.data.children|
    requires forall i :: 0 <= i < pos ==> Less(o.data.p.keys[i], key)
    requires pos < |o.data.children| ==> Less(key, o.data.p.keys[pos])
    ensures Tagged(WithItem(o, pos, key))
    ensures Values(WithItem(o, pos, key).data.children)
         == Values(o.data.children)[..pos] + [Undefined] + Values(o.data.children)[pos..]
  {
    AscendingInsert(o.data.p.keys, pos, key);
    TaggedInsert(o.data.children, pos);
    ValuesInsert(o.data.children, pos, WithItem(o, pos, key).data.children);
  }

  /** The value of a dictionary after operator[] looked up a key. */
  lemma ValueWithItem(o: Obj, pos: nat, key: Text)
    requires Tagged(o) && o.data.Live? && o.data.p.PDict? && pos <= |o.data.children|
    requires forall i :: 0 <= i < pos ==> Less(o.data.p.keys[i], key)
    requires pos < |o.data.children| ==> o.data.p.keys[pos] == key || Less(key, o.data.p.keys[pos])
    ensures ValueOf(o).Dict?
    ensures var found := pos < |o.data.children| && o.data.p.keys[pos] == key;
      var o1 := if found then o else WithItem(o, pos, key);
      Tagged(o1) && ValueOf(o1) == Dict(Insert(ValueOf(o).items, Item(key, Undefined)))
  {
    var keys, es := o.data.p.keys, Values(o.data.children);
    InsertZip(keys, es, key, pos);
    if !(pos < |keys| && keys[pos] == key) {
      WithItemTagged(o, pos, key);
    }
  }

  lemma TaggedInsert(cs: seq<Obj>, pos: nat)
    requires AllTagged(cs) && pos <= |cs|
    ensures AllTagged(cs[..pos] + [UNDEFINED] + cs[pos..])
  {
    assert Tagged(UNDEFINED);
    hide Tagged;
    var all := cs[..pos] + [UNDEFINED] + cs[pos..];
    forall i | 0 <= i < |all| ensures Tagged(all[i]) {
      assert all[i] == UNDEFINED || all[i] in cs;
    }
  }

  lemma ValuesInsert(cs: seq<Obj>, pos: nat, all: seq<Obj>)
    requires AllTagged(cs) && pos <= |cs| && AllTagged(all) && all == cs[..pos] + [UNDEFINED] + cs[pos..]
    ensures Values(all) == Values(cs)[..pos] + [Undefined] + Values(cs)[pos..]
  {
    var es := Values(cs)[..pos] + [Undefined] + Values(cs)[pos..];
    forall i | 0 <= i < |all| ensures Values(all)[i] == es[i] {
      ValueInserted(cs, pos, all, i);
    }
  }

  lemma ValueInserted(cs: seq<Obj>, pos: nat, all: seq<Obj>, i: nat)
    requires AllTagged(cs) && pos <= |cs| && AllTagged(all) && all == cs[..pos] + [UNDEFINED] + cs[pos..]
    requires i < |all|
    ensures Values(all)[i]
         == if i < pos then Values(cs)[i] else if i == pos then Undefined else Values(cs)[i - 1]
  {
    assert all[i] == if i < pos then cs[i] else if i == pos then UNDEFINED else cs[i - 1];
  }

  lemma AscendingInsert(keys: seq<Text>, pos: nat, key: Text)
    requires Ascending(keys) && pos <= |keys| && forall i :: 0 <= i < pos ==> Less(keys[i], key)
    requires pos < |keys| ==> Less(key, keys[pos])
    ensures Ascending(keys[..pos] + [key] + keys[pos..])
  {
    forall i | pos < i < |keys| ensures Less(key, keys[i]) {
      LessTransitive(key, keys[pos], keys[i]);
    }
    var ks := keys[..pos] + [key] + keys[pos..];
    forall i, j | 0 <= i < j < |ks| ensures Less(ks[i], ks[j]) {
      if i < pos && pos < j { assert ks[i] == keys[i] && ks[j] == keys[j - 1]; }
    }
  }

  lemma IdsWithItem(o: Obj, pos: nat, key: Text)
    requires o.data.Live? && o.data.p.PDict? && pos <= |o.data.children| && pos <= |o.data.p.keys|
    ensures Ids(WithItem(o, pos, key)) == Ids(o)
  {
    IdsAllInsert(o.data.children, pos);
  }

  lemma IdsAllInsert(cs: seq<Obj>, pos: nat)
    requires pos <= |cs|
    ensures IdsAll(cs[..pos] + [UNDEFINED] + cs[pos..]) == IdsAll(cs)
  {
    assert Ids(UNDEFINED) == multiset{};
    hide Ids, IdsAll;
    IdsInsert(cs[..pos], UNDEFINED, cs[pos..]);
    IdsConcat(cs[..pos], cs[pos..]);
    assert cs == cs[..pos] + cs[pos..];
  }

  lemma {:induction false} AtChild(o: Obj, path: seq<nat>, i: nat)
    requires At(o, path).Some? && At(o, path).value.data.Live? && i < |At(o, path).value.data.children|
    ensures At(o, path + [i]) == Some(At(o, path).value.data.children[i])
    decreases |path|
  {
    if path != [] {
      assert (path + [i])[1..] == path[1..] + [i];
      AtChild(o.data.children[path[0]], path[1..], i);
    } else {
      assert At(o.data.children[i], []) == Some(o.data.children[i]);
    }
  }

  /** Entry `pos` of the dictionary at a reference is the one under the key. */
  ghost predicate HasItem(roots: seq<Obj>, r: Ref, pos: nat, key: Text)
    requires AllTagged(roots) && Refers(roots, r)
  {
    && Refers(roots, r + [pos]) && Val(roots, r).Dict? && pos < |Val(roots, r).items|
    && Val(roots, r).items[pos] == Item(key, Val(roots, r + [pos]))
  }

  /** The keys of a dictionary object are those of its value. */
  lemma DictAt(roots: seq<Obj>, r: Ref)
    requires AllTagged(roots) && Refers(roots, r) && Deref(roots, r).tag == DICTIONARY_T
    ensures Deref(roots, r).data.Live? && Deref(roots, r).data.p.PDict? && Ascending(Deref(roots, r).data.p.keys)
    ensures Val(roots, r).Dict? && |Val(roots, r).items| == |Deref(roots, r).data.p.keys|
    ensures forall i :: 0 <= i < |Val(roots, r).items| ==> Val(roots, r).items[i].key == Deref(roots, r).data.p.keys[i]
  {
    DerefTagged(roots, r);
  }

  lemma ItemAt(roots: seq<Obj>, r: Ref, pos: nat, key: Text)
    requires AllTagged(roots) && Refers(roots, r) && Deref(roots, r).data.Live? && Deref(roots, r).data.p.PDict?
    requires pos < |Deref(roots, r).data.p.keys| && Deref(roots, r).data.p.keys[pos] == key
    ensures HasItem(roots, r, pos, key)
  {
    DerefTagged(roots, r);
    AtChild(World(roots), r, pos);
  }

  function WithLast(o: Obj, x: Obj): Obj
    requires o.data.Live?
  {
    o.(data := o.data.(children := o.data.children + [x]))
  }

  lemma WithLastTagged(o: Obj, x: Obj)
    requires Tagged(o) && o.tag == LIST_T && Tagged(x)
    ensures Tagged(WithLast(o, x)) && ValueOf(o).List?
    ensures ValueOf(WithLast(o, x)) == List(ValueOf(o).entries + [ValueOf(x)])
  {
    assert Values(o.data.children + [x]) == Values(o.data.children) + [ValueOf(x)];
  }

  lemma IdsWithLast(o: Obj, x: Obj, rest: multiset<nat>)
    requires o.data.Live?
    ensures Ids(x) + (Ids(o) + rest) == Ids(WithLast(o, x)) + rest
  {
    IdsAppend(o.data.children, x);
  }
}
