/**
 A program with entry variables: constructors, destructor, assignments and the accessors that
 construct on demand, with the account of all payloads ever built.
 */
module BencodeProgram {
  import opened Decimal
  import opened BencodeEntries
  import opened BencodeObject
  import opened BencodeLife

  // ---------------------------------------------------------------- objects being built and destroyed

  /** The first n payload numbers, each once. */
  ghost function All(n: nat): multiset<nat> {
    if n == 0 then multiset{} else All(n - 1) + multiset{n - 1}
  }

  lemma {:induction false} AllOnce(n: nat, id: nat)
    ensures All(n)[id] == if id < n then 1 else 0
  {
    if n > 0 { AllOnce(n - 1, id); }
  }

  lemma IdsOfNone()
    ensures IdsAll([]) == multiset{}
  {
  }

  lemma RegroupIds(a: multiset<nat>, b: multiset<nat>, c: multiset<nat>)
    ensures a + (b + c) == a + b + c
  {
  }

  lemma ExchangeIds(a: multiset<nat>, b: multiset<nat>, c: multiset<nat>)
    ensures b + (a + c) == a + (b + c)
  {
  }

  lemma IdsInAndOut(o: Obj, more: multiset<nat>)
    requires o.data.Live?
    ensures Ids(o) + more == IdsAll(o.data.children) + (multiset{o.data.id} + more)
    ensures Ids(o) + more == multiset{o.data.id} + (IdsAll(o.data.children) + more)
  {
  }

  lemma IdsFrom(os: seq<Obj>, i: nat, more: multiset<nat>)
    requires i < |os|
    ensures IdsAll(os[i..]) + more == Ids(os[i]) + (IdsAll(os[i + 1..]) + more)
  {
    assert os[i..][1..] == os[i + 1..];
  }

  lemma SameValues(a: seq<Obj>, b: seq<Obj>)
    requires AllTagged(a) && AllTagged(b) && |a| == |b|
    requires forall k :: 0 <= k < |a| ==> ValueOf(a[k]) == ValueOf(b[k])
    ensures Values(a) == Values(b)
  {
  }

  /** What a default constructor makes. */
  predicate IsNew(t: Tag, e: Entry) {
    match t
    case INT_T => e.Int?
    case STRING_T => e == Str([])
    case LIST_T => e == List([])
    case DICTIONARY_T => e == Dict([])
    case UNDEFINED_T => e == Undefined
  }

  /** One variable more. */
  ghost predicate Gained(before: seq<Obj>, after: seq<Obj>) {
    |after| == |before| + 1 && after[..|before|] == before
  }

  /** There is a payload, which is an integer or not. */
  predicate HasPayload(roots: seq<Obj>, r: Ref, int_payload: bool)
    requires Refers(roots, r)
  {
    Deref(roots, r).data.Live? && Deref(roots, r).data.p.PInt? == int_payload
  }

  datatype Step =
    | New(t: Tag)
    | NewScalar(p: Payload)
    | NewCopy(src: Ref)
    | Leave
    | Set(dst: Ref, src: Ref)
    | SetPayload(dst: Ref, src: Ref)
    | SetScalar(dst: Ref, p: Payload)
    | Get(r: Ref, t: Tag)
    | Find(r: Ref, key: Text)
    | Lookup(r: Ref, key: Text)
    | Push(r: Ref, src: Ref)
  {
    /** The references exist, and what is pushed to or read from is there. */
    predicate Runs(roots: seq<Obj>) {
      match this
      case New(_) => true
      case NewScalar(p) => p.PInt? || p.PStr?
      case NewCopy(src) => Refers(roots, src)
      case Leave => roots != []
      case Set(dst, src) => Refers(roots, dst) && Refers(roots, src)
      case SetPayload(dst, src) =>
        Refers(roots, dst) && Refers(roots, src) && (HasPayload(roots, src, true) || HasPayload(roots, src, false))
      case SetScalar(dst, p) => Refers(roots, dst) && (p.PInt? || p.PStr?)
      case Get(r, t) => Refers(roots, r) && t != UNDEFINED_T
      case Find(r, _) => Refers(roots, r)
      case Lookup(r, _) => Refers(roots, r)
      case Push(r, src) => Refers(roots, r) && Refers(roots, src) && Deref(roots, r).tag == LIST_T
    }

    /** And no assertion fails and no destroyed payload is read. */
    predicate Succeeds(roots: seq<Obj>) {
      Runs(roots) &&
      match this
      case Set(dst, src) => !Inside(src, dst)
      case SetPayload(dst, src) => if HasPayload(roots, src, true) then !Inside(src, dst) else !(dst <= src)
      case Get(r, t) => Deref(roots, r).tag in {UNDEFINED_T, t}
      case Find(r, _) => Deref(roots, r).tag in {UNDEFINED_T, DICTIONARY_T}
      case Lookup(r, _) => Deref(roots, r).tag in {UNDEFINED_T, DICTIONARY_T}
      case _ => true
    }

    /** What a step that goes well does to the variables and their values. */
    ghost predicate Leads(before: seq<Obj>, after: seq<Obj>)
      requires AllTagged(before) && AllTagged(after) && Succeeds(before)
    {
      match this
      case New(t) => Gained(before, after) && IsNew(t, ValueOf(after[|before|]))
      case NewScalar(p) => Gained(before, after) && ValueOf(after[|before|]) == ScalarValue(p)
      case NewCopy(src) => Gained(before, after) && ValueOf(after[|before|]) == Val(before, src)
      case Leave => after == before[..|before| - 1]
      case Set(dst, src) => Assigned(before, after, dst, src)
      case SetPayload(dst, src) =>
        if HasPayload(before, src, true) then Changed(before, after, dst) && Val(after, dst) == Val(before, src)
        else Assigned(before, after, dst, src)
      case SetScalar(dst, p) => Changed(before, after, dst) && Val(after, dst) == ScalarValue(p)
      case Get(r, t) =>
        Changed(before, after, r) &&
        if Deref(before, r).tag == UNDEFINED_T then IsNew(t, Val(after, r)) else after == before
      case Find(r, _) => Changed(before, after, r) && Val(after, r) == Dict(ItemsOf(Val(before, r)))
      case Lookup(r, key) =>
        Changed(before, after, r) && Val(after, r) == Dict(Insert(ItemsOf(Val(before, r)), Item(key, Undefined)))
      case Push(r, src) =>
        && Changed(before, after, r) && Val(before, r).List?
        && Val(after, r) == List(Val(before, r).entries + [Val(before, src)])
    }
  }

  /** What a program may do: everything that names objects there are, the payloads it takes from them and
      the list it pushes to. */
  lemma StepsThereAre(roots: seq<Obj>, r: Ref, src: Ref, v: Int64, s: Text, t: Tag)
    ensures New(t).Runs(roots) && NewScalar(PInt(v)).Runs(roots) && NewScalar(PStr(s)).Runs(roots)
    ensures Leave.Runs(roots) <==> |roots| > 0
    ensures NewCopy(src).Runs(roots) <==> Refers(roots, src)
    ensures Refers(roots, r) ==>
      && SetScalar(r, PInt(v)).Runs(roots) && SetScalar(r, PStr(s)).Runs(roots)
      && Find(r, s).Runs(roots) && Lookup(r, s).Runs(roots) && (t != UNDEFINED_T ==> Get(r, t).Runs(roots))
    ensures Refers(roots, r) && Refers(roots, src) ==>
      && Set(r, src).Runs(roots)
      && (Deref(roots, src).data.Live? ==> SetPayload(r, src).Runs(roots))
      && (Deref(roots, r).tag == LIST_T ==> Push(r, src).Runs(roots))
  {
  }

  function ScalarValue(p: Payload): Entry
    requires p.PInt? || p.PStr?
  {
    if p.PInt? then Int(p.v) else Str(p.s)
  }

  /** Of two places apart, none owns a payload of the other, and nothing they own was destroyed: copies
      are deep. */
  lemma OwnersAreDisjoint(roots: seq<Obj>, built: nat, destroyed: multiset<nat>, p: Ref, q: Ref)
    requires AllTagged(roots) && IdsAll(roots) + destroyed == All(built)
    requires Refers(roots, p) && Refers(roots, q) && Apart(p, q)
    ensures Ids(Deref(roots, p)) !! Ids(Deref(roots, q)) && Ids(Deref(roots, p)) !! destroyed
  {
    IdsWrite(roots, p, UNDEFINED);
    SourceAfterDestruct(roots, p, q);
    IdsWrite(Write(roots, p, UNDEFINED), q, UNDEFINED);
    var a, b := Ids(Deref(roots, p)), Ids(Deref(roots, q));
    var c := Rest(Write(roots, p, UNDEFINED), q);
    assert IdsAll(roots) == a + (b + c);
    forall id: nat ensures a[id] + b[id] + destroyed[id] <= 1 {
      AllOnce(built, id);
      assert (a + (b + c) + destroyed)[id] == All(built)[id];
    }
  }

  /** operator==: the tags, then the payloads; containers element by element. */
  method Equals(a: Obj, b: Obj) returns (same: bool)
    requires Tagged(a) && Tagged(b)
    ensures same <==> ValueOf(a) == ValueOf(b)
    decreases a
  {
    if a.tag != b.tag {
      return false;
    }
    if a.tag == UNDEFINED_T {
      return true;
    }
    var x, y := a.data.children, b.data.children;
    if a.data.p != b.data.p || |x| != |y| {
      SamePayloads(a, b);
      return false;
    }
    for i := 0 to |x|
      invariant forall k :: 0 <= k < i ==> ValueOf(x[k]) == ValueOf(y[k])
    {
      same := Equals(x[i], y[i]);
      if !same {
        SameChild(a, b, i);
        return;
      }
    }
    SameValues(x, y);
    same := true;
  }

  lemma SamePayloads(a: Obj, b: Obj)
    requires Tagged(a) && Tagged(b) && a.data.Live? && b.data.Live?
    ensures ValueOf(a) == ValueOf(b) ==> a.data.p == b.data.p && |a.data.children| == |b.data.children|
  {
    if ValueOf(a) == ValueOf(b) && a.data.p.PDict? {
      var k1, k2 := a.data.p.keys, b.data.p.keys;
      var xs, ys := Zip(k1, Values(a.data.children)), Zip(k2, Values(b.data.children));
      assert forall i :: 0 <= i < |k1| ==> xs[i].key == k1[i] && ys[i].key == k2[i];
    }
  }

  lemma SameChild(a: Obj, b: Obj, i: nat)
    requires Tagged(a) && Tagged(b) && a.data.Live? && b.data.Live?
    requires i < |a.data.children| && i < |b.data.children|
    ensures Tagged(a.data.children[i]) && Tagged(b.data.children[i])
    ensures ValueOf(a) == ValueOf(b) ==> ValueOf(a.data.children[i]) == ValueOf(b.data.children[i])
  {
    if ValueOf(a) == ValueOf(b) {
      SameChildren(a, b, i);
    }
  }

  lemma SameWhole(a: Obj, b: Obj)
    requires Tagged(a) && Tagged(b) && a.data.Live? && b.data.Live? && a.data.p == b.data.p
    requires Values(a.data.children) == Values(b.data.children)
    ensures ValueOf(a) == ValueOf(b)
  {
  }

  class Program {
    var roots: seq<Obj>
    /** How many payloads were built; they are numbered in that order. */
    var built: nat
    /** How often each payload was destroyed. */
    var destroyed: multiset<nat>

    constructor ()
      ensures Inv() && roots == [] && built == 0 && destroyed == multiset{}
    {
      roots, built, destroyed := [], 0, multiset{};
    }

    /** Every payload built has either exactly one owner, or has been destroyed exactly once. */
    ghost predicate Balanced(owned: multiset<nat>)
      reads this`built, this`destroyed
    {
      owned + destroyed == All(built)
    }

    ghost predicate Inv()
      reads this
    {
      AllTagged(roots) && Balanced(IdsAll(roots))
    }

    /** new(data) T(...) */
    method Build(p: Payload, children: seq<Obj>, ghost owned: multiset<nat>) returns (o: Obj)
      requires Balanced(IdsAll(children) + owned)
      requires AllTagged(children) && PayloadOK(p, |children|)
      modifies this`built
      ensures Tagged(o) && Balanced(Ids(o) + owned)
      ensures o == Obj(TagOf(p), Live(old(built), p, children))
    {
      o := Obj(TagOf(p), Live(built, p, children));
      built := built + 1;
    }

    /** call_destructor on a payload of the type the tag names. */
    method Destroy(tag: Tag, data: Storage, ghost owned: multiset<nat>)
      requires data.Live? && tag == TagOf(data.p) && Balanced(multiset{data.id} + owned)
      modifies this`destroyed
      ensures destroyed == multiset{data.id} + old(destroyed) && old(destroyed)[data.id] == 0
      ensures Balanced(owned)
    {
      AllOnce(built, data.id);
      assert (multiset{data.id} + owned + destroyed)[data.id] == All(built)[data.id];
      destroyed := multiset{data.id} + destroyed;
    }

    /** Construct on an entry without a payload. An integer gets no particular value. */
    method Construct(t: Tag, ghost owned: multiset<nat>) returns (o: Obj)
      requires Balanced(owned)
      modifies this`built
      ensures Tagged(o) && Balanced(Ids(o) + owned) && o.tag == t
      ensures IsNew(t, ValueOf(o))
    {
      if t == UNDEFINED_T {
        return UNDEFINED;
      }
      var indeterminate: Int64 := *;
      var p := match t case INT_T => PInt(indeterminate) case STRING_T => PStr([])
        case LIST_T => PList case _ => PDict([]);
      o := Build(p, [], owned);
    }

    /** Copy into an entry without a payload. */
    method Copy(e: Obj, ghost owned: multiset<nat>) returns (o: Obj)
      requires Tagged(e) && Balanced(owned)
      modifies this`built
      ensures Tagged(o) && Balanced(Ids(o) + owned) && ValueOf(o) == ValueOf(e)
      decreases e, 1
    {
      if e.tag == UNDEFINED_T {
        return UNDEFINED;
      }
      hide Balanced, Ids, IdsAll, ValueOf, IsMap;
      var children := CopyAll(e.data.children, owned);
      o := Build(e.data.p, children, owned);
      SameWhole(o, e);
    }

    /** The copy constructors of the containers. */
    method CopyAll(es: seq<Obj>, ghost owned: multiset<nat>) returns (os: seq<Obj>)
      requires AllTagged(es) && Balanced(owned)
      modifies this`built
      ensures AllTagged(os) && Balanced(IdsAll(os) + owned) && Values(os) == Values(es)
      decreases es, 0
    {
      IdsOfNone();
      hide Ids, IdsAll, Balanced, Tagged, ValueOf;
      assert multiset{} + owned == owned;
      os := [];
      for i := 0 to |es|
        invariant AllTagged(os) && |os| == i && Balanced(IdsAll(os) + owned)
        invariant forall k :: 0 <= k < i ==> ValueOf(os[k]) == ValueOf(es[k])
      {
        var o := Copy(es[i], IdsAll(os) + owned);
        IdsAppend(os, o);
        RegroupIds(Ids(o), IdsAll(os), owned);
        os := os + [o];
      }
      SameValues(os, es);
    }

    /** Destruct: the destructor of the payload destroys what is inside. */
    method Destruct(o: Obj, ghost owned: multiset<nat>) returns (r: Obj)
      requires Tagged(o) && Balanced(Ids(o) + owned)
      modifies this`destroyed
      ensures r == UNDEFINED && Balanced(owned)
      ensures destroyed == Ids(o) + old(destroyed)
      decreases o, 1
    {
      if o.tag == UNDEFINED_T {
        assert multiset{} + owned == owned && multiset{} + destroyed == destroyed;
      } else {
        IdsInAndOut(o, owned);
        IdsInAndOut(o, destroyed);
        hide Ids, IdsAll, Balanced;
        DestructAll(o.data.children, multiset{o.data.id} + owned);
        Destroy(o.tag, o.data, owned);
      }
      r := UNDEFINED;
    }

    /** The destructors of the containers. */
    method DestructAll(os: seq<Obj>, ghost owned: multiset<nat>)
      requires AllTagged(os) && Balanced(IdsAll(os) + owned)
      modifies this`destroyed
      ensures Balanced(owned)
      ensures destroyed == IdsAll(os) + old(destroyed)
      decreases os, 0
    {
      IdsOfNone();
      hide Ids, IdsAll, Balanced, Tagged;
      assert os[0..] == os;
      for i := 0 to |os|
        invariant Balanced(IdsAll(os[i..]) + owned)
        invariant IdsAll(os[i..]) + destroyed == IdsAll(os) + old(destroyed)
      {
        IdsFrom(os, i, owned);
        IdsFrom(os, i, destroyed);
        ExchangeIds(Ids(os[i]), IdsAll(os[i + 1..]), destroyed);
        var r := Destruct(os[i], IdsAll(os[i + 1..]) + owned);
      }
      assert os[|os|..] == [] && multiset{} + owned == owned;
    }

    // -------------------------------------------------------------- variables

    /** A new variable takes over an object. */
    method Own(o: Obj)
      requires AllTagged(roots) && Tagged(o) && Balanced(Ids(o) + IdsAll(roots))
      modifies this`roots
      ensures Inv() && roots == old(roots) + [o]
    {
      IdsAppend(roots, o);
      roots := roots + [o];
    }

    /** BencodeEntry(DataType); with UNDEFINED_T also BencodeEntry(). */
    method Declare(t: Tag)
      requires Inv()
      modifies this
      ensures Inv() && |roots| == |old(roots)| + 1 && roots[..|old(roots)|] == old(roots)
      ensures IsNew(t, ValueOf(roots[|old(roots)|]))
    {
      var o := Construct(t, IdsAll(roots));
      Own(o);
    }

    /** BencodeEntry(IntegerType const&) and BencodeEntry(StringType const&). */
    method DeclareScalar(p: Payload)
      requires Inv() && (p.PInt? || p.PStr?)
      modifies this
      ensures Inv() && |roots| == |old(roots)| + 1 && roots[..|old(roots)|] == old(roots)
      ensures ValueOf(roots[|old(roots)|]) == ScalarValue(p)
    {
      var o := Build(p, [], IdsAll(roots));
      Own(o);
    }

    /** BencodeEntry(BencodeEntry const&) */
    method DeclareCopy(src: Ref)
      requires Inv() && Refers(roots, src)
      modifies this
      ensures Inv() && |roots| == |old(roots)| + 1 && roots[..|old(roots)|] == old(roots)
      ensures ValueOf(roots[|old(roots)|]) == Val(old(roots), src)
    {
      DerefTagged(roots, src);
      var o := Copy(Deref(roots, src), IdsAll(roots));
      Own(o);
    }

    /** ~BencodeEntry of the last variable. */
    method Drop()
      requires Inv() && roots != []
      modifies this
      ensures Inv() && roots == old(roots)[..|old(roots)| - 1]
      ensures destroyed == Ids(old(roots)[|old(roots)| - 1]) + old(destroyed) && built == old(built)
    {
      var n := |roots| - 1;
      IdsAppend(roots[..n], roots[n]);
      assert roots == roots[..n] + [roots[n]];
      var r := Destruct(roots[n], IdsAll(roots[..n]));
      roots := roots[..n];
    }

    // -------------------------------------------------------------- assignment

    /** The object at a reference is exchanged. */
    method Store(r: Ref, o: Obj)
      requires AllTagged(roots) && Refers(roots, r) && Tagged(o) && Balanced(Ids(o) + Rest(roots, r))
      modifies this`roots
      ensures Inv() && roots == Write(old(roots), r, o) && Refers(roots, r) && Deref(roots, r) == o
      ensures Rest(roots, r) == Rest(old(roots), r)
    {
      hide Balanced, Ids, Tagged;
      WriteIsTagged(roots, r, o);
      IdsWrite(roots, r, o);
      RestAfterWrite(roots, r, o);
      roots := Write(roots, r, o);
    }

    /** Destruct() on the object at a reference. */
    method Empty(r: Ref)
      requires Inv() && Refers(roots, r)
      modifies this
      ensures Inv() && roots == Write(old(roots), r, UNDEFINED) && Refers(roots, r)
      ensures Rest(roots, r) == Rest(old(roots), r) && Balanced(Rest(roots, r))
    {
      WriteIsTagged(roots, r, UNDEFINED);
      IdsWrite(roots, r, UNDEFINED);
      var o := Destruct(Deref(roots, r), Rest(roots, r));
      assert multiset{} + Rest(roots, r) == Rest(roots, r);
      Store(r, o);
    }

    /** Destruct was called on the target: copies the source as it is now. */
    method CopyInto(dst: Ref, src: Ref, ghost before: seq<Obj>)
      requires AllTagged(before) && Refers(before, dst) && Refers(before, src) && !Inside(src, dst)
      requires Inv() && roots == Write(before, dst, UNDEFINED) && Refers(roots, dst) && Refers(roots, src)
      requires Balanced(Rest(roots, dst))
      modifies this
      ensures Inv() && Assigned(before, roots, dst, src)
    {
      DerefTagged(roots, src);
      var o := Copy(Deref(roots, src), Rest(roots, dst));
      AssignedBy(before, dst, src, o);
      WriteTwice(before, dst, UNDEFINED, o);
      hide Assigned, Write, Balanced;
      Store(dst, o);
    }

    /** operator=(BencodeEntry const&): Destruct, then Copy. It goes wrong when the source was destroyed
        with the target. */
    method Assign(dst: Ref, src: Ref) returns (ok: bool)
      requires Inv() && Refers(roots, dst) && Refers(roots, src)
      modifies this
      ensures ok <==> !Inside(src, dst)
      ensures ok ==> Inv() && Assigned(old(roots), roots, dst, src)
    {
      ghost var before := roots;
      SourceAfterDestruct(roots, dst, src);
      Empty(dst);
      if !Refers(roots, src) {
        return false;
      }
      CopyInto(dst, src, before);
      ok := true;
    }

    /** operator=(StringType const&), operator=(ListType const&) and operator=(DictionaryType const&) from
        the payload of another entry, or of this one or one inside: then the payload is gone before it
        is copied. */
    method AssignPayload(dst: Ref, src: Ref) returns (ok: bool)
      requires Inv() && Refers(roots, dst) && Refers(roots, src) && HasPayload(roots, src, false)
      modifies this
      ensures ok <==> !(dst <= src)
      ensures ok ==> Inv() && Assigned(old(roots), roots, dst, src)
    {
      ghost var before := roots;
      SourceAfterDestruct(roots, dst, src);
      if !Inside(src, dst) {
        EmptiedSource(roots, dst, src);
      }
      Empty(dst);
      if !Refers(roots, src) || Deref(roots, src).data == Raw {
        return false;
      }
      CopyInto(dst, src, before);
      ok := true;
    }

    /** operator=(IntegerType const&) from the integer of another entry, or of this one or one inside.
        Destroying an integer leaves its bytes, so an entry can be assigned its own; one inside is gone. */
    method AssignInteger(dst: Ref, src: Ref) returns (ok: bool)
      requires Inv() && Refers(roots, dst) && Refers(roots, src) && HasPayload(roots, src, true)
      modifies this
      ensures ok <==> !Inside(src, dst)
      ensures ok ==> Inv() && Changed(old(roots), roots, dst) && Val(roots, dst) == Val(old(roots), src)
    {
      var bytes := Deref(roots, src).data.p;
      SourceAfterDestruct(roots, dst, src);
      DerefTagged(roots, src);
      ghost var before := roots;
      Empty(dst);
      if !Refers(roots, src) {
        return false;
      }
      hide Write, IdsAll, Rest, IsMap;
      var o := Build(bytes, [], Rest(roots, dst));
      WriteTwice(before, dst, UNDEFINED, o);
      Store(dst, o);
      ok := true;
    }

    /** operator=(IntegerType const&) and operator=(StringType const&) from a value elsewhere. */
    method AssignScalar(dst: Ref, p: Payload)
      requires Inv() && Refers(roots, dst) && (p.PInt? || p.PStr?)
      modifies this
      ensures Inv() && Refers(roots, dst) && roots == Write(old(roots), dst, Deref(roots, dst))
      ensures Val(roots, dst) == ScalarValue(p)
    {
      ghost var before := roots;
      Empty(dst);
      var o := Build(p, [], Rest(roots, dst));
      WriteTwice(before, dst, UNDEFINED, o);
      Store(dst, o);
    }

    // -------------------------------------------------------------- accessors

    /** Construct on the UNDEFINED entry at a reference. */
    method ConstructAt(r: Ref, t: Tag)
      requires Inv() && Refers(roots, r) && Deref(roots, r).tag == UNDEFINED_T
      modifies this
      ensures Inv() && Refers(roots, r) && roots == Write(old(roots), r, Deref(roots, r))
      ensures Deref(roots, r).tag == t && IsNew(t, Val(roots, r))
    {
      DerefTagged(roots, r);
      IdsOfEmpty(roots, r);
      hide Balanced, Ids, Rest, IdsAll, Write;
      var o := Construct(t, Rest(roots, r));
      Store(r, o);
    }

    /** Integer(), String(), List() and Dict() of a non-const entry: an UNDEFINED entry gets a payload
        first; then the tag must be the right one. */
    method Access(r: Ref, t: Tag) returns (ok: bool)
      requires Inv() && Refers(roots, r) && t != UNDEFINED_T
      modifies this
      ensures Inv() && Refers(roots, r) && roots == Write(old(roots), r, Deref(roots, r))
      ensures ok <==> Deref(old(roots), r).tag in {UNDEFINED_T, t}
      ensures ok ==> Deref(roots, r).tag == t
      ensures if Deref(old(roots), r).tag != UNDEFINED_T then roots == old(roots) else IsNew(t, Val(roots, r))
    {
      hide Balanced, Ids, Rest, Write;
      WriteSame(roots, r);
      if Deref(roots, r).tag == UNDEFINED_T {
        ConstructAt(r, t);
      }
      ok := Deref(roots, r).tag == t;
    }

    /** std::map::find: the position of the key, or where it belongs. */
    method Position(keys: seq<Text>, key: Text) returns (pos: nat, found: bool)
      requires Ascending(keys)
      ensures pos <= |keys| && forall i :: 0 <= i < pos ==> Less(keys[i], key)
      ensures found <==> key in keys
      ensures if found then pos < |keys| && keys[pos] == key else pos < |keys| ==> Less(key, keys[pos])
    {
      pos := 0;
      while pos < |keys| && Less(keys[pos], key)
        invariant pos <= |keys| && forall i :: 0 <= i < pos ==> Less(keys[i], key)
      {
        pos := pos + 1;
      }
      found := pos < |keys| && keys[pos] == key;
      if !found {
        NotBehind(keys, key, pos);
      }
    }

    /** FindKey: the entry under a key, if there is one. */
    method FindKey(r: Ref, key: Text) returns (ok: bool, found: bool, pos: nat)
      requires Inv() && Refers(roots, r)
      modifies this
      ensures Inv() && Refers(roots, r) && roots == Write(old(roots), r, Deref(roots, r))
      ensures ok <==> Deref(old(roots), r).tag in {UNDEFINED_T, DICTIONARY_T}
      ensures ok ==> Val(roots, r) == Dict(ItemsOf(Val(old(roots), r)))
      ensures ok && found ==> HasItem(roots, r, pos, key)
      ensures ok && !found ==> forall x :: x in Val(roots, r).items ==> x.key != key
    {
      found, pos := false, 0;
      ok := Access(r, DICTIONARY_T);
      if ok {
        DictAt(roots, r);
        hide Balanced, Tagged, ValueOf, Write, IdsAll;
        pos, found := Position(Deref(roots, r).data.p.keys, key);
        if found {
          ItemAt(roots, r, pos, key);
        }
      }
    }

    /** std::map::insert of an UNDEFINED entry under a new key. */
    method InsertUndefined(r: Ref, pos: nat, key: Text)
      requires Inv() && Refers(roots, r) && Deref(roots, r).data.Live? && Deref(roots, r).data.p.PDict?
      requires pos <= |Deref(roots, r).data.children| && pos <= |Deref(roots, r).data.p.keys|
      requires forall i :: 0 <= i < pos ==> Less(Deref(roots, r).data.p.keys[i], key)
      requires pos < |Deref(roots, r).data.p.keys| ==> Less(key, Deref(roots, r).data.p.keys[pos])
      modifies this`roots
      ensures Inv() && Refers(roots, r)
      ensures Deref(roots, r) == WithItem(Deref(old(roots), r), pos, key)
      ensures roots == Write(old(roots), r, Deref(roots, r))
    {
      var o := Deref(roots, r);
      DerefTagged(roots, r);
      IdsWrite(roots, r, o);
      IdsWithItem(o, pos, key);
      WithItemTagged(o, pos, key);
      Store(r, WithItem(o, pos, key));
    }

    /** operator[] on a dictionary. */
    method IndexDict(r: Ref, key: Text) returns (pos: nat)
      requires Inv() && Refers(roots, r) && Deref(roots, r).tag == DICTIONARY_T
      modifies this`roots
      ensures Inv() && Refers(roots, r) && roots == Write(old(roots), r, Deref(roots, r))
      ensures HasItem(roots, r, pos, key) && Val(old(roots), r).Dict?
      ensures Val(roots, r) == Dict(Insert(Val(old(roots), r).items, Item(key, Undefined)))
    {
      var o := Deref(roots, r);
      DerefTagged(roots, r);
      WriteSame(roots, r);
      var found;
      pos, found := Position(o.data.p.keys, key);
      ValueWithItem(o, pos, key);
      hide Write, Balanced, IdsAll, ValueOf, IsMap;
      if !found {
        InsertUndefined(r, pos, key);
      }
      ItemAt(roots, r, pos, key);
    }

    /** operator[]: the entry under the key, which is inserted as UNDEFINED when it is missing. */
    method Index(r: Ref, key: Text) returns (ok: bool, pos: nat)
      requires Inv() && Refers(roots, r)
      modifies this
      ensures Inv() && Refers(roots, r) && roots == Write(old(roots), r, Deref(roots, r))
      ensures ok <==> Deref(old(roots), r).tag in {UNDEFINED_T, DICTIONARY_T}
      ensures ok ==> HasItem(roots, r, pos, key)
      ensures ok ==> Val(roots, r) == Dict(Insert(ItemsOf(Val(old(roots), r)), Item(key, Undefined)))
    {
      hide Write, Balanced, IdsAll, Tagged;
      ghost var before := roots;
      ok := Access(r, DICTIONARY_T);
      pos := 0;
      if ok {
        ghost var o := Deref(roots, r);
        pos := IndexDict(r, key);
        WriteTwice(before, r, o, Deref(roots, r));
      }
    }

    /** push_back on the list of an entry. */
    method PushBack(r: Ref, src: Ref)
      requires Inv() && Refers(roots, r) && Refers(roots, src) && Deref(roots, r).tag == LIST_T
      modifies this
      ensures Inv() && Refers(roots, r) && roots == Write(old(roots), r, Deref(roots, r))
      ensures Val(old(roots), r).List?
      ensures Val(roots, r) == List(Val(old(roots), r).entries + [Val(old(roots), src)])
    {
      var o := Deref(roots, r);
      DerefTagged(roots, r);
      DerefTagged(roots, src);
      IdsWrite(roots, r, o);
      var x := Copy(Deref(roots, src), IdsAll(roots));
      IdsWithLast(o, x, Rest(roots, r));
      WithLastTagged(o, x);
      Store(r, WithLast(o, x));
    }

    // -------------------------------------------------------------- runs

    /** One step of a program; not ok when an assertion fails or destroyed memory is used, and for
        references that the program does not have. */
    method Do(step: Step) returns (ok: bool)
      requires Inv()
      modifies this
      ensures ok <==> step.Succeeds(old(roots))
      ensures ok ==> Inv() && step.Leads(old(roots), roots)
    {
      hide Balanced, Tagged, IdsAll, Ids, Write, Rest, ValueOf, IsMap, Deref, Insert, World;
      ok := step.Runs(roots);
      if ok {
        match step
        case New(t) => Declare(t);
        case NewScalar(p) => DeclareScalar(p);
        case NewCopy(src) => DeclareCopy(src);
        case Leave => Drop();
        case Set(dst, src) => ok := Assign(dst, src);
        case SetPayload(dst, src) =>
          if HasPayload(roots, src, true) {
            ok := AssignInteger(dst, src);
          } else {
            ok := AssignPayload(dst, src);
          }
        case SetScalar(dst, p) => AssignScalar(dst, p);
        case Get(r, t) => ok := Access(r, t);
        case Find(r, key) => var found, pos; ok, found, pos := FindKey(r, key);
        case Lookup(r, key) => var pos; ok, pos := Index(r, key);
        case Push(r, src) => PushBack(r, src);
      }
    }

    /** Any run of steps, up to the end or to one that goes wrong, and then the end of the program. The
        trace has the variables before each step. A run that goes through has destroyed every payload
        ever built exactly once. */
    method Run(steps: seq<Step>) returns (ok: bool, ghost trace: seq<seq<Obj>>)
      requires Inv()
      modifies this
      ensures 0 < |trace| <= |steps| + 1 && trace[0] == old(roots)
      ensures forall i :: 0 <= i < |trace| ==> AllTagged(trace[i])
      ensures forall i :: 0 <= i < |trace| - 1 ==> steps[i].Succeeds(trace[i]) && steps[i].Leads(trace[i], trace[i + 1])
      ensures ok <==> |trace| == |steps| + 1
      ensures !ok ==> !steps[|trace| - 1].Succeeds(trace[|trace| - 1])
      ensures ok ==> roots == [] && destroyed == All(built)
    {
      hide Balanced, Tagged;
      trace := [roots];
      for k := 0 to |steps|
        invariant Inv() && |trace| == k + 1 && trace[0] == old(roots) && trace[k] == roots
        invariant forall i :: 0 <= i <= k ==> AllTagged(trace[i])
        invariant forall i :: 0 <= i < k ==> steps[i].Succeeds(trace[i]) && steps[i].Leads(trace[i], trace[i + 1])
      {
        ok := Do(steps[k]);
        if !ok {
          return;
        }
        trace := trace + [roots];
      }
      DropAll();
      ok := true;
    }

    /** The destructors of all variables. */
    method DropAll()
      requires Inv()
      modifies this
      ensures Inv() && roots == [] && destroyed == All(built)
    {
      while roots != []
        invariant Inv()
        decreases |roots|
      {
        Drop();
      }
      assert multiset{} + destroyed == destroyed;
    }
  }
}
