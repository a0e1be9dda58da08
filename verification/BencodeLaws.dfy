/** What the decoder and the encoder mean to each other. */
module BencodeLaws {
  import opened Bytes
  import opened Decimal
  import opened BencodeEntries
  import opened BencodeGrammar

  /** The entry at the front of the input and the input left behind it. */
  ghost function Decode(s: Bytes): (r: Read<Entry>)
    ensures r.Good? ==> |r.rest| < |s|
  {
    match ReadTree(s)
    case Bad => Bad
    case Good(t, rest) => ReadTreeSound(s); Good(Meaning(t), rest)
  }

  /** Decoding is exactly the grammar: the entry of the one derivation some prefix of the input has. */
  lemma DecodeIsGrammar(s: Bytes, e: Entry, r: Bytes)
    ensures Decode(s) == Good(e, r) <==> exists t :: Derivable(t) && s == Flatten(t) + r && Meaning(t) == e
  {
    if Decode(s) == Good(e, r) {
      ReadTreeSound(s);
    }
    forall t | Derivable(t) && s == Flatten(t) + r && Meaning(t) == e ensures Decode(s) == Good(e, r) {
      ReadTreeComplete(t, r);
    }
  }

  lemma DecodeFails(s: Bytes)
    ensures Decode(s) == Bad <==> forall t, r :: Derivable(t) ==> s != Flatten(t) + r
  {
    if Decode(s) == Bad {
      forall t, r | Derivable(t) ensures s != Flatten(t) + r {
        if s == Flatten(t) + r { ReadTreeComplete(t, r); }
      }
    } else {
      ReadTreeSound(s);
    }
  }

  // ---------------------------------------------------------------- what a derivation means

  lemma {:induction false} MeaningIsDefined(t: Tree)
    requires Derivable(t)
    ensures Defined(Meaning(t)) && IsMap(Meaning(t))
    decreases t, 1
  {
    match t
    case TInt(_) =>
    case TStr(_, _) =>
    case TList(ts) => MeaningsAreDefined(ts);
    case TDict(ps) =>
      ItemsAreDefined(ps);
      InsertAllSorted([], Items(ps));
      InsertAllAreDefined([], Items(ps));
  }

  lemma {:induction false} MeaningsAreDefined(ts: seq<Tree>)
    requires forall i :: 0 <= i < |ts| ==> Derivable(ts[i])
    ensures forall i :: 0 <= i < |ts| ==> Defined(Meanings(ts)[i]) && IsMap(Meanings(ts)[i])
    decreases ts, 0
  {
    if ts != [] {
      MeaningIsDefined(ts[0]);
      MeaningsAreDefined(ts[1..]);
    }
  }

  ghost predicate AllDefined(xs: seq<Item>) {
    forall i :: 0 <= i < |xs| ==> Defined(xs[i].value) && IsMap(xs[i].value)
  }

  lemma {:induction false} ItemsAreDefined(ps: seq<TPair>)
    requires forall i :: 0 <= i < |ps| ==> DerivablePair(ps[i])
    ensures AllDefined(Items(ps))
    decreases ps, 0
  {
    if ps != [] {
      assert DerivablePair(ps[0]);
      MeaningIsDefined(ps[0].value);
      ItemsAreDefined(ps[1..]);
    }
  }

  lemma {:induction false} InsertIsDefined(items: seq<Item>, x: Item)
    requires AllDefined(items) && Defined(x.value) && IsMap(x.value)
    ensures AllDefined(Insert(items, x))
    decreases |items|
  {
    if items != [] {
      InsertIsDefined(items[1..], x);
    }
  }

  lemma {:induction false} InsertAllAreDefined(items: seq<Item>, xs: seq<Item>)
    requires AllDefined(items) && AllDefined(xs)
    ensures AllDefined(InsertAll(items, xs))
    decreases |xs|
  {
    if xs != [] {
      InsertIsDefined(items, xs[0]);
      InsertAllAreDefined(Insert(items, xs[0]), xs[1..]);
    }
  }

  /** A decoded entry has no UNDEFINED node, and its dictionaries are maps. */
  lemma DecodedIsDefined(s: Bytes)
    requires Decode(s).Good?
    ensures Defined(Decode(s).value) && IsMap(Decode(s).value)
  {
    ReadTreeSound(s);
    MeaningIsDefined(ReadTree(s).value);
  }

  // ---------------------------------------------------------------- the derivation the encoder writes

  function TreeOf(e: Entry): Tree
    decreases e, 1
  {
    match e
    case Undefined => TList([])
    case Int(v) => TInt(Print(v))
    case Str(s) => TStr(Print(|s|), s)
    case List(es) => TList(TreesOf(es))
    case Dict(xs) => TDict(PairsOf(xs))
  }

  function TreesOf(es: seq<Entry>): seq<Tree>
    decreases es, 0
  {
    if es == [] then []
    else if es[0] == Undefined then TreesOf(es[1..])
    else [TreeOf(es[0])] + TreesOf(es[1..])
  }

  function PairOf(x: Item): TPair
    decreases x, 2
  {
    TPair(Print(|x.key|), x.key, TreeOf(x.value))
  }

  function PairsOf(xs: seq<Item>): seq<TPair>
    decreases xs, 0
  {
    if xs == [] then [] else [PairOf(xs[0])] + PairsOf(xs[1..])
  }

  /** Encoding writes a derivation of its own, whose meaning is the entry without UNDEFINED elements. */
  lemma {:induction false} EncodeDerives(e: Entry)
    requires e != Undefined && Complete(e) && IsMap(e)
    ensures Derivable(TreeOf(e)) && Flatten(TreeOf(e)) == Encode(e) && Meaning(TreeOf(e)) == Prune(e)
    decreases e, 1
  {
    match e
    case Undefined =>
    case Int(v) => ScanOfPrint(v);
    case Str(s) => ScanOfPrint(|s|);
    case List(es) => EncodeListDerives(es);
    case Dict(xs) =>
      EncodeItemsDerive(xs);
      InsertAllInOrder([], PruneItems(xs));
  }

  lemma {:induction false} EncodeListDerives(es: seq<Entry>)
    requires forall i :: 0 <= i < |es| ==> Complete(es[i]) && IsMap(es[i])
    ensures forall i :: 0 <= i < |TreesOf(es)| ==> Derivable(TreesOf(es)[i])
    ensures FlattenAll(TreesOf(es)) == EncodeList(es) && Meanings(TreesOf(es)) == PruneList(es)
    decreases es, 0
  {
    if es != [] {
      EncodeListDerives(es[1..]);
      if es[0] != Undefined {
        EncodeDerives(es[0]);
        assert TreesOf(es)[1..] == TreesOf(es[1..]);
      }
    }
  }

  lemma {:induction false} EncodeItemDerives(x: Item)
    requires x.value != Undefined && Complete(x.value) && IsMap(x.value)
    ensures DerivablePair(PairOf(x))
    ensures FlattenPair(PairOf(x)) == EncodeStr(x.key) + Encode(x.value)
    ensures ItemOf(PairOf(x)) == Item(x.key, Prune(x.value))
    decreases x, 2
  {
    ScanOfPrint(|x.key|);
    EncodeDerives(x.value);
  }

  lemma {:induction false} EncodeItemsDerive(xs: seq<Item>)
    requires forall i :: 0 <= i < |xs| ==> xs[i].value != Undefined && Complete(xs[i].value) && IsMap(xs[i].value)
    ensures forall i :: 0 <= i < |PairsOf(xs)| ==> DerivablePair(PairsOf(xs)[i])
    ensures FlattenPairs(PairsOf(xs)) == EncodeItems(xs) && Items(PairsOf(xs)) == PruneItems(xs)
    decreases xs, 0
  {
    if xs != [] {
      EncodeItemsDerive(xs[1..]);
      EncodeItemDerives(xs[0]);
      assert PairsOf(xs)[1..] == PairsOf(xs[1..]);
    }
  }

  // ---------------------------------------------------------------- round trip

  /** Whatever follows, an encoded entry is decoded to itself without its UNDEFINED list elements,
      and exactly its own bytes are consumed. */
  lemma RoundTrip(e: Entry, r: Bytes)
    requires e != Undefined && Complete(e) && IsMap(e)
    ensures Decode(Encode(e) + r) == Good(Prune(e), r)
  {
    EncodeDerives(e);
    ReadTreeComplete(TreeOf(e), r);
  }

  /** No UNDEFINED left after pruning means there was none but in lists. */
  lemma {:induction false} PrunedIsDefined(e: Entry)
    ensures Defined(Prune(e)) <==> e != Undefined && Complete(e)
    decreases e, 1
  {
    match e
    case List(es) => PrunedListIsDefined(es);
    case Dict(xs) =>
      var ps := PruneItems(xs);
      forall i | 0 <= i < |xs|
        ensures Defined(ps[i].value) <==> xs[i].value != Undefined && Complete(xs[i].value)
      {
        PrunedIsDefined(xs[i].value);
      }
      assert Defined(Prune(e)) <==> forall i :: 0 <= i < |xs| ==> Defined(ps[i].value);
    case _ =>
  }

  lemma {:induction false} PrunedListIsDefined(es: seq<Entry>)
    ensures Defined(List(PruneList(es))) <==> forall i :: 0 <= i < |es| ==> Complete(es[i])
    decreases es, 0
  {
    if es != [] {
      PrunedIsDefined(es[0]);
      PrunedListIsDefined(es[1..]);
      DefinedByElement(Prune(es[0]), PruneList(es[1..]));
    }
  }

  lemma DefinedByElement(e: Entry, es: seq<Entry>)
    ensures Defined(List([e] + es)) <==> Defined(e) && Defined(List(es))
  {
    var all := [e] + es;
    assert all[0] == e && forall i :: 0 <= i < |es| ==> all[i + 1] == es[i];
  }

  /** The round trip holds exactly for the entries that are not UNDEFINED and have no UNDEFINED
      dictionary value. */
  lemma RoundTripIff(e: Entry, r: Bytes)
    requires IsMap(e)
    ensures Decode(Encode(e) + r) == Good(Prune(e), r) <==> e != Undefined && Complete(e)
  {
    PrunedIsDefined(e);
    if Decode(Encode(e) + r) == Good(Prune(e), r) {
      DecodedIsDefined(Encode(e) + r);
    }
    if e != Undefined && Complete(e) {
      RoundTrip(e, r);
    }
  }

  /** And an entry comes back unchanged exactly when it has no UNDEFINED at all. */
  lemma FaithfulIff(e: Entry, r: Bytes)
    requires IsMap(e)
    ensures Decode(Encode(e) + r) == Good(e, r) <==> Defined(e)
  {
    if Decode(Encode(e) + r) == Good(e, r) {
      DecodedIsDefined(Encode(e) + r);
    }
    if Defined(e) {
      PruneOfDefined(e);
      RoundTrip(e, r);
    }
  }

  /** No entry starts with an end tag. */
  lemma NothingAtEndTag(s: Bytes)
    requires Peek(s) == END_TAG
    ensures ReadTree(s) == Bad
  {
    if ReadTree(s).Good? {
      ReadTreeSound(s);
      FirstByte(ReadTree(s).value, ReadTree(s).rest);
    }
  }

  /** A dictionary with one UNDEFINED value is not decoded at all. */
  lemma UndefinedValueFails(k: Text, r: Bytes)
    ensures Decode(Encode(Dict([Item(k, Undefined)])) + r) == Bad
  {
    var value := [END_TAG] + r;
    var s := FlattenStr(Print(|k|), k) + value;
    ScanOfPrint(|k|);
    StrComplete(Print(|k|), k, value);
    FirstByte(TStr(Print(|k|), k), value);
    NothingAtEndTag(value);
    assert ReadPairs(s) == Bad;
    EncodeUndefinedValue(k);
    Within(DICT_TAG, EncodeStr(k), r);
    ReadDictFails(Encode(Dict([Item(k, Undefined)])) + r, s);
  }

  lemma EncodeUndefinedValue(k: Text)
    ensures Encode(Dict([Item(k, Undefined)])) == [DICT_TAG] + EncodeStr(k) + [END_TAG]
  {
    var xs := [Item(k, Undefined)];
    assert xs[1..] == [];
    assert EncodeItems(xs) == EncodeStr(k) + [] + [];
  }

  lemma ReadDictFails(s: Bytes, inner: Bytes)
    requires Peek(s) == DICT_TAG && s[1..] == inner && ReadPairs(inner) == Bad
    ensures Decode(s) == Bad
  {
  }

  /** With two of them the second key is taken for the value of the first. */
  lemma UndefinedValuesMakeKeysValues(k1: Text, k2: Text, r: Bytes)
    requires Less(k1, k2)
    ensures Decode(Encode(Dict([Item(k1, Undefined), Item(k2, Undefined)])) + r) == Good(Dict([Item(k1, Str(k2))]), r)
  {
    var u, xs := [Item(k1, Undefined), Item(k2, Undefined)], [Item(k1, Str(k2))];
    EncodeItemsCons(k1, Undefined, [Item(k2, Undefined)]);
    EncodeItemsCons(k2, Undefined, []);
    EncodeItemsCons(k1, Str(k2), []);
    assert u == [Item(k1, Undefined)] + [Item(k2, Undefined)] && xs == xs + [] && u[1..] == u[1..] + [];
    assert EncodeItems(u) == EncodeItems(xs);
    assert Defined(Dict(xs)) && IsMap(Dict(xs));
    FaithfulIff(Dict(xs), r);
  }

  lemma EncodeItemsCons(k: Text, e: Entry, xs: seq<Item>)
    ensures EncodeItems([Item(k, e)] + xs) == EncodeStr(k) + Encode(e) + EncodeItems(xs)
  {
    assert ([Item(k, e)] + xs)[1..] == xs;
  }

  // ---------------------------------------------------------------- unique encodings

  /** No encoding is the beginning of another one, and no two entries share one. */
  lemma PrefixFree(a: Entry, b: Entry, x: Bytes, y: Bytes)
    requires Defined(a) && Defined(b) && IsMap(a) && IsMap(b)
    requires Encode(a) + x == Encode(b) + y
    ensures a == b && x == y
  {
    FaithfulIff(a, x);
    FaithfulIff(b, y);
  }

  /** Entries without UNDEFINED are equal exactly when their encodings are. */
  lemma SameEncodingIff(a: Entry, b: Entry)
    requires Defined(a) && Defined(b) && IsMap(a) && IsMap(b)
    ensures Encode(a) == Encode(b) <==> a == b
  {
    if Encode(a) == Encode(b) {
      PrefixFree(a, b, [], []);
    }
  }

  /** With UNDEFINED list elements the encoding determines the entry up to them. */
  lemma EqualEncodings(a: Entry, b: Entry)
    requires a != Undefined && b != Undefined && Complete(a) && Complete(b) && IsMap(a) && IsMap(b)
    ensures Encode(a) == Encode(b) <==> Prune(a) == Prune(b)
  {
    RoundTrip(a, []);
    RoundTrip(b, []);
    assert Encode(a) + [] == Encode(a) && Encode(b) + [] == Encode(b);
    if Prune(a) == Prune(b) {
      EncodePruned(a);
      EncodePruned(b);
    }
  }

  /** UNDEFINED elements leave no trace in the encoding. */
  lemma {:induction false} EncodePruned(e: Entry)
    ensures Encode(Prune(e)) == Encode(e)
    decreases e, 1
  {
    match e
    case List(es) => EncodePrunedList(es);
    case Dict(xs) => EncodePrunedItems(xs);
    case _ =>
  }

  lemma {:induction false} EncodePrunedList(es: seq<Entry>)
    ensures EncodeList(PruneList(es)) == EncodeList(es)
    decreases es, 0
  {
    if es != [] {
      EncodePruned(es[0]);
      EncodePrunedList(es[1..]);
      if es[0] != Undefined {
        assert PruneList(es)[1..] == PruneList(es[1..]);
      }
    }
  }

  lemma {:induction false} EncodePrunedItems(xs: seq<Item>)
    ensures EncodeItems(PruneItems(xs)) == EncodeItems(xs)
    decreases xs, 0
  {
    if xs != [] {
      EncodePruned(xs[0].value);
      EncodePrunedItems(xs[1..]);
      assert PruneItems(xs)[1..] == PruneItems(xs[1..]);
    }
  }

  // ---------------------------------------------------------------- canonical form

  /** Minimal numbers, and keys in strictly increasing order. */
  ghost predicate Canonical(t: Tree) {
    match t
    case TInt(text) => Scan(text).Some? && text == Print(Scan(text).value)
    case TStr(len, body) => len == Print(|body|)
    case TList(ts) => forall i :: 0 <= i < |ts| ==> Canonical(ts[i])
    case TDict(ps) => KeysAscend(ps) && forall i :: 0 <= i < |ps| ==>
      ps[i].len == Print(|ps[i].key|) && Canonical(ps[i].value)
  }

  ghost predicate KeysAscend(ps: seq<TPair>) {
    forall i, j :: 0 <= i < j < |ps| ==> Less(ps[i].key, ps[j].key)
  }

  ghost predicate CanonicalPair(p: TPair, key: Bytes) {
    p.key == key && p.len == Print(|key|) && Canonical(p.value)
  }

  /** What the encoder writes is canonical. */
  lemma {:induction false} TreeOfIsCanonical(e: Entry)
    requires IsMap(e)
    ensures Canonical(TreeOf(e))
    decreases e, 1
  {
    match e
    case Int(v) => ScanOfPrint(v);
    case List(es) => TreesOfAreCanonical(es);
    case Dict(xs) => PairsOfAreCanonical(xs);
    case _ =>
  }

  lemma {:induction false} TreesOfAreCanonical(es: seq<Entry>)
    requires forall i :: 0 <= i < |es| ==> IsMap(es[i])
    ensures Canonical(TList(TreesOf(es)))
    decreases es, 0
  {
    if es != [] {
      TreesOfAreCanonical(es[1..]);
      TreeOfIsCanonical(es[0]);
    }
  }

  lemma {:induction false} PairsOfAreCanonical(xs: seq<Item>)
    requires forall i :: 0 <= i < |xs| ==> IsMap(xs[i].value)
    ensures |PairsOf(xs)| == |xs|
    ensures forall i :: 0 <= i < |xs| ==> CanonicalPair(PairsOf(xs)[i], xs[i].key)
    decreases xs, 0
  {
    if xs != [] {
      PairsOfAreCanonical(xs[1..]);
      TreeOfIsCanonical(xs[0].value);
    }
  }

  /** A canonical derivation is the one the encoder writes. */
  lemma {:induction false} CanonicalIsWritten(t: Tree)
    requires Derivable(t) && Canonical(t)
    ensures TreeOf(Meaning(t)) == t
    decreases t, 1
  {
    match t
    case TInt(_) =>
    case TStr(_, _) =>
    case TList(ts) => CanonicalListIsWritten(ts);
    case TDict(ps) => CanonicalDictIsWritten(ps);
  }

  lemma {:induction false} CanonicalDictIsWritten(ps: seq<TPair>)
    requires Derivable(TDict(ps)) && Canonical(TDict(ps))
    ensures TreeOf(Meaning(TDict(ps))) == TDict(ps)
    decreases ps, 1
  {
    forall i | 0 <= i < |ps| ensures DerivablePair(ps[i]) && CanonicalPair(ps[i], ps[i].key) {
    }
    CanonicalPairsAreWritten(ps);
    KeysOfItems(ps);
    assert [] + Items(ps) == Items(ps);
    InsertAllInOrder([], Items(ps));
  }

  lemma {:induction false} CanonicalListIsWritten(ts: seq<Tree>)
    requires forall i :: 0 <= i < |ts| ==> Derivable(ts[i]) && Canonical(ts[i])
    ensures TreesOf(Meanings(ts)) == ts
    decreases ts, 0
  {
    if ts != [] {
      CanonicalIsWritten(ts[0]);
      CanonicalListIsWritten(ts[1..]);
      TreesOfCons(Meaning(ts[0]), Meanings(ts[1..]));
      assert ts == [ts[0]] + ts[1..];
    }
  }

  lemma TreesOfCons(e: Entry, es: seq<Entry>)
    requires e != Undefined
    ensures TreesOf([e] + es) == [TreeOf(e)] + TreesOf(es)
  {
    assert ([e] + es)[1..] == es;
  }

  lemma {:induction false} CanonicalPairIsWritten(p: TPair)
    requires DerivablePair(p) && p.len == Print(|p.key|) && Canonical(p.value)
    ensures PairOf(ItemOf(p)) == p
    decreases p, 2
  {
    CanonicalIsWritten(p.value);
  }

  lemma {:induction false} CanonicalPairsAreWritten(ps: seq<TPair>)
    requires forall i :: 0 <= i < |ps| ==> DerivablePair(ps[i]) && CanonicalPair(ps[i], ps[i].key)
    ensures PairsOf(Items(ps)) == ps
    decreases ps, 0
  {
    if ps != [] {
      assert DerivablePair(ps[0]) && CanonicalPair(ps[0], ps[0].key);
      CanonicalPairIsWritten(ps[0]);
      CanonicalPairsAreWritten(ps[1..]);
      PairsOfCons(ItemOf(ps[0]), Items(ps[1..]));
      assert ps == [ps[0]] + ps[1..];
    }
  }

  lemma PairsOfCons(x: Item, xs: seq<Item>)
    ensures PairsOf([x] + xs) == [PairOf(x)] + PairsOf(xs)
  {
    assert ([x] + xs)[1..] == xs;
  }

  lemma {:induction false} KeysOfItems(ps: seq<TPair>)
    requires forall i :: 0 <= i < |ps| ==> DerivablePair(ps[i])
    ensures forall i :: 0 <= i < |ps| ==> Items(ps)[i].key == ps[i].key
    decreases |ps|
  {
    if ps != [] {
      assert DerivablePair(ps[0]);
      KeysOfItems(ps[1..]);
    }
  }

  /** Encoding a decoded entry gives back the consumed bytes exactly when they were canonical. */
  lemma CanonicalIff(t: Tree)
    requires Derivable(t)
    ensures Encode(Meaning(t)) == Flatten(t) <==> Canonical(t)
  {
    var e := Meaning(t);
    MeaningIsDefined(t);
    PruneOfDefined(e);
    EncodeDerives(e);
    TreeOfIsCanonical(e);
    if Encode(e) == Flatten(t) {
      ReadTreeComplete(t, []);
      ReadTreeComplete(TreeOf(e), []);
      assert t == TreeOf(e);
    }
    if Canonical(t) {
      CanonicalIsWritten(t);
    }
  }

  /** Every accepted input has one canonical form: it decodes to the same entry, and it is the
      consumed prefix exactly when that prefix derives canonically. */
  lemma CanonicalForm(s: Bytes, x: Bytes)
    requires Decode(s).Good?
    ensures Decode(Encode(Decode(s).value) + x) == Good(Decode(s).value, x)
    ensures Canonical(TreeOf(Decode(s).value)) && Flatten(TreeOf(Decode(s).value)) == Encode(Decode(s).value)
    ensures s == Encode(Decode(s).value) + Decode(s).rest <==> Canonical(ReadTree(s).value)
  {
    var t, e, r := ReadTree(s).value, Decode(s).value, Decode(s).rest;
    DecodedIsDefined(s);
    FaithfulIff(e, x);
    PruneOfDefined(e);
    EncodeDerives(e);
    TreeOfIsCanonical(e);
    ReadTreeSound(s);
    CanonicalIff(t);
    if s == Encode(e) + r {
      SamePrefix(Encode(e), Flatten(t), r);
    }
  }

  lemma SamePrefix(a: Bytes, b: Bytes, r: Bytes)
    requires a + r == b + r
    ensures a == b
  {
    assert |a| == |b|;
    assert (a + r)[..|a|] == a && (b + r)[..|b|] == b;
  }
}
