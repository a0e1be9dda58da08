/** Entries, their encoding, and the sorted maps behind dictionaries. */
module BencodeEntries {
  import opened Bytes
  import opened Decimal

  const INT_TAG: Byte := 105  // 'i'
  const LIST_TAG: Byte := 108 // 'l'
  const DICT_TAG: Byte := 100 // 'd'
  const END_TAG: Byte := 101  // 'e'
  const COLON: Byte := 58     // ':'

  /** A std::string: its size fits the signed 64-bit size_type. */
  type Text = s: Bytes | |s| < LIMIT_INT64

  datatype Entry =
    | Undefined
    | Int(v: Int64)
    | Str(s: Text)
    | List(entries: seq<Entry>)
    | Dict(items: seq<Item>)

  /** A node of the std::map behind a dictionary; the items of a dictionary are in key order. */
  datatype Item = Item(key: Text, value: Entry)

  // ---------------------------------------------------------------- key order

  /** std::string's operator<: lexicographic, bytes compared as unsigned. */
  predicate Less(a: Bytes, b: Bytes) {
    if b == [] then false
    else if a == [] then true
    else if a[0] != b[0] then a[0] < b[0]
    else Less(a[1..], b[1..])
  }

  lemma {:induction false} LessTrichotomy(a: Bytes, b: Bytes)
    ensures a == b || Less(a, b) || Less(b, a)
    ensures !(Less(a, b) && Less(b, a)) && (a == b ==> !Less(a, b))
    decreases |a| + |b|
  {
    if a != [] && b != [] && a[0] == b[0] {
      LessTrichotomy(a[1..], b[1..]);
      assert a == [a[0]] + a[1..] && b == [b[0]] + b[1..];
    }
  }

  lemma {:induction false} LessTransitive(a: Bytes, b: Bytes, c: Bytes)
    requires Less(a, b) && Less(b, c)
    ensures Less(a, c)
    decreases |a|
  {
    if a != [] && a[0] == b[0] == c[0] {
      LessTransitive(a[1..], b[1..], c[1..]);
    }
  }

  ghost predicate Sorted(items: seq<Item>) {
    forall i, j :: 0 <= i < j < |items| ==> Less(items[i].key, items[j].key)
  }

  /** std::map::insert: a key that is there keeps its value. */
  function Insert(items: seq<Item>, x: Item): seq<Item> {
    if items == [] then [x]
    else if items[0].key == x.key then items
    else if Less(x.key, items[0].key) then [x] + items
    else [items[0]] + Insert(items[1..], x)
  }

  function InsertAll(items: seq<Item>, xs: seq<Item>): seq<Item>
    decreases |xs|
  {
    if xs == [] then items else InsertAll(Insert(items, xs[0]), xs[1..])
  }

  /** Insertion keeps the map sorted, keeps every entry it has, and adds x only under a new key. */
  lemma {:induction false} InsertIsMapInsert(items: seq<Item>, x: Item)
    requires Sorted(items)
    ensures Sorted(Insert(items, x))
    ensures forall y :: y in Insert(items, x) <==>
      y in items || (y == x && forall z :: z in items ==> z.key != x.key)
    decreases |items|
  {
    if items != [] {
      var head, rest := items[0], items[1..];
      assert items == [head] + rest;
      LessTrichotomy(x.key, head.key);
      if head.key == x.key {
      } else if Less(x.key, head.key) {
        forall j | 0 <= j < |items| ensures Less(x.key, items[j].key) {
          if j > 0 { LessTransitive(x.key, head.key, items[j].key); }
        }
        forall z | z in items ensures z.key != x.key {
          LessTrichotomy(x.key, z.key);
        }
      } else {
        InsertIsMapInsert(rest, x);
        var more := Insert(rest, x);
        forall j | 0 <= j < |more| ensures Less(head.key, more[j].key) {
          assert more[j] in more;
        }
        assert Insert(items, x) == [head] + more;
      }
    }
  }

  lemma {:induction false} InsertAllSorted(items: seq<Item>, xs: seq<Item>)
    requires Sorted(items)
    ensures Sorted(InsertAll(items, xs))
    decreases |xs|
  {
    if xs != [] {
      InsertIsMapInsert(items, xs[0]);
      InsertAllSorted(Insert(items, xs[0]), xs[1..]);
    }
  }

  lemma {:induction false} InsertLast(items: seq<Item>, x: Item)
    requires Sorted(items + [x])
    ensures Insert(items, x) == items + [x]
    decreases |items|
  {
    if items != [] {
      var all := items + [x];
      assert Less(all[0].key, all[|items|].key);
      LessTrichotomy(items[0].key, x.key);
      assert items[1..] + [x] == all[1..];
      InsertLast(items[1..], x);
    }
  }

  /** Inserting items that are already in order just lists them. */
  lemma {:induction false} InsertAllInOrder(items: seq<Item>, xs: seq<Item>)
    requires Sorted(items + xs)
    ensures InsertAll(items, xs) == items + xs
    decreases |xs|
  {
    if xs != [] {
      assert items + xs == items + [xs[0]] + xs[1..];
      assert items + [xs[0]] == (items + xs)[..|items| + 1];
      InsertLast(items, xs[0]);
      InsertAllInOrder(items + [xs[0]], xs[1..]);
    }
  }

  // ---------------------------------------------------------------- kinds of entries

  /** Every dictionary is a map. */
  ghost predicate IsMap(e: Entry) {
    match e
    case List(es) => forall i :: 0 <= i < |es| ==> IsMap(es[i])
    case Dict(xs) => Sorted(xs) && forall i :: 0 <= i < |xs| ==> IsMap(xs[i].value)
    case _ => true
  }

  /** No UNDEFINED anywhere. */
  ghost predicate Defined(e: Entry) {
    match e
    case Undefined => false
    case List(es) => forall i :: 0 <= i < |es| ==> Defined(es[i])
    case Dict(xs) => forall i :: 0 <= i < |xs| ==> Defined(xs[i].value)
    case _ => true
  }

  /** No dictionary has an UNDEFINED value; list elements may be UNDEFINED. */
  ghost predicate Complete(e: Entry) {
    match e
    case List(es) => forall i :: 0 <= i < |es| ==> Complete(es[i])
    case Dict(xs) => forall i :: 0 <= i < |xs| ==> xs[i].value != Undefined && Complete(xs[i].value)
    case _ => true
  }

  /** The entry without its UNDEFINED list elements. */
  function Prune(e: Entry): (p: Entry)
    ensures p == Undefined <==> e == Undefined
  {
    match e
    case List(es) => List(PruneList(es))
    case Dict(xs) => Dict(PruneItems(xs))
    case _ => e
  }

  function PruneList(es: seq<Entry>): seq<Entry> {
    if es == [] then []
    else if es[0] == Undefined then PruneList(es[1..])
    else [Prune(es[0])] + PruneList(es[1..])
  }

  function PruneItems(xs: seq<Item>): (ps: seq<Item>)
    ensures |ps| == |xs| && forall i :: 0 <= i < |xs| ==> ps[i] == Item(xs[i].key, Prune(xs[i].value))
  {
    if xs == [] then [] else [Item(xs[0].key, Prune(xs[0].value))] + PruneItems(xs[1..])
  }

  lemma {:induction false} PruneOfDefined(e: Entry)
    requires Defined(e)
    ensures Prune(e) == e && Complete(e)
    decreases e, 1
  {
    match e
    case List(es) => PruneListOfDefined(es);
    case Dict(xs) =>
      forall i | 0 <= i < |xs| ensures Prune(xs[i].value) == xs[i].value && Complete(xs[i].value) {
        PruneOfDefined(xs[i].value);
      }
      assert PruneItems(xs) == xs;
    case _ =>
  }

  lemma {:induction false} PruneListOfDefined(es: seq<Entry>)
    requires forall i :: 0 <= i < |es| ==> Defined(es[i])
    ensures PruneList(es) == es && forall i :: 0 <= i < |es| ==> Complete(es[i])
    decreases es, 0
  {
    if es != [] {
      PruneOfDefined(es[0]);
      PruneListOfDefined(es[1..]);
      assert es == [es[0]] + es[1..];
    }
  }

  // ---------------------------------------------------------------- encoding

  function EncodeStr(s: Bytes): Bytes {
    Print(|s|) + [COLON] + s
  }

  /** Bencode: an UNDEFINED entry leaves no trace. */
  function Encode(e: Entry): Bytes
    decreases e, 1
  {
    match e
    case Undefined => []
    case Int(v) => [INT_TAG] + Print(v) + [END_TAG]
    case Str(s) => EncodeStr(s)
    case List(es) => [LIST_TAG] + EncodeList(es) + [END_TAG]
    case Dict(xs) => [DICT_TAG] + EncodeItems(xs) + [END_TAG]
  }

  function EncodeList(es: seq<Entry>): Bytes
    decreases es, 0
  {
    if es == [] then [] else Encode(es[0]) + EncodeList(es[1..])
  }

  function EncodeItems(xs: seq<Item>): Bytes
    decreases xs, 0
  {
    if xs == [] then [] else EncodeStr(xs[0].key) + Encode(xs[0].value) + EncodeItems(xs[1..])
  }
}
