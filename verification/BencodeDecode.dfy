/** The decoder: a cursor that nested calls move forward through one buffer. */
module BencodeDecode {
  import opened Bytes
  import opened Decimal
  import opened BencodeEntries
  import opened BencodeGrammar
  import opened BencodeLaws

  // ---------------------------------------------------------------- lists and dictionaries, element by element

  /** The entries read so far, and those up to the end of the list. */
  ghost function DecodeList(s: Bytes, es: seq<Entry>): Read<seq<Entry>> {
    match ReadTrees(s)
    case Bad => Bad
    case Good(ts, rest) => ReadTreesSound(s); Good(es + Meanings(ts), rest)
  }

  /** The map built so far, and the pairs up to the end of the dictionary. */
  ghost function DecodeDict(s: Bytes, items: seq<Item>): Read<seq<Item>> {
    match ReadPairs(s)
    case Bad => Bad
    case Good(ps, rest) => ReadPairsSound(s); Good(InsertAll(items, Items(ps)), rest)
  }

  lemma DecodeListEnds(s: Bytes, es: seq<Entry>)
    requires Peek(s) == END_TAG
    ensures DecodeList(s, es) == Good(es, s[1..])
  {
    assert es + [] == es;
  }

  lemma DecodeListStep(s: Bytes, es: seq<Entry>)
    requires Peek(s) != END_TAG
    ensures Decode(s) == Bad ==> DecodeList(s, es) == Bad
    ensures Decode(s).Good? ==> DecodeList(s, es) == DecodeList(Decode(s).rest, es + [Decode(s).value])
  {
    if Decode(s).Good? {
      var t, rest := ReadTree(s).value, ReadTree(s).rest;
      if ReadTrees(rest).Good? {
        ReadTreesStep(s, t, rest);
        ReadTreesSound(s);
        ReadTreesSound(rest);
        MeaningsCons(t, ReadTrees(rest).value);
        Regroup(es, [Meaning(t)], Meanings(ReadTrees(rest).value));
      }
    }
  }

  lemma MeaningsCons(t: Tree, ts: seq<Tree>)
    requires Derivable(t) && forall i :: 0 <= i < |ts| ==> Derivable(ts[i])
    requires forall i :: 0 <= i < |[t] + ts| ==> Derivable(([t] + ts)[i])
    ensures Meanings([t] + ts) == [Meaning(t)] + Meanings(ts)
  {
    assert ([t] + ts)[1..] == ts;
  }

  lemma DecodeDictEnds(s: Bytes, items: seq<Item>)
    requires Peek(s) == END_TAG
    ensures DecodeDict(s, items) == Good(items, s[1..])
  {
  }

  lemma ReadPairByParts(s: Bytes)
    ensures ReadPair(s).Good? <==> Decode(s).Good? && Decode(s).value.Str? && Decode(Decode(s).rest).Good?
    ensures ReadPair(s).Good? ==> DerivablePair(ReadPair(s).value)
    ensures ReadPair(s).Good? ==> ReadPair(s).rest == Decode(Decode(s).rest).rest
    ensures ReadPair(s).Good? ==>
      ItemOf(ReadPair(s).value) == Item(Decode(s).value.s, Decode(Decode(s).rest).value)
  {
    if Decode(s).Good? {
      ReadTreeSound(s);
      if ReadPair(s).Good? {
        ReadTreeSound(ReadTree(s).rest);
        ReadPairSound(s);
      }
    }
  }

  lemma DecodeDictStep(s: Bytes, items: seq<Item>)
    requires Peek(s) != END_TAG
    ensures ReadPair(s) == Bad ==> DecodeDict(s, items) == Bad
    ensures ReadPair(s).Good? ==> DerivablePair(ReadPair(s).value)
    ensures ReadPair(s).Good? ==>
      DecodeDict(s, items) == DecodeDict(ReadPair(s).rest, Insert(items, ItemOf(ReadPair(s).value)))
  {
    if ReadPair(s).Good? {
      ReadPairSound(s);
      var p, rest := ReadPair(s).value, ReadPair(s).rest;
      if ReadPairs(rest).Good? {
        ReadPairsStep(s, p, rest);
        ReadPairsSound(s);
        ReadPairsSound(rest);
        ItemsCons(p, ReadPairs(rest).value);
        InsertAllCons(items, ItemOf(p), Items(ReadPairs(rest).value));
      }
    }
  }

  lemma ItemsCons(p: TPair, ps: seq<TPair>)
    requires DerivablePair(p) && forall i :: 0 <= i < |ps| ==> DerivablePair(ps[i])
    requires forall i :: 0 <= i < |[p] + ps| ==> DerivablePair(([p] + ps)[i])
    ensures Items([p] + ps) == [ItemOf(p)] + Items(ps)
  {
    assert ([p] + ps)[1..] == ps;
  }

  lemma InsertAllCons(items: seq<Item>, x: Item, xs: seq<Item>)
    ensures InsertAll(items, [x] + xs) == InsertAll(Insert(items, x), xs)
  {
    assert ([x] + xs)[1..] == xs;
  }

  lemma {:induction false} FindIs(s: Bytes, c: Byte, n: nat)
    requires n <= |s| && (forall i :: 0 <= i < n ==> s[i] != c) && (n < |s| ==> s[n] == c)
    ensures Find(s, c) == n
  {
    if n != 0 {
      assert s[0] != c;
      FindIs(s[1..], c, n - 1);
    }
  }

  /** The number between two positions, of which the second is that of the first end character. */
  lemma NumberBetween(data: Bytes, j: nat, i: nat, stop: Byte)
    requires j <= i <= |data| && (forall k :: j <= k < i ==> data[k] != stop) && (i < |data| ==> data[i] == stop)
    ensures ReadNumber(data[j..], stop)
         == if i == j || i == |data| || Scan(data[j..i]) == None then Bad else Good(data[j..i], data[i + 1..])
  {
    var s := data[j..];
    forall k | 0 <= k < i - j ensures s[k] != stop {
      assert s[k] == data[j + k];
    }
    FindIs(s, stop, i - j);
    assert s[..i - j] == data[j..i];
    assert i < |data| ==> s[i - j + 1..] == data[i + 1..];
  }

  // ---------------------------------------------------------------- the cursor

  /** ConstBufferInterval: `data` is the memory before `end`, and the byte at `end` reads as NUL. */
  class Interval {
    const data: Bytes
    var beg: int

    constructor (data: Bytes, beg: nat)
      ensures this.data == data && this.beg == beg
    {
      this.data := data;
      this.beg := beg;
    }

    predicate IsEmpty()
      reads this
    {
      beg > |data|
    }

    /** The input from the cursor on. */
    function Rest(): Bytes
      requires 0 <= beg <= |data|
      reads this
    {
      data[beg..]
    }

    /** The cursor stands where this read left off. */
    ghost predicate Left<T>(r: Read<T>)
      reads this
    {
      r.Good? && 0 <= beg <= |data| && Rest() == r.rest
    }

    method BdecodeInteger(stop: Byte) returns (r: Option<Int64>)
      requires 0 <= beg <= |data|
      modifies this`beg
      ensures r.Some? <==> ReadNumber(old(Rest()), stop).Good?
      ensures r.Some? ==> Left(ReadNumber(old(Rest()), stop)) && r == Scan(ReadNumber(old(Rest()), stop).value)
    {
      var j, i := beg, beg;
      while i < |data| && data[i] != stop
        invariant j <= i <= |data| && forall k :: j <= k < i ==> data[k] != stop
      {
        i := i + 1;
      }
      NumberBetween(data, j, i, stop);
      hide ReadNumber, Scan;
      if !(i > beg && i < |data|) {
        return None;
      }
      beg := i + 1;
      r := Scan(data[j..i]);
    }

    /** A negative size passes the assertion, but no std::string has it. */
    method BdecodeString(size: Int64) returns (r: Option<Bytes>)
      requires 0 <= beg <= |data|
      modifies this`beg
      ensures r.Some? <==> 0 <= size <= |old(Rest())|
      ensures r.Some? ==> 0 <= beg <= |data| && r.value == old(Rest())[..size] && Rest() == old(Rest())[size..]
    {
      if |data| - beg < size {
        return None;
      }
      beg := beg + size;
      if size < 0 {
        return None;
      }
      r := Some(data[beg - size..beg]);
    }

    /** Decodes the entry at the cursor and moves it behind that entry, or fails. */
    method Bdecode() returns (r: Option<Entry>)
      requires 0 <= beg
      modifies this`beg
      ensures old(IsEmpty()) ==> r == Some(Undefined) && beg == old(beg)
      ensures !old(IsEmpty()) ==> (r.Some? <==> Decode(old(Rest())).Good?)
      ensures !old(IsEmpty()) && r.Some? ==> Left(Decode(old(Rest()))) && r.value == Decode(old(Rest())).value
      ensures !old(IsEmpty()) && r.Some? ==> old(beg) < beg <= |data| && Defined(r.value)
      decreases |data| - beg, 0
    {
      if IsEmpty() {
        return Some(Undefined);
      }
      ghost var s := Rest();
      if Decode(s).Good? {
        DecodedIsDefined(s);
      }
      if Peek(Rest()) == INT_TAG {
        beg := beg + 1;
        assert Rest() == s[1..];
        var v := BdecodeInteger(END_TAG);
        r := if v.Some? then Some(Int(v.value)) else None;
      } else if Peek(Rest()) == LIST_TAG {
        beg := beg + 1;
        assert Rest() == s[1..];
        var es := BdecodeList();
        r := if es.Some? then Some(List(es.value)) else None;
      } else if Peek(Rest()) == DICT_TAG {
        beg := beg + 1;
        assert Rest() == s[1..];
        var items := BdecodeDict();
        r := if items.Some? then Some(Dict(items.value)) else None;
      } else {
        var size := BdecodeInteger(COLON);
        if size == None {
          return None;
        }
        var str := BdecodeString(size.value);
        r := if str.Some? then Some(Str(str.value)) else None;
      }
    }

    /** The loop of a list. */
    method BdecodeList() returns (r: Option<seq<Entry>>)
      requires 0 <= beg <= |data|
      modifies this`beg
      ensures r.Some? <==> DecodeList(old(Rest()), []).Good?
      ensures r.Some? ==> Left(DecodeList(old(Rest()), [])) && r.value == DecodeList(old(Rest()), []).value
      decreases |data| - beg, 1
    {
      var entries: seq<Entry> := [];
      ghost var whole := DecodeList(Rest(), []);
      while Peek(Rest()) != END_TAG
        invariant old(beg) <= beg <= |data| && DecodeList(Rest(), entries) == whole
        decreases |data| - beg
      {
        DecodeListStep(Rest(), entries);
        var e := Bdecode();
        if e == None {
          return None;
        }
        entries := entries + [e.value];
      }
      DecodeListEnds(Rest(), entries);
      beg := beg + 1;
      r := Some(entries);
    }

    /** The loop of a dictionary: keys must be strings, and the first value under a key is kept. */
    method BdecodeDict() returns (r: Option<seq<Item>>)
      requires 0 <= beg <= |data|
      modifies this`beg
      ensures r.Some? <==> DecodeDict(old(Rest()), []).Good?
      ensures r.Some? ==> Left(DecodeDict(old(Rest()), [])) && r.value == DecodeDict(old(Rest()), []).value
      decreases |data| - beg, 1
    {
      var items: seq<Item> := [];
      ghost var whole := DecodeDict(Rest(), []);
      while Peek(Rest()) != END_TAG
        invariant old(beg) <= beg <= |data| && DecodeDict(Rest(), items) == whole
        decreases |data| - beg
      {
        DecodeDictStep(Rest(), items);
        ReadPairByParts(Rest());
        var k := Bdecode();
        if k == None || !k.value.Str? {
          return None;
        }
        var v := Bdecode();
        if v == None {
          return None;
        }
        items := Insert(items, Item(k.value.s, v.value));
      }
      DecodeDictEnds(Rest(), items);
      beg := beg + 1;
      r := Some(items);
    }
  }

  // ---------------------------------------------------------------- entry points

  /** Bdecode(begin, end, len) on the bytes of `data` in between. */
  method BdecodeRange(data: Bytes, begin: nat, end: nat) returns (r: Option<Entry>, len: nat)
    requires begin <= |data| && end <= |data|
    ensures begin > end ==> r == Some(Undefined) && len == 0
    ensures begin <= end ==> (r.Some? <==> exists t, rest :: Derivable(t) && data[begin..end] == Flatten(t) + rest)
    ensures begin <= end && r.Some? ==>
      0 < len <= end - begin && Decode(data[begin..end]) == Good(r.value, data[begin + len..end])
  {
    var interval := new Interval(data[..end], begin);
    r := interval.Bdecode();
    len := 0;
    if r.Some? {
      len := interval.beg - begin;
    }
    if begin <= end {
      assert data[..end][begin..] == data[begin..end];
      DecodeFails(data[begin..end]);
    }
  }

  /** Bdecode(data): an empty text is an UNDEFINED entry, everything else is decoded from its start. */
  method BdecodeText(data: Bytes) returns (r: Option<Entry>)
    ensures data == [] ==> r == Some(Undefined)
    ensures data != [] ==> r == (match Decode(data) case Bad => None case Good(e, _) => Some(e))
  {
    if data == [] {
      return Some(Undefined);
    }
    var len;
    r, len := BdecodeRange(data, 0, |data|);
    assert data[0..|data|] == data;
    DecodeFails(data);
  }
}
