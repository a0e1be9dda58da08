/**
 The bencode grammar as derivation trees, the deterministic reader of derivations, and the
 proof that the reader finds exactly the derivations there are. Numbers are what lexical_cast
 accepts, so a sign and leading zeros are allowed; dictionary keys must be strings.
 */
module BencodeGrammar {
  import opened Bytes
  import opened Decimal
  import opened BencodeEntries

  datatype Tree =
    | TInt(text: Bytes)
    | TStr(len: Bytes, body: Bytes)
    | TList(trees: seq<Tree>)
    | TDict(pairs: seq<TPair>)

  /** A key in string form and its value. */
  datatype TPair = TPair(len: Bytes, key: Bytes, value: Tree)

  // ---------------------------------------------------------------- derivations

  /** len is an acceptable text for the length of body. */
  predicate Counts(len: Bytes, body: Bytes)
    ensures Counts(len, body) ==> |body| < LIMIT_INT64
  {
    Scan(len).Some? && Scan(len).value == |body|
  }

  ghost predicate Derivable(t: Tree) {
    match t
    case TInt(text) => Scan(text).Some?
    case TStr(len, body) => Counts(len, body)
    case TList(ts) => forall i :: 0 <= i < |ts| ==> Derivable(ts[i])
    case TDict(ps) => forall i :: 0 <= i < |ps| ==> Counts(ps[i].len, ps[i].key) && Derivable(ps[i].value)
  }

  ghost predicate DerivablePair(p: TPair) {
    Counts(p.len, p.key) && Derivable(p.value)
  }

  function FlattenStr(len: Bytes, body: Bytes): Bytes {
    len + [COLON] + body
  }

  /** The bytes a derivation derives. */
  function Flatten(t: Tree): Bytes
    decreases t, 1
  {
    match t
    case TInt(text) => [INT_TAG] + text + [END_TAG]
    case TStr(len, body) => FlattenStr(len, body)
    case TList(ts) => [LIST_TAG] + FlattenAll(ts) + [END_TAG]
    case TDict(ps) => [DICT_TAG] + FlattenPairs(ps) + [END_TAG]
  }

  function FlattenAll(ts: seq<Tree>): Bytes
    decreases ts, 0
  {
    if ts == [] then [] else Flatten(ts[0]) + FlattenAll(ts[1..])
  }

  function FlattenPair(p: TPair): Bytes
    decreases p, 2
  {
    FlattenStr(p.len, p.key) + Flatten(p.value)
  }

  function FlattenPairs(ps: seq<TPair>): Bytes
    decreases ps, 0
  {
    if ps == [] then [] else FlattenPair(ps[0]) + FlattenPairs(ps[1..])
  }

  /** The entry a derivation denotes: of the values under one key the first is kept. */
  ghost function Meaning(t: Tree): (e: Entry)
    requires Derivable(t)
    ensures e != Undefined && (e.Str? <==> t.TStr?)
    decreases t, 1
  {
    match t
    case TInt(text) => Int(Scan(text).value)
    case TStr(_, body) => Str(body)
    case TList(ts) => List(Meanings(ts))
    case TDict(ps) => Dict(InsertAll([], Items(ps)))
  }

  ghost function Meanings(ts: seq<Tree>): (es: seq<Entry>)
    requires forall i :: 0 <= i < |ts| ==> Derivable(ts[i])
    ensures |es| == |ts| && forall i :: 0 <= i < |ts| ==> es[i] == Meaning(ts[i])
    decreases ts, 0
  {
    if ts == [] then [] else [Meaning(ts[0])] + Meanings(ts[1..])
  }

  ghost function ItemOf(p: TPair): Item
    requires DerivablePair(p)
    decreases p, 2
  {
    Item(p.key, Meaning(p.value))
  }

  ghost function Items(ps: seq<TPair>): (xs: seq<Item>)
    requires forall i :: 0 <= i < |ps| ==> DerivablePair(ps[i])
    ensures |xs| == |ps|
    decreases ps, 0
  {
    if ps == [] then [] else [ItemOf(ps[0])] + Items(ps[1..])
  }

  // ---------------------------------------------------------------- the reader

  /** *beg, where the byte behind the buffer is the NUL of c_str(). */
  function Peek(s: Bytes): Byte {
    if s == [] then 0 else s[0]
  }

  /** std::find: the position of the first c, or |s|. */
  function Find(s: Bytes, c: Byte): (n: nat)
    ensures n <= |s| && c !in s[..n] && (n < |s| ==> s[n] == c)
  {
    if s == [] || s[0] == c then 0 else 1 + Find(s[1..], c)
  }

  /** BdecodeInteger: a non-empty text up to `stop` that lexical_cast accepts. */
  function ReadNumber(s: Bytes, stop: Byte): (r: Read<Bytes>)
    ensures r.Good? ==> Scan(r.value).Some? && |r.rest| < |s| && r.value != []
  {
    var n := Find(s, stop);
    if n == 0 || n == |s| || Scan(s[..n]) == None then Bad else Good(s[..n], s[n + 1..])
  }

  /** BdecodeString with its length: a negative length passes the assertion, and std::string throws. */
  function ReadStr(s: Bytes): (r: Read<Tree>)
    ensures r.Good? ==> r.value.TStr? && |r.rest| < |s|
  {
    match ReadNumber(s, COLON)
    case Bad => Bad
    case Good(len, rest) =>
      var size := Scan(len).value;
      if size < 0 || size > |rest| then Bad else Good(TStr(len, rest[..size]), rest[size..])
  }

  function ReadTree(s: Bytes): (r: Read<Tree>)
    ensures r.Good? ==> |r.rest| < |s|
    decreases |s|, 0
  {
    if Peek(s) == INT_TAG then
      match ReadNumber(s[1..], END_TAG) case Bad => Bad case Good(text, rest) => Good(TInt(text), rest)
    else if Peek(s) == LIST_TAG then
      match ReadTrees(s[1..]) case Bad => Bad case Good(ts, rest) => Good(TList(ts), rest)
    else if Peek(s) == DICT_TAG then
      match ReadPairs(s[1..]) case Bad => Bad case Good(ps, rest) => Good(TDict(ps), rest)
    else ReadStr(s)
  }

  /** The elements of a list and its end tag. */
  function ReadTrees(s: Bytes): (r: Read<seq<Tree>>)
    ensures r.Good? ==> |r.rest| < |s|
    decreases |s|, 2
  {
    if Peek(s) == END_TAG then Good([], s[1..])
    else match ReadTree(s)
      case Bad => Bad
      case Good(t, rest) =>
        match ReadTrees(rest) case Bad => Bad case Good(ts, rest1) => Good([t] + ts, rest1)
  }

  /** The keys and values of a dictionary and its end tag. */
  function ReadPairs(s: Bytes): (r: Read<seq<TPair>>)
    ensures r.Good? ==> |r.rest| < |s|
    decreases |s|, 2
  {
    if Peek(s) == END_TAG then Good([], s[1..])
    else match ReadPair(s)
      case Bad => Bad
      case Good(p, rest) =>
        match ReadPairs(rest) case Bad => Bad case Good(ps, rest1) => Good([p] + ps, rest1)
  }

  function ReadPair(s: Bytes): (r: Read<TPair>)
    ensures r.Good? ==> |r.rest| < |s|
    decreases |s|, 1
  {
    match ReadTree(s)
    case Bad => Bad
    case Good(k, rest) =>
      if !k.TStr? then Bad
      else match ReadTree(rest) case Bad => Bad case Good(v, rest1) => Good(TPair(k.len, k.body, v), rest1)
  }

  // ---------------------------------------------------------------- sound

  lemma {:induction false} ReadNumberSound(s: Bytes, stop: Byte)
    requires ReadNumber(s, stop).Good?
    ensures s == ReadNumber(s, stop).value + [stop] + ReadNumber(s, stop).rest
  {
  }

  lemma ReadStrSound(s: Bytes)
    requires ReadStr(s).Good?
    ensures Derivable(ReadStr(s).value) && s == Flatten(ReadStr(s).value) + ReadStr(s).rest
  {
    hide ReadNumber, Scan, Find;
    ReadNumberSound(s, COLON);
  }

  /** What the reader reads is a derivation of exactly the bytes it consumed. */
  lemma {:induction false} ReadTreeSound(s: Bytes)
    requires ReadTree(s).Good?
    ensures Derivable(ReadTree(s).value)
    ensures s == Flatten(ReadTree(s).value) + ReadTree(s).rest
    decreases |s|, 0
  {
    if Peek(s) == INT_TAG {
      ReadNumberSound(s[1..], END_TAG);
      Enclosed(s, INT_TAG, ReadNumber(s[1..], END_TAG).value, ReadNumber(s[1..], END_TAG).rest);
    } else if Peek(s) == LIST_TAG {
      ReadTreesSound(s[1..]);
      Enclosed(s, LIST_TAG, FlattenAll(ReadTrees(s[1..]).value), ReadTrees(s[1..]).rest);
    } else if Peek(s) == DICT_TAG {
      ReadPairsSound(s[1..]);
      Enclosed(s, DICT_TAG, FlattenPairs(ReadPairs(s[1..]).value), ReadPairs(s[1..]).rest);
    } else {
      ReadStrSound(s);
    }
  }

  lemma Enclosed(s: Bytes, tag: Byte, inner: Bytes, r: Bytes)
    requires s != [] && s[0] == tag && s[1..] == inner + [END_TAG] + r
    ensures s == [tag] + inner + [END_TAG] + r
  {
    assert s == [tag] + s[1..];
  }

  lemma {:induction false} ReadTreesSound(s: Bytes)
    requires ReadTrees(s).Good?
    ensures forall i :: 0 <= i < |ReadTrees(s).value| ==> Derivable(ReadTrees(s).value[i])
    ensures s == FlattenAll(ReadTrees(s).value) + [END_TAG] + ReadTrees(s).rest
    decreases |s|, 2
  {
    if Peek(s) != END_TAG {
      ReadTreeSound(s);
      var rest := ReadTree(s).rest;
      ReadTreesSound(rest);
      var ts := ReadTrees(rest).value;
      assert ReadTrees(s).value == [ReadTree(s).value] + ts;
      Regroup(Flatten(ReadTree(s).value), FlattenAll(ts), [END_TAG] + ReadTrees(rest).rest);
    }
  }

  lemma {:induction false} ReadPairSound(s: Bytes)
    requires ReadPair(s).Good?
    ensures DerivablePair(ReadPair(s).value)
    ensures s == FlattenPair(ReadPair(s).value) + ReadPair(s).rest
    decreases |s|, 1
  {
    ReadTreeSound(s);
    var k, rest := ReadTree(s).value, ReadTree(s).rest;
    ReadTreeSound(rest);
    var v, r := ReadTree(rest).value, ReadTree(rest).rest;
    assert ReadPair(s) == Good(TPair(k.len, k.body, v), r);
    Regroup(FlattenStr(k.len, k.body), Flatten(v), r);
  }

  lemma {:induction false} ReadPairsSound(s: Bytes)
    requires ReadPairs(s).Good?
    ensures forall i :: 0 <= i < |ReadPairs(s).value| ==> DerivablePair(ReadPairs(s).value[i])
    ensures s == FlattenPairs(ReadPairs(s).value) + [END_TAG] + ReadPairs(s).rest
    decreases |s|, 2
  {
    if Peek(s) != END_TAG {
      ReadPairSound(s);
      var rest := ReadPair(s).rest;
      ReadPairsSound(rest);
      var ps := ReadPairs(rest).value;
      assert ReadPairs(s).value == [ReadPair(s).value] + ps;
      Regroup(FlattenPair(ReadPair(s).value), FlattenPairs(ps), [END_TAG] + ReadPairs(rest).rest);
    }
  }

  // ---------------------------------------------------------------- complete

  lemma ScannedBytes(text: Bytes)
    requires Scan(text).Some?
    ensures text != [] && forall i :: 0 <= i < |text| ==> IsDigit(text[i]) || text[i] == MINUS || text[i] == PLUS
  {
    if text[0] == MINUS || text[0] == PLUS {
      assert forall i :: 0 < i < |text| ==> text[i] == text[1..][i - 1];
    }
  }

  lemma {:induction false} FindBehind(text: Bytes, c: Byte, r: Bytes)
    requires c !in text
    ensures Find(text + [c] + r, c) == |text|
  {
    var s := text + [c] + r;
    if text != [] {
      assert s[1..] == text[1..] + [c] + r;
      FindBehind(text[1..], c, r);
    }
  }

  lemma ReadNumberComplete(text: Bytes, stop: Byte, r: Bytes)
    requires Scan(text).Some? && (stop == END_TAG || stop == COLON)
    ensures ReadNumber(text + [stop] + r, stop) == Good(text, r)
  {
    ScannedBytes(text);
    FindBehind(text, stop, r);
    var s := text + [stop] + r;
    assert s[..|text|] == text && s[|text| + 1..] == r;
  }

  /** A number is read exactly when lexical_cast accepts what stands before the first end character. */
  lemma ReadNumberIff(s: Bytes, stop: Byte, text: Bytes, r: Bytes)
    requires stop == END_TAG || stop == COLON
    ensures ReadNumber(s, stop) == Good(text, r) <==> Scan(text).Some? && s == text + [stop] + r
    ensures Scan(text).Some? ==> stop !in text
  {
    if ReadNumber(s, stop) == Good(text, r) {
      ReadNumberSound(s, stop);
    }
    if Scan(text).Some? {
      ScannedBytes(text);
      ReadNumberComplete(text, stop, r);
    }
  }

  /** No derivation starts with an end tag, and only tagged ones with their tag. */
  lemma FirstByte(t: Tree, r: Bytes)
    requires Derivable(t)
    ensures Peek(Flatten(t) + r) != END_TAG
    ensures t.TStr? ==> Peek(Flatten(t) + r) !in {INT_TAG, LIST_TAG, DICT_TAG}
  {
    if t.TStr? {
      ScannedBytes(t.len);
    }
  }

  lemma Within(tag: Byte, inner: Bytes, r: Bytes)
    ensures ([tag] + inner + [END_TAG] + r)[1..] == inner + [END_TAG] + r == inner + ([END_TAG] + r)
  {
  }

  lemma StrComplete(len: Bytes, body: Bytes, r: Bytes)
    requires Counts(len, body)
    ensures ReadTree(FlattenStr(len, body) + r) == Good(TStr(len, body), r)
  {
    FirstByte(TStr(len, body), r);
    assert FlattenStr(len, body) + r == len + [COLON] + (body + r);
    ReadNumberComplete(len, COLON, body + r);
    assert (body + r)[..|body|] == body && (body + r)[|body|..] == r;
  }

  lemma ReadTreesStep(s: Bytes, t: Tree, rest: Bytes)
    requires Peek(s) != END_TAG && ReadTree(s) == Good(t, rest) && ReadTrees(rest).Good?
    ensures ReadTrees(s) == Good([t] + ReadTrees(rest).value, ReadTrees(rest).rest)
  {
  }

  lemma ReadPairsStep(s: Bytes, p: TPair, rest: Bytes)
    requires Peek(s) != END_TAG && ReadPair(s) == Good(p, rest) && ReadPairs(rest).Good?
    ensures ReadPairs(s) == Good([p] + ReadPairs(rest).value, ReadPairs(rest).rest)
  {
  }

  /** Whatever follows it, a derivation is read back as it is. */
  lemma {:induction false} ReadTreeComplete(t: Tree, r: Bytes)
    requires Derivable(t)
    ensures ReadTree(Flatten(t) + r) == Good(t, r)
    decreases t, 1
  {
    var s := Flatten(t) + r;
    FirstByte(t, r);
    match t
    case TInt(text) =>
      Within(INT_TAG, text, r);
      ReadNumberComplete(text, END_TAG, r);
    case TStr(len, body) =>
      StrComplete(len, body, r);
    case TList(ts) =>
      Within(LIST_TAG, FlattenAll(ts), r);
      ReadTreesComplete(ts, r);
    case TDict(ps) =>
      Within(DICT_TAG, FlattenPairs(ps), r);
      ReadPairsComplete(ps, r);
  }

  lemma {:induction false} ReadTreesComplete(ts: seq<Tree>, r: Bytes)
    requires forall i :: 0 <= i < |ts| ==> Derivable(ts[i])
    ensures ReadTrees(FlattenAll(ts) + ([END_TAG] + r)) == Good(ts, r)
    decreases ts, 0
  {
    var end := [END_TAG] + r;
    if ts == [] {
      assert FlattenAll(ts) + end == end;
    } else {
      var more := FlattenAll(ts[1..]) + end;
      Regroup(Flatten(ts[0]), FlattenAll(ts[1..]), end);
      FirstByte(ts[0], more);
      ReadTreeComplete(ts[0], more);
      ReadTreesComplete(ts[1..], r);
      ReadTreesStep(Flatten(ts[0]) + more, ts[0], more);
      assert [ts[0]] + ts[1..] == ts;
    }
  }

  lemma {:induction false} ReadPairComplete(p: TPair, r: Bytes)
    requires DerivablePair(p)
    ensures ReadPair(FlattenPair(p) + r) == Good(p, r) && Peek(FlattenPair(p) + r) != END_TAG
    decreases p, 2
  {
    var more := Flatten(p.value) + r;
    Regroup(FlattenStr(p.len, p.key), Flatten(p.value), r);
    FirstByte(TStr(p.len, p.key), more);
    StrComplete(p.len, p.key, more);
    ReadTreeComplete(p.value, r);
  }

  lemma {:induction false} ReadPairsComplete(ps: seq<TPair>, r: Bytes)
    requires forall i :: 0 <= i < |ps| ==> DerivablePair(ps[i])
    ensures ReadPairs(FlattenPairs(ps) + ([END_TAG] + r)) == Good(ps, r)
    decreases ps, 0
  {
    var end := [END_TAG] + r;
    if ps == [] {
      assert FlattenPairs(ps) + end == end;
    } else {
      var more := FlattenPairs(ps[1..]) + end;
      Regroup(FlattenPair(ps[0]), FlattenPairs(ps[1..]), end);
      ReadPairComplete(ps[0], more);
      ReadPairsComplete(ps[1..], r);
      ReadPairsStep(FlattenPair(ps[0]) + more, ps[0], more);
      assert [ps[0]] + ps[1..] == ps;
    }
  }

  /** The reader succeeds on an input exactly when some prefix of it is derived, and the derivation
      and the prefix are unique. */
  lemma ReaderIsGrammar(s: Bytes, t: Tree, r: Bytes)
    ensures ReadTree(s) == Good(t, r) <==> Derivable(t) && s == Flatten(t) + r
  {
    if ReadTree(s) == Good(t, r) {
      ReadTreeSound(s);
    }
    if Derivable(t) && s == Flatten(t) + r {
      ReadTreeComplete(t, r);
    }
  }
}
