/** Which entries share an encoding, UNDEFINED ones and those inside included. */
module BencodeTokens {
  import opened Bytes
  import opened Decimal
  import opened BencodeEntries
  import opened BencodeGrammar

  /** What an encoding spells: integers, strings, and the tags that open and close. */
  datatype Token = Number(v: Int64) | Text(s: BencodeEntries.Text) | Mark(tag: Byte)

  predicate IsMark(b: Byte) {
    b == LIST_TAG || b == DICT_TAG || b == END_TAG
  }

  function Spell(t: Token): Bytes {
    match t
    case Number(v) => [INT_TAG] + Print(v) + [END_TAG]
    case Text(s) => EncodeStr(s)
    case Mark(tag) => [tag]
  }

  function SpellAll(ts: seq<Token>): Bytes {
    if ts == [] then [] else Spell(ts[0]) + SpellAll(ts[1..])
  }

  /** An UNDEFINED entry has no token, and keys are strings like any other. */
  function Tokens(e: Entry): seq<Token>
    decreases e, 1
  {
    match e
    case Undefined => []
    case Int(v) => [Number(v)]
    case Str(s) => [Text(s)]
    case List(es) => [Mark(LIST_TAG)] + ListTokens(es) + [Mark(END_TAG)]
    case Dict(xs) => [Mark(DICT_TAG)] + DictTokens(xs) + [Mark(END_TAG)]
  }

  function ListTokens(es: seq<Entry>): seq<Token>
    decreases es, 0
  {
    if es == [] then [] else Tokens(es[0]) + ListTokens(es[1..])
  }

  function DictTokens(xs: seq<Item>): seq<Token>
    decreases xs, 0
  {
    if xs == [] then [] else [Text(xs[0].key)] + Tokens(xs[0].value) + DictTokens(xs[1..])
  }

  ghost predicate Marked(ts: seq<Token>) {
    forall i :: 0 <= i < |ts| && ts[i].Mark? ==> IsMark(ts[i].tag)
  }

  lemma {:induction false} SpellConcat(a: seq<Token>, b: seq<Token>)
    ensures SpellAll(a + b) == SpellAll(a) + SpellAll(b)
    decreases |a|
  {
    if a == [] {
      assert a + b == b;
    } else {
      assert (a + b)[1..] == a[1..] + b;
      SpellConcat(a[1..], b);
    }
  }

  lemma SpellOne(t: Token)
    ensures SpellAll([t]) == Spell(t)
  {
    assert [t][1..] == [];
  }

  lemma SpellEnclosed(tag: Byte, ts: seq<Token>)
    ensures SpellAll([Mark(tag)] + ts + [Mark(END_TAG)]) == [tag] + SpellAll(ts) + [END_TAG]
  {
    SpellConcat([Mark(tag)] + ts, [Mark(END_TAG)]);
    SpellConcat([Mark(tag)], ts);
    SpellOne(Mark(tag));
    SpellOne(Mark(END_TAG));
  }

  /** The encoder spells the tokens of the entry. */
  lemma {:induction false} EncodeSpells(e: Entry)
    ensures SpellAll(Tokens(e)) == Encode(e) && Marked(Tokens(e))
    decreases e, 1
  {
    match e
    case Undefined =>
    case Int(v) => SpellOne(Number(v));
    case Str(s) => SpellOne(Text(s));
    case List(es) =>
      EncodeListSpells(es);
      SpellEnclosed(LIST_TAG, ListTokens(es));
    case Dict(xs) =>
      EncodeDictSpells(xs);
      SpellEnclosed(DICT_TAG, DictTokens(xs));
  }

  lemma {:induction false} EncodeListSpells(es: seq<Entry>)
    ensures SpellAll(ListTokens(es)) == EncodeList(es) && Marked(ListTokens(es))
    decreases es, 0
  {
    if es != [] {
      EncodeSpells(es[0]);
      EncodeListSpells(es[1..]);
      SpellConcat(Tokens(es[0]), ListTokens(es[1..]));
    }
  }

  lemma {:induction false} EncodeDictSpells(xs: seq<Item>)
    ensures SpellAll(DictTokens(xs)) == EncodeItems(xs) && Marked(DictTokens(xs))
    decreases xs, 0
  {
    if xs != [] {
      var key, value := [Text(xs[0].key)], Tokens(xs[0].value);
      EncodeSpells(xs[0].value);
      EncodeDictSpells(xs[1..]);
      SpellConcat(key + value, DictTokens(xs[1..]));
      SpellConcat(key, value);
      SpellOne(Text(xs[0].key));
    }
  }

  /** The derivation a number or a string spells. */
  function Leaf(t: Token): Tree
    requires !t.Mark?
  {
    match t
    case Number(v) => TInt(Print(v))
    case Text(s) => TStr(Print(|s|), s)
  }

  /** No token is the beginning of another one. */
  lemma FirstToken(t: Token, x: Bytes, u: Token, y: Bytes)
    requires Spell(t) + x == Spell(u) + y
    requires (t.Mark? ==> IsMark(t.tag)) && (u.Mark? ==> IsMark(u.tag))
    ensures t == u && x == y
  {
    SpelledFirst(t, x);
    SpelledFirst(u, y);
    if t.Mark? {
      assert x == (Spell(t) + x)[1..] && y == (Spell(u) + y)[1..];
    } else {
      ReadTreeComplete(Leaf(t), x);
      ReadTreeComplete(Leaf(u), y);
      if t.Number? {
        ScanOfPrint(t.v);
        ScanOfPrint(u.v);
      }
    }
  }

  lemma SpelledFirst(t: Token, x: Bytes)
    requires t.Mark? ==> IsMark(t.tag)
    ensures t.Mark? <==> IsMark(Peek(Spell(t) + x))
    ensures t.Number? <==> Peek(Spell(t) + x) == INT_TAG
    ensures !t.Mark? ==> Derivable(Leaf(t)) && Flatten(Leaf(t)) == Spell(t)
  {
    match t
    case Number(v) => ScanOfPrint(v);
    case Text(s) =>
      ScanOfPrint(|s|);
      FirstByte(Leaf(t), x);
    case Mark(_) =>
  }

  lemma {:induction false} SpellUnique(ts: seq<Token>, us: seq<Token>)
    requires Marked(ts) && Marked(us) && SpellAll(ts) == SpellAll(us)
    ensures ts == us
    decreases |ts|
  {
    SpelledSomething(ts);
    SpelledSomething(us);
    if ts != [] {
      SameFirst(ts, us);
      SpellUnique(ts[1..], us[1..]);
      assert ts == [ts[0]] + ts[1..];
      assert us == [us[0]] + us[1..];
    }
  }

  lemma SameFirst(ts: seq<Token>, us: seq<Token>)
    requires Marked(ts) && Marked(us) && SpellAll(ts) == SpellAll(us) && ts != [] && us != []
    ensures ts[0] == us[0] && SpellAll(ts[1..]) == SpellAll(us[1..])
    ensures Marked(ts[1..]) && Marked(us[1..])
  {
    FirstToken(ts[0], SpellAll(ts[1..]), us[0], SpellAll(us[1..]));
  }

  lemma SpelledSomething(ts: seq<Token>)
    ensures SpellAll(ts) == [] <==> ts == []
  {
    if ts != [] && ts[0].Text? {
      assert EncodeStr(ts[0].s)[|Print(|ts[0].s|)|] == COLON;
    }
  }

  /** Any two entries, whatever in them is UNDEFINED, have the same encoding if and only if they have the
      same tokens: UNDEFINED has none, and a dictionary has those of its keys and values in order. */
  lemma SharedEncodingIff(a: Entry, b: Entry)
    ensures Encode(a) == Encode(b) <==> Tokens(a) == Tokens(b)
  {
    EncodeSpells(a);
    EncodeSpells(b);
    if Encode(a) == Encode(b) {
      SpellUnique(Tokens(a), Tokens(b));
    }
  }
}
