/**
 Message bytes as derivations: a list of spelled fields, in any order and any number, with
 submessages spelled by their own fields. The parse loop accepts exactly the bytes that can be spelled
 so, and gives the merge of what the fields say one by one.
 */
module MessageGrammar {
  import opened Bytes
  import opened Wire
  import opened Messages
  import opened MessageParse
  import opened MessageSerialize
  import opened WireGrammar

  // ---------------------------------------------------------------- derivations

  /** The tag is one of the message type's: field number times 8, plus 2 for strings and submessages and
      0 for numbers. */
  predicate Interpreted(mt: MsgType, tag: nat) {
    1 <= tag / 8 <= |mt.fields|
    && tag % 8 == match mt.fields[tag / 8 - 1].kind
      case Str => 2
      case Sub(_) => 2
      case _ => 0
  }

  ghost predicate Fits(mt: MsgType, f: SField)
    decreases f, 1
  {
    && IsVarint(f.tag) && TagOf(f) != 0
    && if Interpreted(mt, TagOf(f)) then FitsKind(mt.fields[TagOf(f) / 8 - 1].kind, f.value)
       else TagOf(f) % 8 != 4 && Uninterpreted(TagOf(f), f.value)
  }

  ghost predicate FitsKind(kind: Kind, w: Spelling)
    decreases w, 0
  {
    match kind
    case Sub(t) =>
      && w.SMessage? && Counts(w.length, |FlattenAll(w.fields)|)
      && forall i :: 0 <= i < |w.fields| ==> Fits(t, w.fields[i])
    case Str => w.SLen? && Counts(w.length, |w.body|)
    case _ => w.SNum? && IsVarint(w.number)
  }

  ghost predicate AllFit(mt: MsgType, fs: seq<SField>) {
    forall i :: 0 <= i < |fs| ==> Fits(mt, fs[i])
  }

  // ---------------------------------------------------------------- what they say

  /** The 64-bit two's complement of the int with these 32 bits. */
  function Extended(n: nat): nat {
    if n < 0x8000_0000 then n else n + 0xFFFF_FFFF_0000_0000
  }

  /** The message that one field alone makes. An enum value out of range is an unknown field. */
  ghost function Said(mt: MsgType, f: SField): (m: Msg)
    requires Fits(mt, f)
    ensures Typed(mt, m)
    decreases f, 1
  {
    DefaultTyped(mt);
    if !Interpreted(mt, TagOf(f)) then Keep(Default(mt), Unknown(TagOf(f), Meaning(f.value)))
    else
      var i := TagOf(f) / 8 - 1;
      SaidBy(mt, i, f.value)
  }

  ghost function SaidBy(mt: MsgType, i: nat, w: Spelling): (m: Msg)
    requires i < |mt.fields| && FitsKind(mt.fields[i].kind, w)
    ensures Typed(mt, m)
    decreases w, 0
  {
    DefaultTyped(mt);
    match mt.fields[i].kind
    case U32 => Single(mt, i, [N(Number(w.number) % 0x1_0000_0000)])
    case U64 => Single(mt, i, [N(Number(w.number) % 0x1_0000_0000_0000_0000)])
    case Str => Single(mt, i, [B(w.body)])
    case Enum(count) =>
      var n := Number(w.number) % 0x1_0000_0000;
      if n < count then Single(mt, i, [N(n)]) else Keep(Default(mt), Unknown(8 * (i + 1), Num(Extended(n))))
    case Sub(t) => Single(mt, i, [M(AllSaid(t, w.fields))])
  }

  /** All fields together: each is merged into what comes before it. */
  ghost function AllSaid(mt: MsgType, fs: seq<SField>): (m: Msg)
    requires forall i :: 0 <= i < |fs| ==> Fits(mt, fs[i])
    ensures Typed(mt, m)
    decreases fs, 2
  {
    DefaultTyped(mt);
    if fs == [] then Default(mt) else Merge(mt, Said(mt, fs[0]), AllSaid(mt, fs[1..]))
  }

  /** An int kept as a 64-bit number: the number of the int modulo 2^64. */
  lemma KeptIsSigned(n: nat)
    requires n < 0x1_0000_0000
    ensures SignExtend(n) == Extended(n)
    ensures var int32 := if n < 0x8000_0000 then n else n - 0x1_0000_0000;
      -0x8000_0000 <= int32 < 0x8000_0000 && (SignExtend(n) - int32) % 0x1_0000_0000_0000_0000 == 0
  {
  }

  // ---------------------------------------------------------------- what is derived is parsed

  lemma InterpretedIsKnown(mt: MsgType, tag: nat)
    ensures Interpreted(mt, tag) <==> IsKnown(mt, tag)
  {
  }

  lemma {:induction false} FieldComplete(mt: MsgType, f: SField, r: Bytes)
    requires TypeOK(mt) && Fits(mt, f)
    ensures Typed(mt, Default(mt))
    ensures ReadTagged(mt, Default(mt), TagOf(f), Flatten(f.value) + r) == Next(Said(mt, f), r)
    decreases f, 1
  {
    DefaultTyped(mt);
    InterpretedIsKnown(mt, TagOf(f));
    if Interpreted(mt, TagOf(f)) {
      ValueComplete(mt, TagOf(f) / 8 - 1, f.value, r);
    } else {
      SkipComplete(TagOf(f), f.value, r);
    }
  }

  lemma {:induction false} ValueComplete(mt: MsgType, i: nat, w: Spelling, r: Bytes)
    requires TypeOK(mt) && i < |mt.fields| && FitsKind(mt.fields[i].kind, w) && Typed(mt, Default(mt))
    ensures ReadField(mt, Default(mt), i, Flatten(w) + r) == Next(SaidBy(mt, i, w), r)
    decreases w, 0
  {
    var f := mt.fields[i];
    assert FieldOK(f);
    match f.kind
    case Str =>
      ReadCounted(w.length, w.body, r);
      assert Receive(f, [], B(w.body)) == [B(w.body)];
    case Sub(t) =>
      ReadCounted(w.length, FlattenAll(w.fields), r);
      AllComplete(t, w.fields);
      assert Existing(f, []) == Default(t);
      assert Receive(f, [], M(AllSaid(t, w.fields))) == [M(AllSaid(t, w.fields))];
    case _ => ReadTagOf(w.number, r);
  }

  lemma {:induction false} AllComplete(mt: MsgType, fs: seq<SField>)
    requires TypeOK(mt) && AllFit(mt, fs)
    ensures Parse(mt, FlattenAll(fs)) == Outcome(Done, AllSaid(mt, fs))
    decreases fs, 2
  {
    DefaultTyped(mt);
    if fs != [] {
      var f, more := fs[0], FlattenAll(fs[1..]);
      FieldComplete(mt, f, more);
      AllComplete(mt, fs[1..]);
      FieldFirst(fs, []);
      assert more + [] == more && FlattenAll(fs) + [] == FlattenAll(fs);
      ReadTagOf(f.tag, Flatten(f.value) + more);
      OneField(mt, f.tag + (Flatten(f.value) + more), TagOf(f), Flatten(f.value) + more, Said(mt, f), more);
    }
  }

  /** One turn of the loop, then the rest merged into what it gave. */
  lemma OneField(mt: MsgType, s: Bytes, tag: nat, body: Bytes, d: Msg, rest: Bytes)
    requires TypeOK(mt) && Typed(mt, Default(mt)) && Typed(mt, d)
    requires s != [] && ReadVarint32(s) == Good(tag, body) && ReadTagged(mt, Default(mt), tag, body) == Next(d, rest)
    ensures Parse(mt, s).status == Parse(mt, rest).status
    ensures Parse(mt, rest).status == Done ==> Parse(mt, s).msg == Merge(mt, d, Parse(mt, rest).msg)
  {
    assert Parse(mt, s) == ParseInto(mt, d, rest);
    ParseIsMerge(mt, d, rest);
  }

  // ---------------------------------------------------------------- what is parsed is derived

  lemma {:induction false} ValueSound(mt: MsgType, i: nat, s: Bytes) returns (w: Spelling)
    requires TypeOK(mt) && i < |mt.fields| && Typed(mt, Default(mt)) && ReadField(mt, Default(mt), i, s).Next?
    ensures FitsKind(mt.fields[i].kind, w) && s == Flatten(w) + ReadField(mt, Default(mt), i, s).rest
    ensures SaidBy(mt, i, w) == ReadField(mt, Default(mt), i, s).msg
    decreases |s|, 0
  {
    var f := mt.fields[i];
    assert FieldOK(f);
    match f.kind
    case Str =>
      var x := ReadBytesFinds(s);
      w := SLen(x, ReadBytes(s).value);
      assert Receive(f, [], B(w.body)) == [B(w.body)];
    case Sub(t) =>
      var x := ReadBytesFinds(s);
      assert Existing(f, []) == Default(t);
      var fs := AllSound(t, ReadBytes(s).value);
      w := SMessage(x, fs);
      assert Receive(f, [], M(AllSaid(t, fs))) == [M(AllSaid(t, fs))];
    case _ =>
      var x := ReadTagFinds(s);
      w := SNum(x);
  }

  lemma {:induction false} AllSound(mt: MsgType, s: Bytes) returns (fs: seq<SField>)
    requires TypeOK(mt) && Parse(mt, s).status == Done
    ensures AllFit(mt, fs) && s == FlattenAll(fs) && Parse(mt, s).msg == AllSaid(mt, fs)
    decreases |s|, 2
  {
    DefaultTyped(mt);
    if s == [] {
      fs := [];
      assert Parse(mt, []).msg == AllSaid(mt, []);
    } else {
      FirstParsed(mt, s);
      hide Fits, Said, AllSaid, TypeOK, Parse, ParseInto, ReadTagged, ReadVarint32, IsVarint, Number, Flatten,
           FlattenAll, Merge;
      var x := ReadTagFinds(s);
      var body := ReadVarint32(s).rest;
      var st := ReadTagged(mt, Default(mt), ReadVarint32(s).value, body);
      var w := FieldSound(mt, x, body);
      OneField(mt, s, ReadVarint32(s).value, body, st.msg, st.rest);
      var more := AllSound(mt, st.rest);
      FieldPrepended(mt, x, w, more);
      fs := [SField(x, w)] + more;
    }
  }

  lemma FieldPrepended(mt: MsgType, x: Bytes, w: Spelling, more: seq<SField>)
    requires Fits(mt, SField(x, w)) && AllFit(mt, more)
    ensures AllFit(mt, [SField(x, w)] + more)
    ensures FlattenAll([SField(x, w)] + more) == x + (Flatten(w) + FlattenAll(more))
    ensures AllSaid(mt, [SField(x, w)] + more) == Merge(mt, Said(mt, SField(x, w)), AllSaid(mt, more))
  {
    assert ([SField(x, w)] + more)[1..] == more;
  }

  lemma FirstParsed(mt: MsgType, s: Bytes)
    requires s != [] && Parse(mt, s).status == Done
    ensures Typed(mt, Default(mt)) && ReadVarint32(s).Good?
    ensures ReadTagged(mt, Default(mt), ReadVarint32(s).value, ReadVarint32(s).rest).Next?
  {
    DefaultTyped(mt);
  }

  lemma {:induction false} FieldSound(mt: MsgType, x: Bytes, body: Bytes) returns (w: Spelling)
    requires TypeOK(mt) && IsVarint(x) && Typed(mt, Default(mt))
    requires ReadTagged(mt, Default(mt), Number(x) % 0x1_0000_0000, body).Next?
    ensures var f, st := SField(x, w), ReadTagged(mt, Default(mt), Number(x) % 0x1_0000_0000, body);
      Fits(mt, f) && st == Next(Said(mt, f), st.rest) && body == Flatten(w) + st.rest
    decreases |body|, 1
  {
    hide ReadField, Skip, FitsKind, Uninterpreted, SaidBy, IsVarint, Number, Flatten, TypeOK;
    var tag := Number(x) % 0x1_0000_0000;
    InterpretedIsKnown(mt, tag);
    if Interpreted(mt, tag) {
      w := ValueSound(mt, tag / 8 - 1, body);
    } else {
      w := SkipSound(tag, body);
    }
  }

  /** Parsing accepts a byte string exactly when it can be spelled as fields, and gives the message these
      fields say; whatever way there is to spell it, they say the same. */
  lemma ParseIsGrammar(mt: MsgType, s: Bytes, m: Msg)
    requires TypeOK(mt)
    ensures Parse(mt, s) == Outcome(Done, m)
       <==> exists fs :: AllFit(mt, fs) && s == FlattenAll(fs) && m == AllSaid(mt, fs)
  {
    if Parse(mt, s) == Outcome(Done, m) {
      var fs := AllSound(mt, s);
    }
    forall fs | AllFit(mt, fs) && s == FlattenAll(fs) ensures Parse(mt, s) == Outcome(Done, AllSaid(mt, fs)) {
      AllComplete(mt, fs);
    }
  }

  // ---------------------------------------------------------------- what a refused input leaves

  /** A number that cannot be read leaves its field as it was. A string or submessage is there afterwards:
      a new element of a repeated field, the one that was there, or a new one; a string keeps its bytes, a
      new one has none. */
  ghost predicate LeftBehind(f: Field, x: seq<Val>, z: seq<Val>) {
    if !f.kind.Str? && !f.kind.Sub? then z == x
    else if f.presence.Repeated? then |z| == |x| + 1 && z[..|x|] == x && (f.kind.Str? ==> z[|x|] == B([]))
    else |z| == 1 && (f.kind.Str? ==> z == if x == [] then [B([])] else x)
  }

  lemma FailedField(mt: MsgType, m: Msg, i: nat, s: Bytes)
    requires Typed(mt, m) && i < |mt.fields|
    ensures var z := ReadField(mt, m, i, s).msg;
      ReadField(mt, m, i, s).Fail? ==>
        z.unknown == m.unknown && OtherFields(mt, m, z, i + 1) && LeftBehind(mt.fields[i], m.fields[i], z.fields[i])
  {
    assert SlotTyped(mt.fields[i], m.fields[i]);
  }

  /** The messages have the same fields but for one number. */
  ghost predicate OtherFields(mt: MsgType, m: Msg, z: Msg, number: nat)
    requires Typed(mt, m) && Typed(mt, z)
  {
    forall k :: 0 <= k < |mt.fields| && k + 1 != number ==> z.fields[k] == m.fields[k]
  }

  /** Where and why the loop ended before the end of the input: what is left starts with no tag, with 0 or
      with an end-group tag and the message is what the fields before say; or the value behind its tag is
      malformed and at most that field is different. */
  ghost predicate EndsEarly(mt: MsgType, o: Outcome, m: Msg, rest: Bytes)
    requires Typed(mt, m) && Typed(mt, o.msg)
  {
    var tag := ReadVarint32(rest);
    rest != [] &&
    match o.status
    case Done => false
    case Stopped => o.msg == m && (tag.Bad? || tag.value == 0 || (!Interpreted(mt, tag.value) && tag.value % 8 == 4))
    case Failed =>
      && tag.Good? && o.msg.unknown == m.unknown && OtherFields(mt, m, o.msg, tag.value / 8)
      && if Interpreted(mt, tag.value) then
           var i := tag.value / 8 - 1;
           LeftBehind(mt.fields[i], m.fields[i], o.msg.fields[i])
         else tag.value != 0 && tag.value % 8 != 4 && o.msg == m && Skip(tag.value, tag.rest).Bad?
  }

  /** An input that is not accepted begins with fields whose merge the message keeps. */
  lemma {:induction false} RefusedKeepsPrefix(mt: MsgType, m: Msg, s: Bytes) returns (fs: seq<SField>, rest: Bytes)
    requires TypeOK(mt) && Typed(mt, m) && ParseInto(mt, m, s).status != Done
    ensures AllFit(mt, fs) && s == FlattenAll(fs) + rest
    ensures EndsEarly(mt, ParseInto(mt, m, s), Merge(mt, m, AllSaid(mt, fs)), rest)
    decreases |s|
  {
    hide Fits, Said, AllSaid, TypeOK, ParseInto, ReadTagged, ReadVarint32, IsVarint, Number, Flatten, FlattenAll,
         Merge, EndsEarly;
    Turn(mt, m, s);
    if ReadVarint32(s).Bad? || !ReadTagged(mt, m, ReadVarint32(s).value, ReadVarint32(s).rest).Next? {
      fs, rest := [], s;
      NothingSaid(mt, m);
      RefusedAtOnce(mt, m, s);
    } else {
      var tag, body := ReadVarint32(s).value, ReadVarint32(s).rest;
      var st := ReadTagged(mt, m, tag, body);
      ReadTaggedIsMerge(mt, m, tag, body);
      var x := ReadTagFinds(s);
      var w := FieldSound(mt, x, body);
      var more;
      more, rest := RefusedKeepsPrefix(mt, st.msg, st.rest);
      fs := [SField(x, w)] + more;
      FieldPrepended(mt, x, w, more);
      MergeAssociative(mt, m, Said(mt, fs[0]), AllSaid(mt, more));
      assert x + (Flatten(w) + FlattenAll(more)) + rest == x + (Flatten(w) + (FlattenAll(more) + rest));
    }
  }

  lemma Turn(mt: MsgType, m: Msg, s: Bytes)
    requires Typed(mt, m) && ParseInto(mt, m, s).status != Done
    ensures s != []
    ensures ReadVarint32(s).Good? ==>
      var st := ReadTagged(mt, m, ReadVarint32(s).value, ReadVarint32(s).rest);
      st.Next? ==> |st.rest| < |s| && ParseInto(mt, m, s) == ParseInto(mt, st.msg, st.rest)
  {
  }

  lemma NothingSaid(mt: MsgType, m: Msg)
    requires Typed(mt, m)
    ensures AllFit(mt, []) && FlattenAll([]) == [] && Merge(mt, m, AllSaid(mt, [])) == m
  {
    MergeIdentity(mt, m);
  }

  lemma RefusedAtOnce(mt: MsgType, m: Msg, s: Bytes)
    requires Typed(mt, m) && s != []
    requires ReadVarint32(s).Bad? || !ReadTagged(mt, m, ReadVarint32(s).value, ReadVarint32(s).rest).Next?
    ensures EndsEarly(mt, ParseInto(mt, m, s), m, s)
  {
    if ReadVarint32(s).Good? {
      var tag := ReadVarint32(s).value;
      InterpretedIsKnown(mt, tag);
      if Interpreted(mt, tag) {
        FailedField(mt, m, tag / 8 - 1, ReadVarint32(s).rest);
      }
    }
  }

  // ---------------------------------------------------------------- the order of written fields

  /** Field numbers never descend. */
  ghost predicate Ascend(fs: seq<SField>) {
    forall i, j :: 0 <= i < j < |fs| ==> TagOf(fs[i]) / 8 <= TagOf(fs[j]) / 8
  }

  /** Only fields up to this number. */
  ghost predicate UpTo(fs: seq<SField>, number: nat) {
    forall i :: 0 <= i < |fs| ==> TagOf(fs[i]) / 8 <= number
  }

  /** One written value is one field with the tag of its number. */
  lemma WrittenValue(mt: MsgType, i: nat, v: Val) returns (f: SField)
    requires TypeOK(mt) && i < |mt.fields| && ValTyped(mt.fields[i].kind, v)
    requires v.M? ==> WellFormed(mt.fields[i].kind.mt, v.msg)
    requires |SerializeVal(mt.fields[i].kind, i + 1, v)| < LENGTH_LIMIT
    ensures Fits(mt, f) && FlattenField(f) == SerializeVal(mt.fields[i].kind, i + 1, v)
    ensures TagOf(f) / 8 == i + 1
  {
    var kind := mt.fields[i].kind;
    FieldIsOK(mt, i);
    hide SerializePayload, FitsKind, Flatten, ValTyped, WellFormed, Varint, IsVarint, Number, TypeOK;
    var x := WrittenVarint(Tag(i + 1, kind));
    var w := WrittenPayload(kind, v);
    f := SField(x, w);
  }

  lemma FieldIsOK(mt: MsgType, i: nat)
    requires TypeOK(mt) && i < |mt.fields|
    ensures i < 15 && FieldOK(mt.fields[i])
    ensures var kind := mt.fields[i].kind; (kind.Sub? ==> TypeOK(kind.mt)) && (kind.Enum? ==> kind.count <= LENGTH_LIMIT)
  {
  }

  lemma WrittenVarint(n: nat) returns (x: Bytes)
    requires n < TWO_64
    ensures x == Varint(n) && IsVarint(x) && Number(x) == n
  {
    x := Varint(n);
    ReadRawOfWritten(n, []);
    var y := ReadRawFinds(Varint(n) + [], MAX_VARINT);
    assert y + [] == y && x + [] == x;
  }

  lemma WrittenPayload(kind: Kind, v: Val) returns (w: Spelling)
    requires ValTyped(kind, v) && (kind.Sub? ==> TypeOK(kind.mt) && WellFormed(kind.mt, v.msg))
    requires kind.Enum? ==> kind.count <= LENGTH_LIMIT
    requires |SerializePayload(kind, v)| < LENGTH_LIMIT
    ensures FitsKind(kind, w) && Flatten(w) == SerializePayload(kind, v)
  {
    match v
    case N(n) =>
      var x := WrittenVarint(n);
      w := SNum(x);
    case B(b) =>
      var x := WrittenVarint(|b|);
      w := SLen(x, b);
    case M(m) => w := WrittenMessage(kind, m);
  }

  lemma WrittenMessage(kind: Kind, m: Msg) returns (w: Spelling)
    requires kind.Sub? && TypeOK(kind.mt) && WellFormed(kind.mt, m)
    requires |Delimited(Serialize(kind.mt, m))| < LENGTH_LIMIT
    ensures FitsKind(kind, w) && Flatten(w) == Delimited(Serialize(kind.mt, m))
  {
    hide TypeOK, Typed, SlotWellFormed, Settles, Serialize, IsVarint, Number;
    var b := Serialize(kind.mt, m);
    RoundTrip(kind.mt, m);
    var x := WrittenVarint(|b|);
    var fs := AllSound(kind.mt, b);
    w := SMessage(x, fs);
  }

  lemma {:induction false} WrittenSlot(mt: MsgType, i: nat, vs: seq<Val>) returns (fs: seq<SField>)
    requires TypeOK(mt) && i < |mt.fields| && SlotTyped(mt.fields[i], vs) && SlotWellFormed(mt.fields[i].kind, vs)
    requires |SerializeSlot(mt.fields[i].kind, i + 1, vs)| < LENGTH_LIMIT
    ensures AllFit(mt, fs) && FlattenAll(fs) == SerializeSlot(mt.fields[i].kind, i + 1, vs)
    ensures |fs| == |vs| && forall k :: 0 <= k < |fs| ==> TagOf(fs[k]) / 8 == i + 1
    decreases |vs|
  {
    if vs == [] {
      fs := [];
    } else {
      LastValue(mt, i, vs);
      var front := WrittenSlot(mt, i, vs[..|vs| - 1]);
      var f := WrittenValue(mt, i, vs[|vs| - 1]);
      fs := front + [f];
      FlattenConcat(front, [f]);
      assert [f][1..] == [];
    }
  }

  lemma {:induction false} FlattenConcat(a: seq<SField>, b: seq<SField>)
    ensures FlattenAll(a + b) == FlattenAll(a) + FlattenAll(b)
    decreases |a|
  {
    if a == [] {
      assert a + b == b;
    } else {
      assert (a + b)[1..] == a[1..] + b;
      FlattenConcat(a[1..], b);
    }
  }

  lemma {:induction false} WrittenFields(mt: MsgType, m: Msg, n: nat) returns (fs: seq<SField>)
    requires TypeOK(mt) && WellFormed(mt, m) && n <= |mt.fields| && |SerializeFields(mt, m, n)| < LENGTH_LIMIT
    ensures AllFit(mt, fs) && FlattenAll(fs) == SerializeFields(mt, m, n) && Ascend(fs) && UpTo(fs, n)
    decreases n
  {
    hide SerializeFields, SerializeSlot, FlattenAll, WellFormed, SlotWellFormed, TypeOK, Fits, FieldOK;
    WellFormedIsTyped(mt, m);
    if n == 0 {
      NoFields(mt, m);
      fs := [];
    } else {
      FieldWellFormed(mt, m, n);
      var front := WrittenFields(mt, m, n - 1);
      var last := WrittenSlot(mt, n - 1, m.fields[n - 1]);
      fs := front + last;
      FlattenConcat(front, last);
    }
  }

  lemma NoFields(mt: MsgType, m: Msg)
    requires Typed(mt, m)
    ensures SerializeFields(mt, m, 0) == FlattenAll([])
  {
  }

  /** A message is written as its fields in the order of their numbers and then its unknown fields as they
      arrived. */
  lemma NumbersAscend(mt: MsgType, m: Msg) returns (fs: seq<SField>)
    requires TypeOK(mt) && WellFormed(mt, m) && |Serialize(mt, m)| < LENGTH_LIMIT
    ensures AllFit(mt, fs) && Ascend(fs) && Serialize(mt, m) == FlattenAll(fs) + EncodeUnknowns(m.unknown)
    ensures AllSaid(mt, fs) == m.(unknown := [])
  {
    fs := WrittenFields(mt, m, |mt.fields|);
    ParseFields(mt, m, |mt.fields|);
    AllComplete(mt, fs);
    assert Prefix(mt, m, |mt.fields|).fields == m.fields;
  }
}
