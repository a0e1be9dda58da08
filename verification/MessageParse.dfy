/**
 What MergePartialFromCodedStream computes: a plain loop that reads a tag, switches on
 its field number and lets everything else fall into the unknown field set. The
 generated loop with its jumps is proved equal to it in MessageObject.dfy.
 */
module MessageParse {
  import opened Bytes
  import opened Wire
  import opened Messages

  /** Done: the input was used up. Stopped: a zero, malformed or end-group tag ended the loop, which
      the caller's ConsumedEntireMessage test turns into a failure. Failed: the loop returned false. */
  datatype Status = Done | Stopped | Failed

  datatype Outcome = Outcome(status: Status, msg: Msg)

  /** One field: the message after it, and the input after it unless the loop ends there. */
  datatype Step = Stop(msg: Msg) | Fail(msg: Msg) | Next(msg: Msg, rest: Bytes)

  function WireType(kind: Kind): nat {
    match kind
    case U32 => VARINT
    case U64 => VARINT
    case Enum(_) => VARINT
    case Str => DELIMITED
    case Sub(_) => DELIMITED
  }

  predicate IsKnown(mt: MsgType, tag: nat) {
    1 <= tag / 8 <= |mt.fields| && tag % 8 == WireType(mt.fields[tag / 8 - 1].kind)
  }

  /** An int stored as a 64-bit varint: negative values are sign-extended. */
  function SignExtend(v: nat): (n: nat)
    requires v < TWO_32
    ensures n < TWO_64 && n % TWO_32 == v
  {
    if v < LENGTH_LIMIT then v else v + (TWO_64 - TWO_32)
  }

  /** The submessage a read for field `f` starts from: the present one, or a new one. */
  function Existing(f: Field, x: seq<Val>): (m: Msg)
    requires f.kind.Sub? && SlotTyped(f, x)
    ensures Typed(f.kind.mt, m)
  {
    if f.presence.Repeated? || x == [] then Default(f.kind.mt)
    else assert ValTyped(f.kind, x[0]); x[0].msg
  }

  function ParseInto(mt: MsgType, m: Msg, s: Bytes): (o: Outcome)
    requires Typed(mt, m)
    ensures Typed(mt, o.msg)
    decreases |s|, 1
  {
    if s == [] then Outcome(Done, m)
    else match ReadVarint32(s)
      case Bad => Outcome(Stopped, m)
      case Good(tag, rest) =>
        match ReadTagged(mt, m, tag, rest)
        case Stop(_) => Outcome(Stopped, m)
        case Fail(m1) => Outcome(Failed, m1)
        case Next(m1, rest1) => ParseInto(mt, m1, rest1)
  }

  /** The switch on a tag that has been read. */
  function ReadTagged(mt: MsgType, m: Msg, tag: nat, s: Bytes): (st: Step)
    requires Typed(mt, m)
    ensures Typed(mt, st.msg)
    ensures st.Next? ==> |st.rest| <= |s|
    decreases |s|, 1
  {
    if tag == 0 then Stop(m)
    else if IsKnown(mt, tag) then ReadField(mt, m, tag / 8 - 1, s)
    else if tag % 8 == END_GROUP then Stop(m)
    else match Skip(tag, s)
      case Bad => Fail(m)
      case Good(p, rest) => Next(Keep(m, Unknown(tag, p)), rest)
  }

  function ReadField(mt: MsgType, m: Msg, i: nat, s: Bytes): (st: Step)
    requires Typed(mt, m) && i < |mt.fields|
    ensures Typed(mt, st.msg) && !st.Stop?
    ensures st.Next? ==> |st.rest| < |s|
    decreases |s|, 0
  {
    var f, x := mt.fields[i], m.fields[i];
    match f.kind
    case U32 =>
      (match ReadVarint32(s)
       case Bad => Fail(m)
       case Good(v, rest) => Next(Put(mt, m, i, [N(v)]), rest))
    case U64 =>
      (match ReadVarint64(s)
       case Bad => Fail(m)
       case Good(v, rest) => Next(Put(mt, m, i, [N(v)]), rest))
    case Enum(count) =>
      (match ReadVarint32(s)
       case Bad => Fail(m)
       case Good(v, rest) =>
         if v < count then Next(Put(mt, m, i, [N(v)]), rest)
         else Next(Keep(m, Unknown(8 * (i + 1), Num(SignExtend(v)))), rest))
    case Str =>
      // a failed read leaves behind the string that mutable_x or add_x made
      (match ReadBytes(s)
       case Bad => Fail(if f.presence.Repeated? || x == [] then Put(mt, m, i, Receive(f, x, B([]))) else m)
       case Good(b, rest) => Next(Put(mt, m, i, Receive(f, x, B(b))), rest))
    case Sub(t) =>
      (match ReadBytes(s)
       case Bad => Fail(Put(mt, m, i, Receive(f, x, M(Existing(f, x)))))
       case Good(b, rest) =>
         var o := ParseInto(t, Existing(f, x), b);
         var m1 := Put(mt, m, i, Receive(f, x, M(o.msg)));
         if o.status == Done then Next(m1, rest) else Fail(m1))
  }

  function Parse(mt: MsgType, s: Bytes): (o: Outcome)
    ensures Typed(mt, o.msg)
  {
    DefaultTyped(mt);
    ParseInto(mt, Default(mt), s)
  }

  // ---------------------------------------------------------------- parsing is merging

  /** Reading one field into `m` merges into `m` what reading it into an empty message gives. */
  lemma {:induction false} ReadFieldIsMerge(mt: MsgType, m: Msg, i: nat, s: Bytes)
    requires TypeOK(mt) && Typed(mt, m) && i < |mt.fields|
    ensures Typed(mt, Default(mt))
    ensures var a, d := ReadField(mt, m, i, s), ReadField(mt, Default(mt), i, s);
            a.Next? == d.Next? && (a.Next? ==> a.rest == d.rest && a.msg == Merge(mt, m, d.msg))
    decreases |s|, 0
  {
    MergeIdentity(mt, m);
    var f, x := mt.fields[i], m.fields[i];
    var a, d := ReadField(mt, m, i, s), ReadField(mt, Default(mt), i, s);
    assert SlotTyped(f, x) && FieldOK(f);
    if f.kind.Sub? && ReadBytes(s).Good? {
      var t, b := f.kind.mt, ReadBytes(s).value;
      ParseIsMerge(t, Existing(f, x), b);
      MergeIdentity(t, Default(t));
      if !f.presence.Repeated? && x != [] {
        assert ValTyped(f.kind, x[0]);
      }
    }
    if a.Next? {
      MergeAtField(mt, m, d.msg, i, a.msg);
    }
  }

  /** A message that holds only field i (or one unknown field) merges by changing only that. */
  lemma MergeAtField(mt: MsgType, m: Msg, d: Msg, i: nat, r: Msg)
    requires Typed(mt, m) && Typed(mt, d) && i < |mt.fields|
    requires forall k :: 0 <= k < |mt.fields| && k != i ==> d.fields[k] == []
    requires |r.fields| == |mt.fields|
    requires forall k :: 0 <= k < |mt.fields| && k != i ==> r.fields[k] == m.fields[k]
    requires r.fields[i] == MergeSlot(mt.fields[i], m.fields[i], d.fields[i])
    requires r.unknown == m.unknown + d.unknown
    ensures r == Merge(mt, m, d)
  {
    var z := Merge(mt, m, d);
    forall k | 0 <= k < |mt.fields| ensures r.fields[k] == z.fields[k] {
      assert SlotTyped(mt.fields[k], m.fields[k]);
      assert z.fields[k] == MergeSlot(mt.fields[k], m.fields[k], d.fields[k]);
      assert m.fields[k] + [] == m.fields[k];
    }
    assert r.fields == z.fields;
  }

  lemma {:induction false} ReadTaggedIsMerge(mt: MsgType, m: Msg, tag: nat, s: Bytes)
    requires TypeOK(mt) && Typed(mt, m)
    ensures Typed(mt, Default(mt))
    ensures var a, d := ReadTagged(mt, m, tag, s), ReadTagged(mt, Default(mt), tag, s);
            a.Next? == d.Next? && a.Stop? == d.Stop?
            && (a.Next? ==> a.rest == d.rest && a.msg == Merge(mt, m, d.msg))
    decreases |s|, 1
  {
    DefaultTyped(mt);
    if tag == 0 {
    } else if IsKnown(mt, tag) {
      ReadFieldIsMerge(mt, m, tag / 8 - 1, s);
    } else if tag % 8 != END_GROUP && Skip(tag, s).Good? {
      KeepIsMerge(mt, m, Unknown(tag, Skip(tag, s).value));
    }
  }

  /** For every byte string: parsing into `m` succeeds exactly when parsing into an empty message
      does, and then it is the same as merging the parsed message into `m`. */
  lemma {:induction false} ParseIsMerge(mt: MsgType, m: Msg, s: Bytes)
    requires TypeOK(mt) && Typed(mt, m)
    ensures ParseInto(mt, m, s).status == Parse(mt, s).status
    ensures Parse(mt, s).status == Done ==> ParseInto(mt, m, s).msg == Merge(mt, m, Parse(mt, s).msg)
    decreases |s|, 1
  {
    MergeIdentity(mt, m);
    if s != [] && ReadVarint32(s).Good? {
      var Good(tag, rest) := ReadVarint32(s);
      ReadTaggedIsMerge(mt, m, tag, rest);
      var a, d := ReadTagged(mt, m, tag, rest), ReadTagged(mt, Default(mt), tag, rest);
      if a.Next? {
        MergeTwice(mt, m, a.msg, d.msg, a.rest);
      }
    }
  }

  lemma KeepIsMerge(mt: MsgType, m: Msg, u: Unknown)
    requires Typed(mt, m)
    ensures Typed(mt, Keep(Default(mt), u)) && Keep(m, u) == Merge(mt, m, Keep(Default(mt), u))
  {
    MergeIdentity(mt, m);
    assert Merge(mt, m, Keep(Default(mt), u)).fields == Merge(mt, m, Default(mt)).fields;
  }

  /** The step both parses share, then the rest of the input. */
  lemma {:induction false} MergeTwice(mt: MsgType, m: Msg, a: Msg, d: Msg, s: Bytes)
    requires TypeOK(mt) && Typed(mt, m) && Typed(mt, d) && a == Merge(mt, m, d)
    ensures ParseInto(mt, a, s).status == ParseInto(mt, d, s).status
    ensures ParseInto(mt, d, s).status == Done
        ==> ParseInto(mt, a, s).msg == Merge(mt, m, ParseInto(mt, d, s).msg)
    decreases |s|, 2
  {
    ParseIsMerge(mt, a, s);
    ParseIsMerge(mt, d, s);
    if Parse(mt, s).status == Done {
      MergeAssociative(mt, m, d, Parse(mt, s).msg);
    }
  }

  // ---------------------------------------------------------------- concatenation

  lemma {:induction false} ReadFieldLocal(mt: MsgType, m: Msg, i: nat, s: Bytes, t: Bytes)
    requires Typed(mt, m) && i < |mt.fields|
    requires ReadField(mt, m, i, s).Next?
    ensures ReadField(mt, m, i, s + t) == Next(ReadField(mt, m, i, s).msg, ReadField(mt, m, i, s).rest + t)
  {
    match mt.fields[i].kind
    case Str => ReadBytesLocal(s, t);
    case Sub(_) => ReadBytesLocal(s, t);
    case _ => ReadRawLocal(s, MAX_VARINT, t);
  }

  lemma ReadTaggedLocal(mt: MsgType, m: Msg, tag: nat, s: Bytes, t: Bytes)
    requires Typed(mt, m) && ReadTagged(mt, m, tag, s).Next?
    ensures ReadTagged(mt, m, tag, s + t) == Next(ReadTagged(mt, m, tag, s).msg, ReadTagged(mt, m, tag, s).rest + t)
  {
    if IsKnown(mt, tag) {
      ReadFieldLocal(mt, m, tag / 8 - 1, s, t);
    } else {
      SkipLocal(tag, s, t);
    }
  }

  /** A parse that uses up its input leaves off where a parse of more input goes on. */
  lemma {:induction false} ParseContinues(mt: MsgType, m: Msg, s: Bytes, t: Bytes)
    requires Typed(mt, m) && ParseInto(mt, m, s).status == Done
    ensures ParseInto(mt, m, s + t) == ParseInto(mt, ParseInto(mt, m, s).msg, t)
    decreases |s|
  {
    if s == [] {
      assert s + t == t;
    } else {
      var Good(tag, rest) := ReadVarint32(s);
      var Next(m1, rest1) := ReadTagged(mt, m, tag, rest);
      ReadVarint32Local(s, t);
      ReadTaggedLocal(mt, m, tag, rest, t);
      ParseContinues(mt, m1, rest1, t);
    }
  }

  /** Concatenating two accepted encodings parses to the merge of what each parses to. */
  lemma ConcatenationIsMerge(mt: MsgType, s: Bytes, t: Bytes)
    requires TypeOK(mt)
    requires Parse(mt, s).status == Done && Parse(mt, t).status == Done
    ensures Parse(mt, s + t) == Outcome(Done, Merge(mt, Parse(mt, s).msg, Parse(mt, t).msg))
  {
    DefaultTyped(mt);
    ParseContinues(mt, Default(mt), s, t);
    ParseIsMerge(mt, Parse(mt, s).msg, t);
  }
}
