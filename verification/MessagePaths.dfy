/**
 Messages seen through paths into them: what it takes for a message to be initialized, and which of
 two merged messages a value comes from, at whatever depth.
 */
module MessagePaths {
  import opened Bytes
  import opened Messages
  import opened MessageParse
  import opened WireGrammar
  import opened MessageGrammar

  // ---------------------------------------------------------------- every submessage

  /** A field and one of its values, counted from 0. */
  datatype Place = Place(field: nat, element: nat)

  /** The submessage at a path, and its type. */
  datatype Found = Missing | At(mt: MsgType, msg: Msg)

  function Follow(mt: MsgType, m: Msg, path: seq<Place>): Found
    decreases |path|
  {
    if path == [] then At(mt, m)
    else
      var i, k := path[0].field, path[0].element;
      if i < |mt.fields| && mt.fields[i].kind.Sub? && i < |m.fields| && k < |m.fields[i]| && m.fields[i][k].M?
      then Follow(mt.fields[i].kind.mt, m.fields[i][k].msg, path[1..])
      else Missing
  }

  /** Every required field of this message itself has a value. */
  predicate Filled(mt: MsgType, m: Msg) {
    forall i :: 0 <= i < |mt.fields| && mt.fields[i].presence.Required? ==> i < |m.fields| && |m.fields[i]| >= 1
  }

  ghost predicate FilledEverywhere(mt: MsgType, m: Msg) {
    forall path :: var f := Follow(mt, m, path); f.At? ==> Filled(f.mt, f.msg)
  }

  lemma FilledAtPath(mt: MsgType, m: Msg, path: seq<Place>)
    requires FilledEverywhere(mt, m) && Follow(mt, m, path).At?
    ensures Filled(Follow(mt, m, path).mt, Follow(mt, m, path).msg)
  {
  }

  lemma {:induction false} InitializedAtPath(mt: MsgType, m: Msg, path: seq<Place>)
    requires Typed(mt, m) && Initialized(mt, m) && Follow(mt, m, path).At?
    ensures Filled(Follow(mt, m, path).mt, Follow(mt, m, path).msg)
    decreases |path|
  {
    if path == [] {
      forall i | 0 <= i < |mt.fields| && mt.fields[i].presence.Required? ensures |m.fields[i]| >= 1 {
        assert SlotTyped(mt.fields[i], m.fields[i]) && SlotInitialized(mt.fields[i], m.fields[i]);
      }
    } else {
      var i, k := path[0].field, path[0].element;
      assert SlotTyped(mt.fields[i], m.fields[i]) && SlotInitialized(mt.fields[i], m.fields[i]);
      assert ValTyped(mt.fields[i].kind, m.fields[i][k]);
      InitializedAtPath(mt.fields[i].kind.mt, m.fields[i][k].msg, path[1..]);
    }
  }

  lemma {:induction false} InitializedIfFilled(mt: MsgType, m: Msg)
    requires Typed(mt, m) && FilledEverywhere(mt, m)
    ensures Initialized(mt, m)
    decreases mt
  {
    FilledAtPath(mt, m, []);
    forall i | 0 <= i < |mt.fields|
      ensures SlotTyped(mt.fields[i], m.fields[i]) && SlotInitialized(mt.fields[i], m.fields[i])
    {
      var f, x := mt.fields[i], m.fields[i];
      assert SlotTyped(f, x);
      if f.kind.Sub? {
        forall k | 0 <= k < |x| ensures ValTyped(f.kind, x[k]) && Initialized(f.kind.mt, x[k].msg) {
          assert ValTyped(f.kind, x[k]);
          FilledBelow(mt, m, i, k);
          InitializedIfFilled(f.kind.mt, x[k].msg);
        }
      }
    }
  }

  lemma FilledBelow(mt: MsgType, m: Msg, i: nat, k: nat)
    requires Typed(mt, m) && FilledEverywhere(mt, m) && i < |mt.fields| && mt.fields[i].kind.Sub?
    requires k < |m.fields[i]| && m.fields[i][k].M?
    ensures FilledEverywhere(mt.fields[i].kind.mt, m.fields[i][k].msg)
  {
    var t, sub := mt.fields[i].kind.mt, m.fields[i][k].msg;
    forall path | Follow(t, sub, path).At? ensures Filled(Follow(t, sub, path).mt, Follow(t, sub, path).msg) {
      var longer := [Place(i, k)] + path;
      assert longer[1..] == path;
      FilledAtPath(mt, m, longer);
    }
  }

  /** IsInitialized asks every message there is a path to, elements of repeated fields included, for its
      required fields. */
  lemma InitializedIff(mt: MsgType, m: Msg)
    requires Typed(mt, m)
    ensures Initialized(mt, m) <==> FilledEverywhere(mt, m)
  {
    if Initialized(mt, m) {
      forall path | Follow(mt, m, path).At? ensures Filled(Follow(mt, m, path).mt, Follow(mt, m, path).msg) {
        InitializedAtPath(mt, m, path);
      }
    }
    if FilledEverywhere(mt, m) {
      InitializedIfFilled(mt, m);
    }
  }

  // ---------------------------------------------------------------- merged values

  /** The field at the end of a path of field positions, through singular submessages. */
  function FieldAt(mt: MsgType, path: seq<nat>): Option<Field>
    decreases |path|
  {
    if path == [] || path[0] >= |mt.fields| then None
    else
      var f := mt.fields[path[0]];
      if |path| == 1 then Some(f)
      else if f.kind.Sub? && !f.presence.Repeated? then FieldAt(f.kind.mt, path[1..])
      else None
  }

  /** What a message holds there: nothing when a submessage on the way is absent. */
  function ValuesAt(m: Msg, path: seq<nat>): seq<Val>
    decreases |path|
  {
    if path == [] || path[0] >= |m.fields| then []
    else if |path| == 1 then m.fields[path[0]]
    else if m.fields[path[0]] != [] && m.fields[path[0]][0].M? then ValuesAt(m.fields[path[0]][0].msg, path[1..])
    else []
  }

  /** Last one wins: a number or string of the merge is that of the second message if it has one, else that
      of the first; a repeated field has the elements of the first and then those of the second; a
      submessage is present if it is in either. */
  lemma {:induction false} LastOneWins(mt: MsgType, a: Msg, b: Msg, path: seq<nat>)
    requires Typed(mt, a) && Typed(mt, b) && FieldAt(mt, path).Some?
    ensures var f, x, y, z := FieldAt(mt, path).value, ValuesAt(a, path), ValuesAt(b, path), ValuesAt(Merge(mt, a, b), path);
      if f.presence.Repeated? then z == x + y
      else if f.kind.Sub? then z == [] <==> x == [] && y == []
      else z == if y == [] then x else y
    decreases |path|
  {
    var i := path[0];
    var f, m := mt.fields[i], Merge(mt, a, b);
    assert SlotTyped(f, a.fields[i]) && SlotTyped(f, b.fields[i]) && SlotTyped(f, m.fields[i]);
    assert m.fields[i] == MergeSlot(f, a.fields[i], b.fields[i]);
    if |path| > 1 {
      assert a.fields[i] != [] ==> ValTyped(f.kind, a.fields[i][0]);
      assert b.fields[i] != [] ==> ValTyped(f.kind, b.fields[i][0]);
      if a.fields[i] != [] && b.fields[i] != [] {
        LastOneWins(f.kind.mt, a.fields[i][0].msg, b.fields[i][0].msg, path[1..]);
      }
    }
  }

  // ---------------------------------------------------------------- accepted bytes

  /** The bytes can be spelled as fields that together say m, and m has everything it needs. */
  ghost predicate Accepted(mt: MsgType, s: Bytes, m: Msg) {
    && (exists fs :: AllFit(mt, fs) && s == FlattenAll(fs) && m == AllSaid(mt, fs))
    && FilledEverywhere(mt, m)
  }

  lemma AcceptedIff(mt: MsgType, s: Bytes, m: Msg)
    requires TypeOK(mt)
    ensures Parse(mt, s).status == Done && Parse(mt, s).msg == m && Initialized(mt, Parse(mt, s).msg) <==> Accepted(mt, s, m)
  {
    ParseIsGrammar(mt, s, m);
    InitializedIff(mt, Parse(mt, s).msg);
  }
}
