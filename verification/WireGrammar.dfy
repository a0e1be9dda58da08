/**
 The wire format as derivations: which bytes are a varint, which are the value of a field nobody
 knows, and what they say. The readers are proved to find exactly what can be derived. The grammar
 names wire types and byte values by the numbers the "Encoding" document gives them.
 */
module WireGrammar {
  import opened Bytes
  import opened Division
  import opened Wire

  // ---------------------------------------------------------------- varints

  /** At most ten bytes, of which all but the last have the top bit. */
  predicate IsVarint(x: Bytes) {
    IsVarintWithin(x, 10)
  }

  predicate IsVarintWithin(x: Bytes, k: nat) {
    0 < |x| <= k && x[|x| - 1] < 128 && forall i :: 0 <= i < |x| - 1 ==> x[i] >= 128
  }

  /** Seven bits of each byte, the lowest first. */
  function Number(x: Bytes): nat {
    if x == [] then 0 else x[0] % 128 + 128 * Number(x[1..])
  }

  lemma {:induction false} ReadRawOf(x: Bytes, k: nat, r: Bytes)
    requires IsVarintWithin(x, k)
    ensures ReadRaw(x + r, k) == Good(Number(x), r)
    decreases k
  {
    assert (x + r)[0] == x[0] && (x + r)[1..] == x[1..] + r;
    if |x| > 1 {
      ReadRawOf(x[1..], k - 1, r);
    } else {
      assert x[1..] == [];
    }
  }

  lemma {:induction false} ReadRawFinds(s: Bytes, k: nat) returns (x: Bytes)
    requires ReadRaw(s, k).Good?
    ensures IsVarintWithin(x, k) && s == x + ReadRaw(s, k).rest && Number(x) == ReadRaw(s, k).value
    decreases k
  {
    if s[0] < 128 {
      x := [s[0]];
      assert x[1..] == [];
    } else {
      var y := ReadRawFinds(s[1..], k - 1);
      x := [s[0]] + y;
      assert x[1..] == y;
    }
  }

  /** What the readers take, minimal or not, and the number cut to their width. */
  lemma ReadVarintIff(s: Bytes, v: nat, r: Bytes)
    ensures ReadVarint64(s) == Good(v, r)
       <==> exists x :: IsVarint(x) && s == x + r && v == Number(x) % 0x1_0000_0000_0000_0000
    ensures ReadVarint32(s) == Good(v, r)
       <==> exists x :: IsVarint(x) && s == x + r && v == Number(x) % 0x1_0000_0000
  {
    if ReadRaw(s, MAX_VARINT).Good? {
      var x := ReadRawFinds(s, MAX_VARINT);
    }
    forall x | IsVarint(x) && s == x + r ensures ReadRaw(s, MAX_VARINT) == Good(Number(x), r) {
      ReadRawOf(x, MAX_VARINT, r);
    }
  }

  /** Digit i of a number in base 128. */
  function Digit(n: nat, i: nat): (d: nat)
    ensures d < 128
  {
    n / Pow128(i) % 128
  }

  /** The digits of the number; all bytes but the last have the top bit too. */
  predicate HasDigits(x: Bytes, n: nat) {
    forall i :: 0 <= i < |x| ==> x[i] == Digit(n, i) + (if i < |x| - 1 then 128 else 0)
  }

  /** A written varint has the digits of the number in base 128, the lowest first, and no more than it
      needs. */
  lemma {:induction false} VarintDigits(n: nat)
    ensures HasDigits(Varint(n), n) && n < Pow128(|Varint(n)|) && (|Varint(n)| > 1 ==> Pow128(|Varint(n)| - 1) <= n)
  {
    if n < 128 {
      LowestDigit(n);
      PowerStep(0);
    } else {
      VarintDigits(n / 128);
      var x := Varint(n / 128);
      PowerStep(|x|);
      PowerStep(|x| - 1);
      MoreDigits(n, x);
    }
  }

  lemma MoreDigits(n: nat, x: Bytes)
    requires x != [] && HasDigits(x, n / 128)
    ensures HasDigits([n % 128 + 128] + x, n)
  {
    hide Digit;
    LowestDigit(n);
    forall i | 0 < i <= |x| ensures Digit(n, i) == Digit(n / 128, i - 1) {
      FurtherDigit(n, i);
    }
  }

  lemma LowestDigit(n: nat)
    ensures Digit(n, 0) == n % 128
  {
    assert n / 1 == n;
  }

  lemma FurtherDigit(n: nat, i: nat)
    requires i > 0
    ensures Digit(n, i) == Digit(n / 128, i - 1)
  {
    PowerStep(i - 1);
    DividedTwice(n, 128, Pow128(i - 1));
  }

  lemma PowerStep(k: nat)
    ensures Pow128(k + 1) == 128 * Pow128(k) && Pow128(0) == 1
  {
  }

  // ---------------------------------------------------------------- the values of fields

  /** The bytes of a value by wire type; a submessage is spelled by its fields. */
  datatype Spelling =
    | SNum(number: Bytes)
    | SFixed(raw: Bytes)
    | SLen(length: Bytes, body: Bytes)
    | SMessage(length: Bytes, fields: seq<SField>)
    | SGroup(fields: seq<SField>, end: Bytes)

  datatype SField = SField(tag: Bytes, value: Spelling)

  /** A tag is read as a 32-bit number. */
  function TagOf(f: SField): nat {
    Number(f.tag) % 0x1_0000_0000
  }

  function Flatten(w: Spelling): Bytes
    decreases w, 1
  {
    match w
    case SNum(x) => x
    case SFixed(raw) => raw
    case SLen(x, b) => x + b
    case SMessage(x, fs) => x + FlattenAll(fs)
    case SGroup(fs, x) => FlattenAll(fs) + x
  }

  function FlattenField(f: SField): Bytes
    decreases f, 2
  {
    f.tag + Flatten(f.value)
  }

  function FlattenAll(fs: seq<SField>): Bytes
    decreases fs, 0
  {
    if fs == [] then [] else FlattenField(fs[0]) + FlattenAll(fs[1..])
  }

  /** A length is non-negative as an int, and that of what follows. */
  predicate Counts(x: Bytes, n: nat) {
    IsVarint(x) && Number(x) % 0x1_0000_0000 == n && n < 0x8000_0000
  }

  /** The value of an unknown field after its tag: wire type 0 is a varint, 1 eight bytes, 2 a length
      and that many bytes, 5 four bytes, and 3 a group up to its own end tag, whose wire type is 4. */
  ghost predicate Uninterpreted(tag: nat, w: Spelling)
    decreases w, 0
  {
    match w
    case SNum(x) => tag % 8 == 0 && IsVarint(x)
    case SFixed(raw) => (tag % 8 == 1 && |raw| == 8) || (tag % 8 == 5 && |raw| == 4)
    case SLen(x, b) => tag % 8 == 2 && Counts(x, |b|)
    case SMessage(_, _) => false
    case SGroup(fs, x) =>
      && tag % 8 == 3 && IsVarint(x) && Number(x) % 0x1_0000_0000 == tag + 1
      && forall i :: 0 <= i < |fs| ==> UninterpretedField(fs[i])
  }

  ghost predicate UninterpretedField(f: SField)
    decreases f, 1
  {
    IsVarint(f.tag) && TagOf(f) != 0 && TagOf(f) % 8 != 4 && Uninterpreted(TagOf(f), f.value)
  }

  ghost predicate AllUninterpreted(fs: seq<SField>) {
    forall i :: 0 <= i < |fs| ==> UninterpretedField(fs[i])
  }

  /** What it says. */
  function Meaning(w: Spelling): Payload
    decreases w, 1
  {
    match w
    case SNum(x) => Num(Number(x) % 0x1_0000_0000_0000_0000)
    case SFixed(raw) => Fixed(raw)
    case SLen(_, b) => Len(b)
    case SMessage(_, fs) => Len(FlattenAll(fs))
    case SGroup(fs, _) => Group(Meanings(fs))
  }

  function Meanings(fs: seq<SField>): seq<Unknown>
    decreases fs, 0
  {
    if fs == [] then [] else [Unknown(TagOf(fs[0]), Meaning(fs[0].value))] + Meanings(fs[1..])
  }

  // ---------------------------------------------------------------- what is derived is read

  lemma ReadTagOf(x: Bytes, r: Bytes)
    requires IsVarint(x)
    ensures ReadVarint32(x + r) == Good(Number(x) % TWO_32, r)
    ensures ReadVarint64(x + r) == Good(Number(x) % TWO_64, r)
  {
    ReadRawOf(x, MAX_VARINT, r);
  }

  lemma ReadCounted(x: Bytes, b: Bytes, r: Bytes)
    requires Counts(x, |b|)
    ensures ReadBytes(x + b + r) == Good(b, r)
  {
    ReadTagOf(x, b + r);
    assert x + b + r == x + (b + r);
    assert (b + r)[..|b|] == b && (b + r)[|b|..] == r;
  }

  lemma {:induction false} SkipComplete(tag: nat, w: Spelling, r: Bytes)
    requires Uninterpreted(tag, w)
    ensures Skip(tag, Flatten(w) + r) == Good(Meaning(w), r)
    decreases w, 1
  {
    match w
    case SNum(x) => ReadTagOf(x, r);
    case SFixed(raw) => assert (raw + r)[..|raw|] == raw && (raw + r)[|raw|..] == r;
    case SLen(x, b) => ReadCounted(x, b, r);
    case SGroup(fs, x) => SkipWhole(tag, fs, x, r);
  }

  lemma {:induction false} SkipWhole(tag: nat, fs: seq<SField>, x: Bytes, r: Bytes)
    requires tag % 8 == 3 && IsVarint(x) && Number(x) % 0x1_0000_0000 == tag + 1 && AllUninterpreted(fs)
    ensures Skip(tag, FlattenAll(fs) + x + r) == Good(Group(Meanings(fs)), r)
    decreases fs, 1
  {
    ReadTagOf(x, r);
    SkipGroupEnd(tag + 1, x + r, r);
    SkipGroupComplete(tag + 1, fs, x + r, r);
    Regroup(FlattenAll(fs), x, r);
  }

  lemma {:induction false} SkipGroupComplete(endTag: nat, fs: seq<SField>, tail: Bytes, r: Bytes)
    requires AllUninterpreted(fs) && SkipGroup(endTag, tail) == Good([], r)
    ensures SkipGroup(endTag, FlattenAll(fs) + tail) == Good(Meanings(fs), r)
    decreases fs, 0
  {
    if fs == [] {
      assert FlattenAll(fs) + tail == tail;
    } else {
      var f, more := fs[0], FlattenAll(fs[1..]) + tail;
      assert UninterpretedField(f);
      FieldFirst(fs, tail);
      ReadTagOf(f.tag, Flatten(f.value) + more);
      SkipComplete(TagOf(f), f.value, more);
      SkipGroupComplete(endTag, fs[1..], tail, r);
      SkipGroupStep(endTag, f.tag + (Flatten(f.value) + more), TagOf(f), Flatten(f.value) + more);
    }
  }

  lemma FieldFirst(fs: seq<SField>, tail: Bytes)
    requires fs != []
    ensures FlattenAll(fs) + tail == fs[0].tag + (Flatten(fs[0].value) + (FlattenAll(fs[1..]) + tail))
  {
  }

  // ---------------------------------------------------------------- what is read is derived

  lemma ReadTagFinds(s: Bytes) returns (x: Bytes)
    requires ReadVarint32(s).Good?
    ensures IsVarint(x) && s == x + ReadVarint32(s).rest && Number(x) % 0x1_0000_0000 == ReadVarint32(s).value
    ensures ReadVarint64(s) == Good(Number(x) % 0x1_0000_0000_0000_0000, ReadVarint32(s).rest)
  {
    x := ReadRawFinds(s, MAX_VARINT);
  }

  lemma ReadBytesFinds(s: Bytes) returns (x: Bytes)
    requires ReadBytes(s).Good?
    ensures Counts(x, |ReadBytes(s).value|) && s == x + ReadBytes(s).value + ReadBytes(s).rest
  {
    x := ReadTagFinds(s);
  }

  lemma {:induction false} SkipSound(tag: nat, s: Bytes) returns (w: Spelling)
    requires Skip(tag, s).Good?
    ensures Uninterpreted(tag, w) && s == Flatten(w) + Skip(tag, s).rest && Meaning(w) == Skip(tag, s).value
    decreases |s|, 1
  {
    if tag % 8 == VARINT {
      var x := ReadTagFinds(s);
      w := SNum(x);
    } else if tag % 8 == FIXED64 {
      w := SFixed(s[..8]);
    } else if tag % 8 == DELIMITED {
      var x := ReadBytesFinds(s);
      w := SLen(x, ReadBytes(s).value);
    } else if tag % 8 == START_GROUP {
      var fs, x := SkipGroupSound(tag + 1, s);
      w := SGroup(fs, x);
    } else {
      w := SFixed(s[..4]);
    }
  }

  lemma {:induction false} SkipGroupSound(endTag: nat, s: Bytes) returns (fs: seq<SField>, x: Bytes)
    requires SkipGroup(endTag, s).Good?
    ensures AllUninterpreted(fs) && IsVarint(x) && Number(x) % 0x1_0000_0000 == endTag
    ensures s == FlattenAll(fs) + x + SkipGroup(endTag, s).rest && Meanings(fs) == SkipGroup(endTag, s).value
    decreases |s|, 0
  {
    SkipGroupParts(endTag, s);
    hide SkipGroup, Skip, Uninterpreted, Flatten, Meaning, ReadVarint32, ReadVarint64, IsVarint, Number;
    var t := ReadTagFinds(s);
    var tag, rest := ReadVarint32(s).value, ReadVarint32(s).rest;
    if tag % 8 == END_GROUP {
      fs, x := [], t;
      assert FlattenAll([]) + x == x;
    } else {
      var w := SkipSound(tag, rest);
      var more;
      more, x := SkipGroupSound(endTag, Skip(tag, rest).rest);
      fs := [SField(t, w)] + more;
      FieldAdded(t, w, more, x, SkipGroup(endTag, s).rest);
    }
  }

  lemma SkipGroupParts(endTag: nat, s: Bytes)
    requires SkipGroup(endTag, s).Good?
    ensures ReadVarint32(s).Good? && ReadVarint32(s).value != 0
    ensures var Good(tag, rest) := ReadVarint32(s);
      if tag % 8 == END_GROUP then tag == endTag && SkipGroup(endTag, s) == Good([], rest)
      else
        && Skip(tag, rest).Good? && SkipGroup(endTag, Skip(tag, rest).rest).Good?
        && SkipGroup(endTag, s).rest == SkipGroup(endTag, Skip(tag, rest).rest).rest
        && SkipGroup(endTag, s).value
           == [Unknown(tag, Skip(tag, rest).value)] + SkipGroup(endTag, Skip(tag, rest).rest).value
  {
  }

  lemma FieldAdded(t: Bytes, w: Spelling, more: seq<SField>, x: Bytes, r: Bytes)
    requires AllUninterpreted(more) && UninterpretedField(SField(t, w))
    ensures AllUninterpreted([SField(t, w)] + more)
    ensures FlattenAll([SField(t, w)] + more) + x + r == t + (Flatten(w) + (FlattenAll(more) + x + r))
    ensures Meanings([SField(t, w)] + more) == [Unknown(TagOf(SField(t, w)), Meaning(w))] + Meanings(more)
  {
    var fs := [SField(t, w)] + more;
    assert fs[1..] == more;
    FieldFirst(fs, x + r);
  }

  /** An unknown field's value is read exactly when a prefix of the input spells one, with the meaning of
      that spelling; nested groups are closed by their own end tags. */
  lemma SkipIsGrammar(tag: nat, s: Bytes, p: Payload, r: Bytes)
    ensures Skip(tag, s) == Good(p, r) <==> exists w :: Uninterpreted(tag, w) && s == Flatten(w) + r && p == Meaning(w)
  {
    if Skip(tag, s) == Good(p, r) {
      var w := SkipSound(tag, s);
    }
    forall w | Uninterpreted(tag, w) && s == Flatten(w) + r ensures Skip(tag, s) == Good(Meaning(w), r) {
      SkipComplete(tag, w, r);
    }
  }
}
