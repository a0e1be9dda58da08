/**
 What an encoding looks like as text: the digits and signs of its numbers, the letters around its
 parts, and the order of its keys, each said of the bytes themselves.
 */
module BencodeText {
  import opened Bytes
  import opened Division
  import opened Decimal
  import opened BencodeEntries

  // ---------------------------------------------------------------- numbers

  /** The digit of 10^k in a number. */
  function DigitOf(n: nat, k: nat): (d: nat)
    ensures d < 10
  {
    n / Pow10(k) % 10
  }

  /** Digit k from the right is the one of 10^k, as an ASCII character. */
  predicate HasDigits(d: Bytes, n: nat) {
    forall k :: 0 <= k < |d| ==> d[|d| - 1 - k] == 48 + DigitOf(n, k)
  }

  /** The digits are those of the number, and the first one is no zero unless it is the only one. */
  lemma {:induction false} DigitsByPosition(n: nat)
    ensures HasDigits(Digits(n), n)
    ensures n < Pow10(|Digits(n)|) && (|Digits(n)| > 1 ==> Pow10(|Digits(n)| - 1) <= n)
  {
    PowerStep(0);
    if n < 10 {
      LastDigit(n);
    } else {
      DigitsByPosition(n / 10);
      var f := Digits(n / 10);
      assert Digits(n) == f + [48 + n % 10];
      hide Digits, Pow10;
      PowerStep(|f|);
      PowerStep(|f| - 1);
      MoreDigits(n, f);
    }
  }

  lemma PowerStep(k: nat)
    ensures Pow10(k + 1) == 10 * Pow10(k) && Pow10(0) == 1
  {
  }

  lemma MoreDigits(n: nat, f: Bytes)
    requires f != [] && HasDigits(f, n / 10)
    ensures HasDigits(f + [48 + n % 10], n)
  {
    hide DigitOf;
    var d := f + [48 + n % 10];
    LastDigit(n);
    forall k | 0 <= k < |d| ensures d[|d| - 1 - k] == 48 + DigitOf(n, k) {
      if k > 0 {
        FurtherDigit(n, k);
        assert d[|d| - 1 - k] == f[|f| - 1 - (k - 1)];
      }
    }
  }

  lemma LastDigit(n: nat)
    ensures DigitOf(n, 0) == n % 10
  {
    assert n / 1 == n;
  }

  lemma FurtherDigit(n: nat, k: nat)
    requires k > 0
    ensures DigitOf(n, k) == DigitOf(n / 10, k - 1)
  {
    PowerStep(k - 1);
    DividedTwice(n, 10, Pow10(k - 1));
  }

  /** The first of the digits counts for the power of ten of the others' number. */
  lemma {:induction false} ValueByPosition(b: Byte, s: Bytes)
    requires 48 <= b < 58 && AllDigits(s)
    ensures AllDigits([b] + s) && DigitsValue([b] + s) == (b - 48) * Pow10(|s|) + DigitsValue(s)
    ensures DigitsValue([]) == 0
    decreases |s|
  {
    if s == [] {
      assert [b][..0] == [];
    } else {
      var front, last := s[..|s| - 1], s[|s| - 1];
      ValueByPosition(b, front);
      assert ([b] + s)[..|s|] == [b] + front;
      assert Pow10(|s|) == 10 * Pow10(|front|);
      var c, p := b - 48, Pow10(|front|);
      assert 10 * (c * p) == c * (10 * p);
    }
  }

  /** An optional sign, plus or minus, and at least one digit. */
  ghost predicate Spells(s: Bytes, negative: bool, digits: Bytes) {
    && digits != [] && (forall i :: 0 <= i < |digits| ==> 48 <= digits[i] <= 57)
    && (s == [45] + digits || (!negative && (s == digits || s == [43] + digits)))
    && (negative <==> s == [45] + digits)
  }

  function Signed(negative: bool, n: nat): int {
    if negative then 0 - n else n
  }

  /** lexical_cast takes exactly the signed digit texts whose value an int64 holds, to that value. */
  lemma ScanIff(s: Bytes, v: Int64)
    ensures Scan(s) == Some(v) <==>
      exists negative, d :: Spells(s, negative, d) && AllDigits(d) && v == Signed(negative, DigitsValue(d))
  {
    if Scan(s) == Some(v) {
      Scanned(s);
    }
    if negative, d :| Spells(s, negative, d) && AllDigits(d) && v == Signed(negative, DigitsValue(d)) {
      SpelledScans(s, negative, d);
    }
  }

  lemma Scanned(s: Bytes)
    requires Scan(s).Some?
    ensures var negative, d := s[0] == 45, if s[0] == 45 || s[0] == 43 then s[1..] else s;
      && Spells(s, negative, d) && AllDigits(d)
      && Scan(s).value == Signed(negative, DigitsValue(d))
  {
    assert s == [s[0]] + s[1..];
  }

  lemma SpelledScans(s: Bytes, negative: bool, d: Bytes)
    requires Spells(s, negative, d)
    ensures AllDigits(d)
    ensures var v := Signed(negative, DigitsValue(d));
      Scan(s) == if MIN_INT64 <= v < LIMIT_INT64 then Some(v) else None
  {
    assert IsDigit(d[0]);
    assert s != d ==> s[1..] == d;
  }

  /** What is printed is taken back exactly when an int64 holds it. */
  lemma PrintedScansIff(v: int)
    ensures Scan(Print(v)).Some? <==> -0x8000_0000_0000_0000 <= v < 0x8000_0000_0000_0000
  {
    DigitsRoundTrip(Abs(v));
    var d := Digits(Abs(v));
    assert IsDigit(d[0]);
    if v < 0 {
      assert Print(v)[1..] == d;
    }
  }

  /** A negative number has a minus sign before its digits, any other number has its digits. */
  lemma PrintedSign(v: int)
    ensures Print(v) == if v < 0 then [45] + Digits(-v) else Digits(v)
  {
  }

  // ---------------------------------------------------------------- letters

  /** i...e, length:bytes, l...e and d...e. */
  lemma EncodedLetters(v: Int64, s: Text, es: seq<Entry>, xs: seq<Item>)
    ensures Encode(Int(v)) == [105] + Print(v) + [101]
    ensures Encode(Str(s)) == Print(|s|) + [58] + s
    ensures Encode(List(es)) == [108] + EncodeList(es) + [101]
    ensures Encode(Dict(xs)) == [100] + EncodeItems(xs) + [101]
  {
  }

  // ---------------------------------------------------------------- keys

  /** The strings agree before place i, where a ends first or has the smaller byte. */
  predicate FirstDifference(a: Bytes, b: Bytes, i: nat) {
    && i <= |a| && i < |b| && a[..i] == b[..i]
    && (i == |a| || a[i] < b[i])
  }

  ghost predicate Before(a: Bytes, b: Bytes) {
    exists i: nat :: FirstDifference(a, b, i)
  }

  /** Keys are compared as unsigned bytes at the first place where they differ. */
  lemma {:induction false} LessIff(a: Bytes, b: Bytes)
    ensures Less(a, b) <==> Before(a, b)
    decreases |a|
  {
    forall i: nat | FirstDifference(a, b, i) && i > 0 ensures a != [] && b != [] && a[0] == b[0] {
      SameHeads(a, b, i);
    }
    if b != [] {
      if a == [] || a[0] != b[0] {
        assert FirstDifference(a, b, 0) <==> Less(a, b);
      } else {
        LessIff(a[1..], b[1..]);
        if i: nat :| FirstDifference(a[1..], b[1..], i) {
          DifferenceBehind(a, b, i);
        }
        if i: nat :| FirstDifference(a, b, i) {
          assert a[1..][..i - 1] == a[..i][1..] && b[1..][..i - 1] == b[..i][1..];
          assert FirstDifference(a[1..], b[1..], i - 1);
        }
      }
    }
  }

  lemma SameHeads(a: Bytes, b: Bytes, i: nat)
    requires FirstDifference(a, b, i) && i > 0
    ensures a != [] && b != [] && a[0] == b[0]
  {
    assert a[..i][0] == a[0] && b[..i][0] == b[0];
  }

  lemma DifferenceBehind(a: Bytes, b: Bytes, i: nat)
    requires a != [] && b != [] && a[0] == b[0] && FirstDifference(a[1..], b[1..], i)
    ensures FirstDifference(a, b, i + 1)
  {
    assert a[..i + 1] == [a[0]] + a[1..][..i] && b[..i + 1] == [b[0]] + b[1..][..i];
  }

  /** So the keys of a sorted dictionary ascend in that order. */
  lemma SortedIff(xs: seq<Item>)
    ensures Sorted(xs) <==> forall i, j :: 0 <= i < j < |xs| ==> Before(xs[i].key, xs[j].key)
  {
    forall i, j | 0 <= i < j < |xs|
      ensures Less(xs[i].key, xs[j].key) <==> Before(xs[i].key, xs[j].key)
    {
      LessIff(xs[i].key, xs[j].key);
    }
  }

  lemma TwoInserted(x: Item, y: Item)
    ensures InsertAll([], [x, y]) == Insert([x], y)
    ensures Less(x.key, y.key) ==> Insert([x], y) == [x, y]
    ensures Less(y.key, x.key) ==> Insert([x], y) == [y, x]
  {
    LessTrichotomy(x.key, y.key);
    assert [x, y][1..] == [y] && [y][1..] == [] && [x][1..] == [];
    assert Insert([], x) == [x] && Insert([], y) == [y];
    hide Insert;
    assert InsertAll([], [x, y]) == InsertAll([x], [y]) == InsertAll(Insert([x], y), []);
    assert Less(x.key, y.key) ==> [x] + [y] == [x, y];
    assert Less(y.key, x.key) ==> [y] + [x] == [y, x];
  }

  lemma EncodedPair(x: Item, y: Item)
    ensures EncodeItems([x, y]) == EncodeStr(x.key) + Encode(x.value) + EncodeStr(y.key) + Encode(y.value)
  {
    assert [x, y][1..] == [y] && [y][1..] == [];
    assert EncodeItems([y]) == EncodeStr(y.key) + Encode(y.value) + [];
  }

  /** Whichever of two keys is inserted first, the smaller one is written first. */
  lemma SmallerKeyFirst(x: Item, y: Item, i: nat)
    requires FirstDifference(x.key, y.key, i)
    ensures InsertAll([], [x, y]) == [x, y] == InsertAll([], [y, x])
    ensures Encode(Dict(InsertAll([], [y, x])))
         == [100] + EncodeStr(x.key) + Encode(x.value) + EncodeStr(y.key) + Encode(y.value) + [101]
  {
    hide Less, InsertAll, Insert, Encode, EncodeItems, EncodeStr;
    assert Before(x.key, y.key);
    LessIff(x.key, y.key);
    EncodedLetters(0, [], [], [x, y]);
    TwoInserted(x, y);
    TwoInserted(y, x);
    EncodedPair(x, y);
  }

  /** No item of xs before i has this key. */
  ghost predicate FirstWithKey(xs: seq<Item>, i: nat, y: Item) {
    i < |xs| && xs[i] == y && forall j :: 0 <= j < i ==> xs[j].key != y.key
  }

  ghost predicate HasKey(items: seq<Item>, key: Text) {
    exists z :: z in items && z.key == key
  }

  /** Of the items that come in under one key exactly the first is kept, unless the key was there. */
  lemma {:induction false} FirstKeyWins(items: seq<Item>, xs: seq<Item>, y: Item)
    requires Sorted(items)
    ensures y in InsertAll(items, xs) <==> y in items || (!HasKey(items, y.key) && exists i: nat :: FirstWithKey(xs, i, y))
    decreases |xs|
  {
    if xs != [] {
      var x, rest := xs[0], xs[1..];
      InsertIsMapInsert(items, x);
      FirstKeyWins(Insert(items, x), rest, y);
      KeysAfterInsert(items, x, y.key);
      if i: nat :| FirstWithKey(rest, i, y) {
        if x.key != y.key {
          assert FirstWithKey(xs, i + 1, y) by {
            forall j | 0 <= j < i + 1 ensures xs[j].key != y.key {
              if j > 0 { assert xs[j] == rest[j - 1]; }
            }
          }
        }
      }
      if i: nat :| FirstWithKey(xs, i, y) {
        if i > 0 {
          assert FirstWithKey(rest, i - 1, y) by {
            forall j | 0 <= j < i - 1 ensures rest[j].key != y.key {
              assert rest[j] == xs[j + 1];
            }
          }
        }
      }
      if x == y { assert FirstWithKey(xs, 0, y); }
    }
  }

  lemma KeysAfterInsert(items: seq<Item>, x: Item, key: Text)
    requires Sorted(items)
    ensures HasKey(Insert(items, x), key) <==> HasKey(items, key) || x.key == key
  {
    InsertIsMapInsert(items, x);
    if x.key == key && !HasKey(items, key) {
      assert x in Insert(items, x);
    }
  }
}
