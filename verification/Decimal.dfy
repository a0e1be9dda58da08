/** Decimal numbers: what lexical_cast writes and reads, and the buffer printer of the entry class. */
module Decimal {
  import opened Bytes
  import opened Division

  const MIN_INT64: int := -0x8000_0000_0000_0000
  const LIMIT_INT64: int := 0x8000_0000_0000_0000
  type Int64 = v: int | MIN_INT64 <= v < LIMIT_INT64

  const ZERO: Byte := 48
  const MINUS: Byte := 45
  const PLUS: Byte := 43

  function Abs(v: int): nat {
    if v < 0 then -v else v
  }

  predicate IsDigit(b: Byte) {
    ZERO <= b < ZERO + 10
  }

  predicate AllDigits(s: Bytes) {
    forall i :: 0 <= i < |s| ==> IsDigit(s[i])
  }

  /** The digits of n without leading zeros. */
  function Digits(n: nat): (s: Bytes)
    ensures s != [] && AllDigits(s)
  {
    if n < 10 then [ZERO + n] else Digits(n / 10) + [ZERO + n % 10]
  }

  function DigitsValue(s: Bytes): nat
    requires AllDigits(s)
  {
    if s == [] then 0 else 10 * DigitsValue(s[..|s| - 1]) + (s[|s| - 1] - ZERO)
  }

  /** lexical_cast<std::string>(v). */
  function Print(v: int): (s: Bytes)
    ensures s != []
  {
    if v < 0 then [MINUS] + Digits(Abs(v)) else Digits(v)
  }

  /** lexical_cast<int64>(s): one optional sign, at least one digit, nothing else, no overflow. */
  function Scan(s: Bytes): Option<Int64> {
    var signed := s != [] && (s[0] == MINUS || s[0] == PLUS);
    var body := if signed then s[1..] else s;
    if body == [] || !AllDigits(body) then None
    else
      var v: int := if signed && s[0] == MINUS then 0 - DigitsValue(body) else DigitsValue(body);
      if MIN_INT64 <= v < LIMIT_INT64 then Some(v) else None
  }

  lemma {:induction false} DigitsRoundTrip(n: nat)
    ensures DigitsValue(Digits(n)) == n
  {
    if n >= 10 {
      DigitsRoundTrip(n / 10);
      assert Digits(n)[..|Digits(n)| - 1] == Digits(n / 10);
    }
  }

  lemma ScanOfPrint(v: Int64)
    ensures Scan(Print(v)) == Some(v)
  {
    DigitsRoundTrip(Abs(v));
    if v < 0 {
      assert Print(v)[1..] == Digits(Abs(v));
    }
  }

  // ---------------------------------------------------------------- IntegerToStr

  function Pow10(k: nat): (p: nat)
    ensures p > 0
  {
    if k == 0 then 1 else 10 * Pow10(k - 1)
  }

  /** The last k digits of n, or all of them if there are fewer. */
  function LastDigits(n: nat, k: nat): (s: Bytes)
    ensures AllDigits(s) && |s| <= k
  {
    var d := Digits(n);
    if |d| <= k then d else d[|d| - k..]
  }

  lemma LastDigitsSplit(n: nat, k: nat)
    requires n >= 10 && k > 0
    ensures LastDigits(n, k) == LastDigits(n / 10, k - 1) + [ZERO + n % 10]
  {
    assert Digits(n) == Digits(n / 10) + [ZERO + n % 10];
  }

  /** A text cut to k digits denotes the number modulo 10^k. */
  lemma {:induction false} LastDigitsValue(n: nat, k: nat)
    ensures DigitsValue(LastDigits(n, k)) == n % Pow10(k)
    decreases k
  {
    if k > 0 {
      if n < 10 {
        OneDigit(n, k);
      } else {
        LastDigitsValue(n / 10, k - 1);
        ManyDigits(n, k);
      }
    }
  }

  lemma ManyDigits(n: nat, k: nat)
    requires n >= 10 && k > 0 && DigitsValue(LastDigits(n / 10, k - 1)) == n / 10 % Pow10(k - 1)
    ensures DigitsValue(LastDigits(n, k)) == n % Pow10(k)
  {
    assert Pow10(k) == 10 * Pow10(k - 1);
    hide LastDigits, DigitsValue, Digits, Pow10;
    LastDigitsSplit(n, k);
    OneMoreDigit(LastDigits(n / 10, k - 1), n % 10);
    ModByParts(n, Pow10(k - 1));
  }

  lemma OneDigit(n: nat, k: nat)
    requires n < 10 && k > 0
    ensures DigitsValue(LastDigits(n, k)) == n == n % Pow10(k)
  {
    assert LastDigits(n, k) == [ZERO + n] && [ZERO + n][..0] == [];
    QuotientIsUnique(n, Pow10(k), 0, n);
  }

  lemma OneMoreDigit(s: Bytes, digit: nat)
    requires AllDigits(s) && digit < 10
    ensures AllDigits(s + [ZERO + digit]) && DigitsValue(s + [ZERO + digit]) == 10 * DigitsValue(s) + digit
  {
    assert (s + [ZERO + digit])[..|s|] == s;
  }

  lemma ModByParts(n: nat, p: nat)
    requires p > 0
    ensures n % (10 * p) == 10 * (n / 10 % p) + n % 10
  {
    var q := n / 10 / p;
    var r := 10 * (n / 10 % p) + n % 10;
    assert n / 10 == q * p + n / 10 % p;
    assert n == q * (10 * p) + r;
    assert 0 <= r < 10 * p;
    QuotientIsUnique(n, 10 * p, q, r);
  }

  /** Prints backwards from the end of the buffer; the text is what fits before the terminating NUL.
      The source negates the value, which excludes the smallest int64. */
  method IntegerToStr(buf: array<Byte>, size: nat, val: Int64) returns (start: nat)
    requires 2 <= size <= buf.Length && val != MIN_INT64
    modifies buf
    ensures start < size && buf[size - 1] == 0
    ensures val >= 0 ==> buf[start..size - 1] == LastDigits(Abs(val), size - 1)
    ensures val < 0 ==> buf[start..size - 1] == [MINUS] + LastDigits(Abs(val), size - 2)
    ensures forall k :: 0 <= k < start || size <= k < buf.Length ==> buf[k] == old(buf[k])
  {
    var sign := if val < 0 then 1 else 0;
    start := PrintDigits(buf, size, sign, Abs(val));
    if sign == 1 {
      ghost var text := buf[start..size - 1];
      start := start - 1;
      buf[start] := MINUS;
      assert buf[start..size - 1] == [MINUS] + text;
    }
  }

  /** The NUL and the digits, leaving room for a sign. */
  method PrintDigits(buf: array<Byte>, size: nat, sign: nat, n: nat) returns (at: nat)
    requires sign <= 1 && 2 <= size <= buf.Length && (n == 0 ==> sign == 0)
    modifies buf
    ensures sign <= at < size && buf[size - 1] == 0
    ensures buf[at..size - 1] == LastDigits(n, size - 1 - sign)
    ensures forall k :: 0 <= k < at || size <= k < buf.Length ==> buf[k] == old(buf[k])
  {
    hide Digits, DigitsLeft, LastDigits, Overlaid;
    at := size - 1;
    buf[at] := 0;
    // digit k of the buffer is digit k + shift of the number
    ghost var d, s := Digits(n), buf[..];
    ghost var shift := |d| - (size - 1);
    FirstDigits(n);
    NoneOverlaid(s, d, at, shift);
    if n == 0 {
      OneMoreOverlaid(s, d, at, size - 1, shift);
      at := at - 1;
      buf[at] := ZERO;
    }
    at := PrintRest(buf, at, size, sign, n, s, d);
    OverlaidText(s, d, at, size - 1, shift);
    LastDigitsPrinted(n, at + shift, size - 1 - sign);
  }

  /** The loop over the digits. */
  method PrintRest(buf: array<Byte>, start: nat, size: nat, sign: nat, n: nat, ghost s: Bytes, ghost d: Bytes)
    returns (at: nat)
    requires sign <= start < size <= buf.Length == |s| && 0 <= start + |d| - (size - 1)
    requires DigitsLeft(n, d, start + |d| - (size - 1))
    requires buf[..] == Overlaid(s, d, start, size - 1, |d| - (size - 1))
    modifies buf
    ensures sign <= at <= start && 0 <= at + |d| - (size - 1) && (at == sign || at + |d| == size - 1)
    ensures buf[..] == Overlaid(s, d, at, size - 1, |d| - (size - 1))
  {
    hide Digits, DigitsLeft, Overlaid;
    var rest := n;
    at := start;
    ghost var shift := |d| - (size - 1);
    NoDigits(rest, d, at + shift);
    while at > sign && rest != 0
      invariant sign <= at <= start && 0 <= at + shift && DigitsLeft(rest, d, at + shift)
      invariant rest == 0 ==> at + shift == 0
      invariant buf[..] == Overlaid(s, d, at, size - 1, shift)
      decreases rest
    {
      NextDigit(rest, d, at + shift);
      OneMoreOverlaid(s, d, at, size - 1, shift);
      at := at - 1;
      buf[at] := ZERO + rest % 10;
      rest := rest / 10;
      NoDigits(rest, d, at + shift);
    }
  }

  /** The bytes with digits of the number between the two places. */
  ghost function Overlaid(s: Bytes, d: Bytes, at: nat, end: nat, shift: int): (r: Bytes)
    requires at <= end <= |s| && 0 <= at + shift && end + shift <= |d|
    ensures |r| == |s|
  {
    s[..at] + d[at + shift..end + shift] + s[end..]
  }

  lemma OverlaidText(s: Bytes, d: Bytes, at: nat, end: nat, shift: int)
    requires at <= end < |s| && 0 <= at + shift && end + shift == |d|
    ensures var r := Overlaid(s, d, at, end, shift);
      && r[at..end] == d[at + shift..] && r[end] == s[end]
      && forall k :: 0 <= k < at || end <= k < |s| ==> r[k] == s[k]
  {
  }

  lemma NoneOverlaid(s: Bytes, d: Bytes, end: nat, shift: int)
    requires end <= |s| && 0 <= end + shift <= |d|
    ensures Overlaid(s, d, end, end, shift) == s
  {
  }

  lemma OneMoreOverlaid(s: Bytes, d: Bytes, at: nat, end: nat, shift: int)
    requires 0 < at <= end <= |s| && 0 < at + shift && end + shift <= |d|
    ensures Overlaid(s, d, at, end, shift)[at - 1 := d[at - 1 + shift]] == Overlaid(s, d, at - 1, end, shift)
  {
  }

  /** All digits are still to be printed, but for those of 0, which has no loop. */
  lemma FirstDigits(n: nat)
    ensures |Digits(n)| > 0 && DigitsLeft(n, Digits(n), if n == 0 then 0 else |Digits(n)|)
    ensures n == 0 ==> Digits(n) == [ZERO]
  {
  }

  lemma LastDigitsPrinted(n: nat, from: nat, room: nat)
    requires from <= |Digits(n)| && (from == 0 ==> |Digits(n)| <= room) && (from > 0 ==> |Digits(n)| - from == room)
    ensures Digits(n)[from..] == LastDigits(n, room)
  {
  }

  lemma NoDigits(rest: nat, d: Bytes, k: nat)
    requires DigitsLeft(rest, d, k)
    ensures rest == 0 ==> k == 0
  {
  }

  /** The first k digits of a number are still to be printed. */
  ghost predicate DigitsLeft(rest: nat, d: Bytes, k: nat) {
    k <= |d| && if rest == 0 then k == 0 else Digits(rest) == d[..k]
  }

  lemma NextDigit(rest: nat, d: Bytes, k: nat)
    requires rest != 0 && DigitsLeft(rest, d, k)
    ensures k > 0 && d[k - 1] == ZERO + rest % 10 && DigitsLeft(rest / 10, d, k - 1)
  {
    DigitsSplit(rest);
    assert d[k - 1] == Digits(rest)[k - 1];
  }

  lemma DigitsSplit(n: nat)
    ensures Digits(n)[|Digits(n)| - 1] == ZERO + n % 10
    ensures if n < 10 then |Digits(n)| == 1 else Digits(n)[..|Digits(n)| - 1] == Digits(n / 10)
  {
  }

  /** With room for every character the printed text is minimal and reads back as the number. */
  lemma PrintedTextScans(val: Int64, size: nat)
    requires |Print(val)| < size
    ensures val >= 0 ==> LastDigits(Abs(val), size - 1) == Print(val)
    ensures val < 0 ==> size > 2 && [MINUS] + LastDigits(Abs(val), size - 2) == Print(val)
    ensures Scan(Print(val)) == Some(val)
  {
    ScanOfPrint(val);
  }
}
