/** Numbers as bytes: the host keeps the least significant byte first, the network the most significant. */
module ByteOrder {
  import opened Bytes
  import opened Division

  function Pow256(k: nat): (p: nat)
    ensures p > 0
  {
    if k == 0 then 1 else 256 * Pow256(k - 1)
  }

  /** A k-byte number as it lies in the host's memory. */
  function Host(n: nat, k: nat): (bs: Bytes)
    ensures |bs| == k
  {
    if k == 0 then [] else [n % 256] + Host(n / 256, k - 1)
  }

  function HostValue(bs: Bytes): nat {
    if bs == [] then 0 else bs[0] + 256 * HostValue(bs[1..])
  }

  /** The base-256 value with the most significant byte first. */
  function NetValue(bs: Bytes): nat {
    if bs == [] then 0 else 256 * NetValue(bs[..|bs| - 1]) + bs[|bs| - 1]
  }

  function Reversed(bs: Bytes): (r: Bytes)
    ensures |r| == |bs|
  {
    seq(|bs|, i requires 0 <= i < |bs| => bs[|bs| - 1 - i])
  }

  /** A k-byte number as it travels. */
  function Net(n: nat, k: nat): (bs: Bytes)
    ensures |bs| == k
  {
    Reversed(Host(n, k))
  }

  lemma {:induction false} HostRoundTrip(n: nat, k: nat)
    requires n < Pow256(k)
    ensures HostValue(Host(n, k)) == n
  {
    if k > 0 {
      assert n / 256 < Pow256(k - 1);
      HostRoundTrip(n / 256, k - 1);
    }
  }

  lemma {:induction false} HostOfValue(bs: Bytes)
    ensures HostValue(bs) < Pow256(|bs|) && Host(HostValue(bs), |bs|) == bs
  {
    if bs != [] {
      HostOfValue(bs[1..]);
      var v := HostValue(bs[1..]);
      assert HostValue(bs) % 256 == bs[0] && HostValue(bs) / 256 == v;
    }
  }

  lemma {:induction false} ReversedValue(bs: Bytes)
    ensures NetValue(Reversed(bs)) == HostValue(bs)
  {
    if bs != [] {
      ReversedValue(bs[1..]);
      var r := Reversed(bs);
      assert r[..|r| - 1] == Reversed(bs[1..]);
    }
  }

  lemma ReversedTwice(bs: Bytes)
    ensures Reversed(Reversed(bs)) == bs
  {
  }

  /** The bytes on the wire are the number, most significant byte first, and determine it. */
  lemma NetRoundTrip(n: nat, k: nat)
    requires n < Pow256(k)
    ensures NetValue(Net(n, k)) == n
  {
    ReversedValue(Host(n, k));
    HostRoundTrip(n, k);
  }

  lemma NetOfValue(bs: Bytes)
    ensures NetValue(bs) < Pow256(|bs|) && Net(NetValue(bs), |bs|) == bs
  {
    ReversedTwice(bs);
    ReversedValue(Reversed(bs));
    HostOfValue(Reversed(bs));
  }

  // ---------------------------------------------------------------- byte by byte

  /** Byte i of the host's bytes is the one of 256^i. */
  lemma {:induction false} HostByte(n: nat, k: nat, i: nat)
    requires i < k
    ensures Host(n, k)[i] == n / Pow256(i) % 256
    decreases k
  {
    if i > 0 {
      HostByte(n / 256, k - 1, i - 1);
      DividedTwice(n, 256, Pow256(i - 1));
    } else {
      assert n / Pow256(0) == n;
    }
  }

  /** Of a number on the wire the byte of the highest power comes first. */
  lemma NetByte(n: nat, k: nat, i: nat)
    requires i < k
    ensures Net(n, k)[i] == n / Pow256(k - 1 - i) % 256
  {
    HostByte(n, k, k - 1 - i);
  }

  /** The 32-bit number with these bytes, the most significant one first. */
  function BigEndian(a: nat, b: nat, c: nat, d: nat): nat {
    0x100_0000 * a + 0x1_0000 * b + 0x100 * c + d
  }

  lemma NetValueOfFour(s: Bytes)
    requires |s| == 4
    ensures NetValue(s) == BigEndian(s[0], s[1], s[2], s[3])
  {
    NetValueFront(s, 4);
    NetValueFront(s, 3);
    NetValueFront(s, 2);
    NetValueFront(s, 1);
  }

  lemma NetValueFront(s: Bytes, k: nat)
    requires 0 < k <= |s|
    ensures NetValue(s[..k]) == 256 * NetValue(s[..k - 1]) + s[k - 1] && NetValue(s[..0]) == 0
    ensures k == |s| ==> s[..k] == s
  {
    assert s[..k][..k - 1] == s[..k - 1];
  }
}
