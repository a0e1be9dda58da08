/** Numbers moved between the host's memory and a network buffer, and chains of such moves. */
module NetByteOrder {
  import opened Bytes
  import opened ByteOrder

  /** A number of `width` bytes. */
  datatype NetNum = NetNum(width: nat, value: nat)

  predicate Fits(n: NetNum) {
    n.value < Pow256(n.width)
  }

  // ---------------------------------------------------------------- one number

  /** Copies the bytes of t, last one first, to the buffer at `at`; returns the cursor behind them. */
  method HostToNet(buf: array<Byte>, at: nat, t: NetNum) returns (end: nat)
    requires Fits(t) && at + t.width <= buf.Length
    modifies buf
    ensures end == at + t.width && buf[..] == Written(old(buf[..]), at, Net(t.value, t.width))
    ensures NetValue(buf[at..end]) == t.value
  {
    var mem := Host(t.value, t.width); // the object t
    var p := t.width;
    end := at;
    for i := 0 to t.width
      invariant p == t.width - i && end == at + i
      invariant forall k :: 0 <= k < buf.Length ==>
        buf[k] == if at <= k < at + i then mem[t.width - 1 - (k - at)] else old(buf[k])
    {
      p := p - 1;
      buf[end] := mem[p];
      end := end + 1;
    }
    assert buf[at..end] == Net(t.value, t.width);
    NetRoundTrip(t.value, t.width);
  }

  /** Fills the object from its last byte on; returns it and the cursor behind its bytes. */
  method NetToHost(buf: array<Byte>, at: nat, width: nat) returns (t: nat, end: nat)
    requires at + width <= buf.Length
    ensures end == at + width && t == NetValue(buf[at..end]) && Fits(NetNum(width, t))
    ensures Net(t, width) == buf[at..end]
  {
    var mem := new Byte[width];
    var p := width;
    end := at;
    for i := 0 to width
      invariant p == width - i && end == at + i
      invariant forall k :: p <= k < width ==> mem[k] == buf[at + (width - 1 - k)]
    {
      p := p - 1;
      mem[p] := buf[end];
      end := end + 1;
    }
    t := HostValue(mem[..]);
    var bs := buf[at..end];
    assert mem[..] == Reversed(bs);
    ReversedTwice(bs);
    ReversedValue(mem[..]);
    NetOfValue(bs);
  }

  /** The number whose object holds the bytes of n in the other order. */
  function Swapped(n: NetNum): (t: nat) {
    HostValue(Net(n.value, n.width))
  }

  /** HostToNet(t) and NetToHost(t) on a number instead of a buffer are the same map, and undo
      each other. */
  lemma SwappedTwice(n: NetNum)
    requires Fits(n)
    ensures Fits(NetNum(n.width, Swapped(n))) && Swapped(NetNum(n.width, Swapped(n))) == n.value
  {
    var bs := Net(n.value, n.width);
    HostOfValue(bs);
    ReversedTwice(Host(n.value, n.width));
    HostRoundTrip(n.value, n.width);
  }

  /** The object of the result holds the bytes of n in the opposite order, so it is the number that the
      bytes of n are when they are read from the network. */
  lemma SwappedIsReversed(n: NetNum)
    requires Fits(n)
    ensures Host(Swapped(n), n.width) == Reversed(Host(n.value, n.width))
    ensures Swapped(n) == NetValue(Host(n.value, n.width))
  {
    var mem := Host(n.value, n.width);
    HostOfValue(Net(n.value, n.width));
    ReversedTwice(mem);
    ReversedValue(Reversed(mem));
  }

  /** A port number: htons and ntohs exchange its two bytes. */
  lemma SwappedPort(v: nat)
    requires v < 0x1_0000
    ensures Swapped(NetNum(2, v)) == v % 256 * 256 + v / 256
  {
    assert Pow256(2) == 0x1_0000;
    SwappedIsReversed(NetNum(2, v));
    var mem := Host(v, 2);
    assert mem == [v % 256, v / 256];
    assert mem[..1] == [v % 256] && [v % 256][..0] == [];
    assert NetValue(mem) == 256 * NetValue(mem[..1]) + mem[1];
  }

  // ---------------------------------------------------------------- chains

  /** The bytes of `s & a & b & ...`. */
  function NetAll(ns: seq<NetNum>): Bytes {
    if ns == [] then [] else Net(ns[0].value, ns[0].width) + NetAll(ns[1..])
  }

  function Width(widths: seq<nat>): nat {
    if widths == [] then 0 else widths[0] + Width(widths[1..])
  }

  function Widths(ns: seq<NetNum>): seq<nat> {
    seq(|ns|, i requires 0 <= i < |ns| => ns[i].width)
  }

  /** What a chain of reads takes from the front of the bytes. */
  function Values(bs: Bytes, widths: seq<nat>): seq<NetNum>
    requires Width(widths) <= |bs|
  {
    if widths == [] then []
    else [NetNum(widths[0], NetValue(bs[..widths[0]]))] + Values(bs[widths[0]..], widths[1..])
  }

  lemma {:induction false} NetAllWidth(ns: seq<NetNum>)
    ensures |NetAll(ns)| == Width(Widths(ns))
  {
    if ns != [] {
      NetAllWidth(ns[1..]);
      assert Widths(ns)[1..] == Widths(ns[1..]);
    }
  }

  /** Reading back a chain of writes of any widths gives the numbers written, and nothing of what
      follows is touched. */
  lemma {:induction false} ChainRoundTrip(ns: seq<NetNum>, r: Bytes)
    requires forall i :: 0 <= i < |ns| ==> Fits(ns[i])
    ensures |NetAll(ns)| == Width(Widths(ns))
    ensures Values(NetAll(ns) + r, Widths(ns)) == ns
  {
    NetAllWidth(ns);
    if ns != [] {
      var n, more := ns[0], NetAll(ns[1..]) + r;
      ChainRoundTrip(ns[1..], r);
      NetRoundTrip(n.value, n.width);
      Regroup(Net(n.value, n.width), NetAll(ns[1..]), r);
      FirstBytes(Net(n.value, n.width), more);
      assert Widths(ns)[1..] == Widths(ns[1..]);
      assert ns == [n] + ns[1..];
    }
  }

  lemma FirstBytes(a: Bytes, b: Bytes)
    ensures (a + b)[..|a|] == a && (a + b)[|a|..] == b
  {
  }

  /** Writing back what a chain read gives the bytes it read. */
  lemma {:induction false} ChainOfValues(bs: Bytes, widths: seq<nat>)
    requires Width(widths) <= |bs|
    ensures Widths(Values(bs, widths)) == widths
    ensures NetAll(Values(bs, widths)) == bs[..Width(widths)]
  {
    if widths != [] {
      var w := widths[0];
      var n, more := NetNum(w, NetValue(bs[..w])), Values(bs[w..], widths[1..]);
      ChainOfValues(bs[w..], widths[1..]);
      NetOfValue(bs[..w]);
      NetAllCons(n, more);
      Split(bs, w, Width(widths[1..]));
      assert widths == [w] + widths[1..];
    }
  }

  lemma NetAllCons(n: NetNum, ns: seq<NetNum>)
    ensures NetAll([n] + ns) == Net(n.value, n.width) + NetAll(ns)
    ensures Widths([n] + ns) == [n.width] + Widths(ns)
  {
    assert ([n] + ns)[1..] == ns;
  }

  lemma Split(bs: Bytes, i: nat, j: nat)
    requires i + j <= |bs|
    ensures bs[..i + j] == bs[..i] + bs[i..][..j]
  {
  }

  /** A cursor in a buffer: SingleValueModel over a pointer. */
  class Cursor {
    const buf: array<Byte>
    var value: int

    constructor (buf: array<Byte>, value: nat)
      ensures this.buf == buf && this.value == value
    {
      this.buf := buf;
      this.value := value;
    }

    /** The distance is an int. */
    method Advance(diff: int)
      requires -0x8000_0000 <= diff < 0x8000_0000
      modifies this
      ensures value == old(value) + diff
    {
      value := value + diff;
    }

    /** serializer & t */
    method Put(t: NetNum)
      requires Fits(t) && 0 <= value && value + t.width <= buf.Length
      modifies this, buf
      ensures value == old(value) + t.width
      ensures buf[..] == Written(old(buf[..]), old(value), Net(t.value, t.width))
    {
      value := HostToNet(buf, value, t);
    }

    /** unserializer & t */
    method Take(width: nat) returns (t: nat)
      requires 0 <= value && value + width <= buf.Length
      modifies this
      ensures value == old(value) + width && t == NetValue(buf[old(value)..value])
      ensures Fits(NetNum(width, t))
    {
      t, value := NetToHost(buf, value, width);
    }

    /** A chain of writes. */
    method PutAll(ns: seq<NetNum>)
      requires forall i :: 0 <= i < |ns| ==> Fits(ns[i])
      requires 0 <= value && value + |NetAll(ns)| <= buf.Length
      modifies this, buf
      ensures value == old(value) + |NetAll(ns)|
      ensures buf[..] == Written(old(buf[..]), old(value), NetAll(ns))
    {
      hide Written;
      ghost var before, start, done := buf[..], value, [];
      var todo := ns;
      WrittenNothing(before, start);
      assert [] + NetAll(ns) == NetAll(ns);
      while todo != []
        invariant forall i :: 0 <= i < |todo| ==> Fits(todo[i])
        invariant start + |done + NetAll(todo)| <= buf.Length && done + NetAll(todo) == NetAll(ns)
        invariant value == start + |done| && buf[..] == Written(before, start, done)
        decreases |todo|
      {
        ghost var head := Net(todo[0].value, todo[0].width);
        Regroup(done, head, NetAll(todo[1..]));
        WrittenTwice(before, start, done, head);
        Put(todo[0]);
        done := done + head;
        todo := todo[1..];
      }
      assert done + [] == done;
    }

    /** The same chain of reads. */
    method TakeAll(widths: seq<nat>) returns (ns: seq<NetNum>)
      requires 0 <= value && value + Width(widths) <= buf.Length
      modifies this
      ensures value == old(value) + Width(widths)
      ensures ns == Values(buf[old(value)..], widths)
    {
      ghost var end := value + Width(widths);
      ghost var all := Values(buf[value..], widths);
      var todo := widths;
      ns := [];
      while todo != []
        invariant 0 <= value && value + Width(todo) == end <= buf.Length
        invariant ns + Values(buf[value..], todo) == all
        decreases |todo|
      {
        ghost var rest := buf[value..];
        ghost var head := NetNum(todo[0], NetValue(rest[..todo[0]]));
        Regroup(ns, [head], Values(rest[todo[0]..], todo[1..]));
        assert buf[value..value + todo[0]] == rest[..todo[0]] && buf[value + todo[0]..] == rest[todo[0]..];
        var t := Take(todo[0]);
        ns := ns + [NetNum(todo[0], t)];
        todo := todo[1..];
      }
      assert ns + [] == ns;
    }
  }
}
