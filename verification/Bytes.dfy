/** Bytes, the places they are written to, and the two small datatypes every codec below uses. */
module Bytes {
  type Byte = b: nat | b < 256
  type Bytes = seq<Byte>

  datatype Option<+T> = None | Some(value: T)

  /** A cursor read: a value and the input left after it, or a failed read. */
  datatype Read<+T> = Bad | Good(value: T, rest: Bytes)

  /** An output stream that is only appended to. */
  class Stream {
    var bytes: Bytes

    constructor ()
      ensures bytes == []
    {
      bytes := [];
    }

    method Append(bs: Bytes)
      modifies this
      ensures bytes == old(bytes) + bs
    {
      bytes := bytes + bs;
    }
  }

  /** The buffer `s` after `bs` was written at `pos`. */
  ghost function Written(s: Bytes, pos: nat, bs: Bytes): (r: Bytes)
    requires pos + |bs| <= |s|
    ensures |r| == |s|
  {
    s[..pos] + bs + s[pos + |bs|..]
  }

  /** memcpy into a buffer; returns the cursor after the copy. */
  method CopyTo(a: array<Byte>, pos: nat, bs: Bytes) returns (end: nat)
    requires pos + |bs| <= a.Length
    modifies a
    ensures end == pos + |bs| && a[..] == Written(old(a[..]), pos, bs)
  {
    for k := 0 to |bs|
      invariant forall j :: 0 <= j < a.Length ==>
        a[j] == if pos <= j < pos + k then bs[j - pos] else old(a[j])
    {
      a[pos + k] := bs[k];
    }
    end := pos + |bs|;
  }

  /** Two writes in a row are one write of both. */
  lemma WrittenTwice(s: Bytes, pos: nat, b1: Bytes, b2: Bytes)
    requires pos + |b1| + |b2| <= |s|
    ensures Written(Written(s, pos, b1), pos + |b1|, b2) == Written(s, pos, b1 + b2)
  {
  }

  lemma WrittenNothing(s: Bytes, pos: nat)
    requires pos <= |s|
    ensures Written(s, pos, []) == s
  {
  }

  lemma Regroup<T>(a: seq<T>, b: seq<T>, c: seq<T>)
    ensures a + (b + c) == a + b + c
  {
  }
}
