/** The encoder: every overload appends to a stream. */
module BencodeEncode {
  import opened Bytes
  import opened Decimal
  import opened BencodeEntries

  lemma EncodeListStep(out: Bytes, es: seq<Entry>, i: nat)
    requires i < |es|
    ensures out + EncodeList(es[i..]) == out + Encode(es[i]) + EncodeList(es[i + 1..])
  {
    assert es[i..][1..] == es[i + 1..];
    Regroup(out, Encode(es[i]), EncodeList(es[i + 1..]));
  }

  lemma EncodeItemsStep(out: Bytes, xs: seq<Item>, i: nat)
    requires i < |xs|
    ensures out + EncodeItems(xs[i..])
         == out + EncodeStr(xs[i].key) + Encode(xs[i].value) + EncodeItems(xs[i + 1..])
  {
    assert xs[i..][1..] == xs[i + 1..];
    Regroup(out, EncodeStr(xs[i].key) + Encode(xs[i].value), EncodeItems(xs[i + 1..]));
    Regroup(out, EncodeStr(xs[i].key), Encode(xs[i].value));
  }

  method BencodeInteger(stream: Stream, v: Int64)
    modifies stream
    ensures stream.bytes == old(stream.bytes) + Encode(Int(v))
  {
    stream.Append([INT_TAG]);
    stream.Append(Print(v));
    stream.Append([END_TAG]);
  }

  method BencodeStr(stream: Stream, s: Text)
    modifies stream
    ensures stream.bytes == old(stream.bytes) + EncodeStr(s)
  {
    stream.Append(Print(|s|));
    stream.Append([COLON]);
    stream.Append(s);
  }

  method BencodeEntry(stream: Stream, e: Entry)
    modifies stream
    ensures stream.bytes == old(stream.bytes) + Encode(e)
    decreases e, 1
  {
    match e
    case Undefined => assert stream.bytes + [] == stream.bytes;
    case Int(v) => BencodeInteger(stream, v);
    case Str(s) => BencodeStr(stream, s);
    case List(es) => BencodeList(stream, es);
    case Dict(xs) => BencodeDict(stream, xs);
  }

  method BencodeList(stream: Stream, es: seq<Entry>)
    modifies stream
    ensures stream.bytes == old(stream.bytes) + Encode(List(es))
    decreases es, 0
  {
    stream.Append([LIST_TAG]);
    ghost var start := stream.bytes;
    assert es[0..] == es;
    for i := 0 to |es|
      invariant stream.bytes + EncodeList(es[i..]) == start + EncodeList(es)
    {
      EncodeListStep(stream.bytes, es, i);
      BencodeEntry(stream, es[i]);
    }
    assert stream.bytes + [] == stream.bytes;
    stream.Append([END_TAG]);
  }

  method BencodeDict(stream: Stream, xs: seq<Item>)
    modifies stream
    ensures stream.bytes == old(stream.bytes) + Encode(Dict(xs))
    decreases xs, 0
  {
    stream.Append([DICT_TAG]);
    ghost var start := stream.bytes;
    assert xs[0..] == xs;
    for i := 0 to |xs|
      invariant stream.bytes + EncodeItems(xs[i..]) == start + EncodeItems(xs)
    {
      EncodeItemsStep(stream.bytes, xs, i);
      BencodeStr(stream, xs[i].key);
      BencodeEntry(stream, xs[i].value);
    }
    assert stream.bytes + [] == stream.bytes;
    stream.Append([END_TAG]);
  }

  /** Bencode(entry). */
  method BencodeText(e: Entry) returns (bytes: Bytes)
    ensures bytes == Encode(e)
  {
    var stream := new Stream();
    BencodeEntry(stream, e);
    bytes := stream.bytes;
  }
}
