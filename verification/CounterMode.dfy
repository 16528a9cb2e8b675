/** The counter mode of `modes.cpp`: exclusive or with a key stream addressed by octet position. */
module CounterMode {
  import opened Bytes
  import opened CbcMac

  /** Octet `k` of the key stream: the initial counter block plus `k / 16`, as one big-endian number. */
  function KeyByte(e: Cipher, iv: Block, k: nat): (b: byte) {
    e(AddBigEndian(iv, k / 16))[k % 16]
  }

  function KeyBytes(e: Cipher, iv: Block, start: nat, count: nat): (s: seq<byte>)
    ensures |s| == count
  {
    seq<byte>(count, i requires 0 <= i < count => KeyByte(e, iv, start + i))
  }

  function Transform(e: Cipher, iv: Block, start: nat, data: seq<byte>): (s: seq<byte>)
    ensures |s| == |data|
  {
    XorBytes(data, KeyBytes(e, iv, start, |data|))
  }

  lemma {:induction false} TransformSplit(e: Cipher, iv: Block, start: nat, a: seq<byte>, b: seq<byte>)
    ensures Transform(e, iv, start, a + b) == Transform(e, iv, start, a) + Transform(e, iv, start + |a|, b)
  {
    assert KeyBytes(e, iv, start, |a + b|) == KeyBytes(e, iv, start, |a|) + KeyBytes(e, iv, start + |a|, |b|);
    XorBytesSplit(a, b, KeyBytes(e, iv, start, |a|), KeyBytes(e, iv, start + |a|, |b|));
  }

  lemma {:induction false} TransformTwice(e: Cipher, iv: Block, start: nat, data: seq<byte>)
    ensures Transform(e, iv, start, Transform(e, iv, start, data)) == data
  {
    XorBytesTwice(data, KeyBytes(e, iv, start, |data|));
  }
}
