/** CBC-MAC over 16-octet blocks, and a stream of octets absorbed block by block. */
module CbcMac {
  import opened Bytes

  type Block = s: seq<byte> | |s| == 16 witness seq(16, i => 0)

  /** A keyed block cipher, in its forward direction: any function on blocks. */
  type Cipher = Block -> Block

  /** The chaining value after absorbing whole blocks. */
  ghost function Chain(e: Cipher, x: Block, s: seq<byte>): (r: Block)
    requires |s| % 16 == 0
    decreases |s|
  {
    if s == [] then x else Chain(e, e(XorBytes(x, s[..16])), s[16..])
  }

  ghost function Whole(s: seq<byte>): (n: nat)
    ensures n <= |s| && n % 16 == 0 && |s| - n < 16
  {
    |s| - |s| % 16
  }

  /** `x` and `pending` are what is left of the chaining value `x0` after absorbing the stream `s`. */
  ghost predicate Absorbed(e: Cipher, x0: Block, s: seq<byte>, x: Block, pending: seq<byte>) {
    x == Chain(e, x0, s[..Whole(s)]) && pending == s[Whole(s)..]
  }

  ghost function Padded(s: seq<byte>): (r: seq<byte>)
    ensures |r| % 16 == 0
  {
    s + Zeros((16 - |s| % 16) % 16)
  }

  lemma {:induction false} ChainSplit(e: Cipher, x: Block, s: seq<byte>, t: seq<byte>)
    requires |s| % 16 == 0 && |t| % 16 == 0
    ensures Chain(e, x, s + t) == Chain(e, Chain(e, x, s), t)
    decreases |s|
  {
    if s == [] {
      assert s + t == t;
    } else {
      ChainSplit(e, e(XorBytes(x, s[..16])), s[16..], t);
      assert (s + t)[..16] == s[..16] && (s + t)[16..] == s[16..] + t;
    }
  }

  lemma {:induction false} ChainOne(e: Cipher, x: Block, b: Block)
    ensures Chain(e, x, b) == e(XorBytes(x, b))
  {
    assert b[..16] == b && b[16..] == [];
  }

  lemma {:induction false} ChainNone(e: Cipher, x: Block)
    ensures Chain(e, x, []) == x
  {
  }

  /** Too little to complete a block: only the pending octets grow. */
  lemma {:induction false} AbsorbLittle(e: Cipher, x0: Block, s: seq<byte>, x: Block, pending: seq<byte>, t: seq<byte>)
    requires Absorbed(e, x0, s, x, pending) && |pending| + |t| < 16
    ensures Absorbed(e, x0, s + t, x, pending + t)
  {
    hide Chain;
    assert Whole(s + t) == Whole(s);
    assert (s + t)[..Whole(s)] == s[..Whole(s)];
  }

  /** Pending octets and new ones make whole blocks. */
  lemma {:induction false} AbsorbWhole(e: Cipher, x0: Block, s: seq<byte>, x: Block, pending: seq<byte>, t: seq<byte>)
    requires Absorbed(e, x0, s, x, pending) && (|pending| + |t|) % 16 == 0
    ensures Absorbed(e, x0, s + t, Chain(e, x, pending + t), [])
  {
    hide Chain;
    var n := Whole(s);
    assert Whole(s + t) == |s + t|;
    assert (s + t)[..|s + t|] == s[..n] + (pending + t);
    ChainSplit(e, x0, s[..n], pending + t);
  }

  /** The chaining value after the pending octets, padded with zeros; none means nothing to do. */
  ghost function Closed(e: Cipher, x: Block, pending: seq<byte>): (r: Block)
    requires |pending| < 16
  {
    if pending == [] then x else e(XorBytes(x, pending + Zeros(16 - |pending|)))
  }

  /** The end of a segment closes the chain over the padded stream. */
  lemma {:induction false} AbsorbPadding(e: Cipher, x0: Block, s: seq<byte>, x: Block, pending: seq<byte>)
    requires Absorbed(e, x0, s, x, pending)
    ensures |pending| < 16 && Chain(e, x0, Padded(s)) == Closed(e, x, pending)
  {
    hide Chain;
    var n := Whole(s);
    if pending == [] {
      assert Padded(s) == s && s[..n] == s;
    } else {
      var last := pending + Zeros(16 - |pending|);
      assert Padded(s) == s[..n] + last;
      ChainSplit(e, x0, s[..n], last);
      ChainOne(e, x, last);
    }
  }

  lemma {:induction false} AbsorbedEmpty(e: Cipher, x: Block)
    ensures Absorbed(e, x, [], x, [])
  {
  }

  /** Exclusive or with a short buffer touches the front of the block only. */
  lemma {:induction false} XorFront(x: Block, pending: seq<byte>)
    requires |pending| <= 16
    ensures XorBytes(x[..|pending|], pending) + x[|pending|..] == XorBytes(x, pending + Zeros(16 - |pending|))
  {
    var k := |pending|;
    XorBytesZeros(x[k..]);
    XorBytesSplit(x[..k], x[k..], pending, Zeros(16 - k));
    assert x[..k] + x[k..] == x;
  }
}
