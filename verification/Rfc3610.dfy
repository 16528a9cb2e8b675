/** Counter with CBC-MAC as sections 2.2 to 2.4 of RFC 3610 define it, on whole inputs. */
module Rfc3610 {
  import opened Numbers
  import opened Bytes
  import opened CbcMac
  import opened CounterMode

  /** A nonce of 15 - L octets, for a length field of L octets, 2 to 8. */
  predicate ValidNonce(nonce: seq<byte>) {
    7 <= |nonce| <= 13
  }

  predicate ValidTagLength(m: int) {
    m % 2 == 0 && 4 <= m <= 16
  }

  /** The choices of section 2 of RFC 3610: M is 4, 6, 8, 10, 12, 14 or 16, and L is 2 to 8. */
  lemma {:induction false} AllowedSizes(m: int, nonce: seq<byte>)
    ensures ValidTagLength(m) <==> m in {4, 6, 8, 10, 12, 14, 16}
    ensures ValidNonce(nonce) <==> 15 - |nonce| in {2, 3, 4, 5, 6, 7, 8}
  {
  }

  /** The first block to authenticate: flags, nonce and message length. */
  ghost function FirstBlock(nonce: seq<byte>, tagLength: int, headerLength: nat, messageLength: nat): (b: Block)
    requires ValidNonce(nonce) && ValidTagLength(tagLength)
  {
    var l := 15 - |nonce|;
    [(if headerLength > 0 then 64 else 0) + 8 * ((tagLength - 2) / 2) + (l - 1)] + nonce + BigEndian(messageLength, l)
  }

  /** What the first block tells: whether there is a header, the tag length, the nonce and the message length. */
  datatype First = First(adata: bool, tagLength: nat, nonce: seq<byte>, messageLength: nat)

  /** Reading the first block, by the tables of section 2.2 of RFC 3610: the flags hold Adata, M' and L'. */
  ghost function ReadFirstBlock(b: Block): (r: First) {
    var l := b[0] % 8 + 1;
    First(b[0] / 64 % 2 == 1, 2 * (b[0] / 8 % 8) + 2, b[1..16 - l], FromBigEndian(b[16 - l..]))
  }

  /** Everything in the first block reads back, for every message length the field holds. */
  lemma {:induction false} FirstBlockReads(nonce: seq<byte>, tagLength: int, headerLength: nat, messageLength: nat)
    requires ValidNonce(nonce) && ValidTagLength(tagLength) && messageLength < Shl(1, 8 * (15 - |nonce|))
    ensures ReadFirstBlock(FirstBlock(nonce, tagLength, headerLength, messageLength))
            == First(headerLength > 0, tagLength, nonce, messageLength)
  {
    hide Shl, BigEndian, FromBigEndian;
    var b, l := FirstBlock(nonce, tagLength, headerLength, messageLength), 15 - |nonce|;
    FromBigEndianBack(messageLength, l);
    FlagParts(headerLength > 0, (tagLength - 2) / 2, l - 1);
    assert b[1..16 - l] == nonce && b[16 - l..] == BigEndian(messageLength, l);
  }

  lemma {:induction false} FlagParts(adata: bool, m: nat, l: nat)
    requires m < 8 && l < 8
    ensures var flag := (if adata then 64 else 0) + 8 * m + l;
            flag % 8 == l && flag / 8 % 8 == m && (flag / 64 % 2 == 1 <==> adata)
  {
    assert (8 * m + l) / 8 == m && (64 + 8 * m + l) / 8 == 8 + m;
  }

  /** The encoding of the header length in front of the header. */
  ghost function LengthPrefix(headerLength: nat): (r: seq<byte>)
    ensures |r| <= 10
  {
    if headerLength == 0 then []
    else if headerLength < 0xff00 then BigEndian(headerLength, 2)
    else if headerLength < 0x1_0000_0000 then [0xff, 0xfe] + BigEndian(headerLength, 4)
    else [0xff, 0xff] + BigEndian(headerLength, 8)
  }

  datatype Prefix = Prefix(length: nat, rest: seq<byte>) | NoPrefix

  /** Reading a header length, by the table of section 2.2 of RFC 3610: the first two octets tell the form. */
  ghost function ReadPrefix(s: seq<byte>): (r: Prefix) {
    if |s| < 2 then NoPrefix
    else
      var first := FromBigEndian(s[..2]);
      if 0 < first < 0xff00 then Prefix(first, s[2..])
      else if first == 0xfffe && |s| >= 6 then Prefix(FromBigEndian(s[2..6]), s[6..])
      else if first == 0xffff && |s| >= 10 then Prefix(FromBigEndian(s[2..10]), s[10..])
      else NoPrefix
  }

  /** The three forms cannot be confused, and every 64-bit length reads back in front of any header. */
  lemma {:induction false} PrefixReads(headerLength: nat, header: seq<byte>)
    requires 0 < headerLength < TWO_TO_THE_64
    ensures ReadPrefix(LengthPrefix(headerLength) + header) == Prefix(headerLength, header)
  {
    hide Shl, BigEndian, FromBigEndian;
    var s := LengthPrefix(headerLength) + header;
    WordLimits();
    MarkerValues();
    if headerLength < 0xff00 {
      FromBigEndianBack(headerLength, 2);
      assert s[..2] == BigEndian(headerLength, 2) && s[2..] == header;
    } else if headerLength < 0x1_0000_0000 {
      FromBigEndianBack(headerLength, 4);
      assert s[..2] == [0xff, 0xfe] && s[2..6] == BigEndian(headerLength, 4) && s[6..] == header;
    } else {
      FromBigEndianBack(headerLength, 8);
      assert s[..2] == [0xff, 0xff] && s[2..10] == BigEndian(headerLength, 8) && s[10..] == header;
    }
  }

  lemma {:induction false} MarkerValues()
    ensures FromBigEndian([0xff, 0xfe]) == 0xfffe && FromBigEndian([0xff, 0xff]) == 0xffff
  {
    FromBigEndianLast([0xff, 0xfe]);
    FromBigEndianLast([0xff, 0xff]);
    assert [0xff, 0xfe][..1] == [0xff] && [0xff, 0xff][..1] == [0xff];
    FromBigEndianLast([0xff]);
    assert [0xff][..0] == [];
  }

  /** The chaining value after the first block and the padded header. */
  ghost function HeaderChain(e: Cipher, nonce: seq<byte>, tagLength: int, header: seq<byte>,
                             messageLength: nat): (x: Block)
    requires ValidNonce(nonce) && ValidTagLength(tagLength)
  {
    Chain(e, e(FirstBlock(nonce, tagLength, |header|, messageLength)), Padded(LengthPrefix(|header|) + header))
  }

  /** The key stream's counter block number `i`. */
  ghost function CounterBlock(nonce: seq<byte>, i: nat): (b: Block)
    requires ValidNonce(nonce)
  {
    var l := 15 - |nonce|;
    [l - 1] + nonce + BigEndian(i, l)
  }

  /** A counter block tells nonce and number, so no two blocks of a session's key stream are encrypted alike. */
  lemma {:induction false} CounterBlockReads(nonce: seq<byte>, i: nat)
    requires ValidNonce(nonce) && i < Shl(1, 8 * (15 - |nonce|))
    ensures var b := CounterBlock(nonce, i);
            var l := b[0] + 1;
            l <= 8 && b[1..16 - l] == nonce && FromBigEndian(b[16 - l..]) == i
  {
    hide Shl, BigEndian, FromBigEndian;
    var b, l := CounterBlock(nonce, i), 15 - |nonce|;
    FromBigEndianBack(i, l);
    assert b[1..16 - l] == nonce && b[16 - l..] == BigEndian(i, l);
  }

  /** The block that starts the authentication is never one of the key stream's. */
  lemma {:induction false} FirstIsNoCounter(nonce: seq<byte>, tagLength: int, headerLength: nat, messageLength: nat,
                                            nonce': seq<byte>, i: nat)
    requires ValidNonce(nonce) && ValidTagLength(tagLength) && ValidNonce(nonce')
    ensures FirstBlock(nonce, tagLength, headerLength, messageLength) != CounterBlock(nonce', i)
  {
    hide BigEndian;
    assert FirstBlock(nonce, tagLength, headerLength, messageLength)[0] >= 8 > CounterBlock(nonce', i)[0];
  }

  /** The authentication value: the CBC-MAC, encrypted with key-stream block 0. */
  ghost function Tag(e: Cipher, nonce: seq<byte>, tagLength: int, header: seq<byte>, message: seq<byte>): (t: Block)
    requires ValidNonce(nonce) && ValidTagLength(tagLength)
  {
    var mac := Chain(e, HeaderChain(e, nonce, tagLength, header, |message|), Padded(message));
    XorBytes(mac, e(CounterBlock(nonce, 0)))
  }

  /** Octet `k` of the key stream for the message, which starts with block 1. */
  ghost function KeyStreamByte(e: Cipher, nonce: seq<byte>, k: nat): (b: byte)
    requires ValidNonce(nonce)
  {
    e(CounterBlock(nonce, k / 16 + 1))[k % 16]
  }

  ghost function KeyStream(e: Cipher, nonce: seq<byte>, start: nat, count: nat): (s: seq<byte>)
    requires ValidNonce(nonce)
    ensures |s| == count
  {
    seq<byte>(count, i requires 0 <= i < count => KeyStreamByte(e, nonce, start + i))
  }

  /** Encryption and decryption of message octets from position `start` on. */
  ghost function Crypt(e: Cipher, nonce: seq<byte>, start: nat, data: seq<byte>): (s: seq<byte>)
    requires ValidNonce(nonce)
    ensures |s| == |data|
  {
    XorBytes(data, KeyStream(e, nonce, start, |data|))
  }

  /** The counter mode computes this key stream as long as the block number fits its field. */
  lemma {:induction false} TransformIsCrypt(e: Cipher, nonce: seq<byte>, start: nat, data: seq<byte>)
    requires ValidNonce(nonce) && start + |data| <= Shl(1, 8 * (15 - |nonce|))
    ensures Transform(e, CounterBlock(nonce, 0), 16 + start, data) == Crypt(e, nonce, start, data)
  {
    hide Shl, KeyByte, KeyStreamByte, XorBytes;
    var iv := CounterBlock(nonce, 0);
    var a, b := KeyBytes(e, iv, 16 + start, |data|), KeyStream(e, nonce, start, |data|);
    forall i | 0 <= i < |data| ensures a[i] == b[i] {
      SameKeyByte(e, nonce, start + i);
      assert a[i] == KeyByte(e, iv, 16 + start + i);
    }
    assert a == b;
  }

  lemma {:induction false} SameKeyByte(e: Cipher, nonce: seq<byte>, k: nat)
    requires ValidNonce(nonce) && k < Shl(1, 8 * (15 - |nonce|))
    ensures KeyByte(e, CounterBlock(nonce, 0), 16 + k) == KeyStreamByte(e, nonce, k)
  {
    hide Shl, AddBigEndian, BigEndian;
    var l := 15 - |nonce|;
    ZeroOctets(l);
    ManyBlocks(l);
    assert (16 + k) / 16 == k / 16 + 1 && (16 + k) % 16 == k % 16;
    CounterStaysInSuffix([l - 1] + nonce, l, k / 16 + 1);
  }

  lemma {:induction false} ManyBlocks(l: nat)
    requires l >= 2
    ensures Shl(1, 8 * l) >= 65536
  {
    ShlOneMonotone(16, 8 * l);
    assert Shl(1, 16) == 65536 by {
      ShlShl(1, 8, 8);
      Shl8(1);
      Shl8(256);
    }
  }

  lemma {:induction false} TransformIsBlock0(e: Cipher, nonce: seq<byte>, x: Block, size: nat)
    requires ValidNonce(nonce) && size <= 16
    ensures Transform(e, CounterBlock(nonce, 0), 0, x[..size]) == XorBytes(x, e(CounterBlock(nonce, 0)))[..size]
  {
    AddNothing(CounterBlock(nonce, 0));
  }

  /**
   The layout of packet vector #1 in section 8 of RFC 3610, for every cipher: a tag of 8 octets, a nonce of 13, a
   header of 8 and a message of 23, block by block.
   */
  lemma {:induction false} PacketTag(e: Cipher, nonce: seq<byte>, header: seq<byte>, message: seq<byte>)
    requires |nonce| == 13 && |header| == 8 && |message| == 23
    ensures var x0 := e([0x59] + nonce + [0, 23]);
            var x1 := e(XorBytes(x0, [0, 8] + header + [0, 0, 0, 0, 0, 0]));
            var x2 := e(XorBytes(x1, message[..16]));
            var x3 := e(XorBytes(x2, message[16..] + [0, 0, 0, 0, 0, 0, 0, 0, 0]));
            Tag(e, nonce, 8, header, message) == XorBytes(x3, e([1] + nonce + [0, 0]))
  {
    hide XorBytes, Chain;
    TwoOctets(23);
    TwoOctets(8);
    TwoOctets(0);
    assert FirstBlock(nonce, 8, 8, 23) == [0x59] + nonce + [0, 23];
    var b1: Block := [0, 8] + header + [0, 0, 0, 0, 0, 0];
    assert Padded(LengthPrefix(8) + header) == b1;
    var x1 := Chain(e, e(FirstBlock(nonce, 8, 8, 23)), b1);
    ChainOne(e, e(FirstBlock(nonce, 8, 8, 23)), b1);
    var b2: Block, b3: Block := message[..16], message[16..] + [0, 0, 0, 0, 0, 0, 0, 0, 0];
    assert Padded(message) == b2 + b3;
    ChainSplit(e, x1, b2, b3);
    ChainOne(e, x1, b2);
    ChainOne(e, Chain(e, x1, b2), b3);
  }

  /** And its encryption: key-stream blocks 1 and 2. */
  lemma {:induction false} PacketText(e: Cipher, nonce: seq<byte>, message: seq<byte>)
    requires |nonce| == 13 && |message| == 23
    ensures Crypt(e, nonce, 0, message)
            == XorBytes(message, (e([1] + nonce + [0, 1]) + e([1] + nonce + [0, 2]))[..23])
  {
    hide XorBytes;
    TwoOctets(1);
    TwoOctets(2);
    var a: seq<byte>, b: seq<byte> := e([1] + nonce + [0, 1]), e([1] + nonce + [0, 2]);
    assert CounterBlock(nonce, 1) == [1] + nonce + [0, 1] && CounterBlock(nonce, 2) == [1] + nonce + [0, 2];
    var both: seq<byte> := a + b;
    forall i: nat | i < 23 ensures KeyStreamByte(e, nonce, i) == both[i] {
    }
    assert KeyStream(e, nonce, 0, 23) == both[..23];
  }

  lemma {:induction false} TwoOctets(n: nat)
    requires n < 256
    ensures BigEndian(n, 2) == [0, n]
  {
    assert BigEndian(0, 1) == [0];
  }
}
