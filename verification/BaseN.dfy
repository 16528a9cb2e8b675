/** What base-2^b encoding and decoding mean on whole messages. */
module BaseN {
  import opened Numbers
  import opened Bytes
  import opened BitStrings

  /** The least multiple of 8 and `b` from `i` on: the bits in one output block. */
  function CommonMultiple(b: nat, i: nat): (r: nat)
    requires b >= 1 && i % 8 == 0 && i <= 8 * b
    ensures i <= r <= 8 * b && r % 8 == 0 && r % b == 0
    ensures forall k :: i <= k < r && k % 8 == 0 ==> k % b != 0
    decreases 8 * b - i
  {
    if i % b == 0 then i
    else
      EightTimes(b);
      CommonMultiple(b, i + 8)
  }

  lemma {:induction false} EightTimes(b: nat)
    requires b >= 1
    ensures (8 * b) % b == 0
  {
    DivUnique(8 * b, b, 8, 0);
  }

  /** How many characters an output block has, by the radix: 4 for base 64, 8 for base 32, 2 for base 16. */
  function CharsPerBlock(b: nat): (n: nat)
    requires 1 <= b <= 7
  {
    match b
    case 1 | 3 | 5 | 7 => 8
    case 2 | 6 => 4
    case 4 => 2
  }

  lemma {:induction false} AtMost(b: nat, k: nat)
    requires b >= 1 && k >= 8 && k % 8 == 0 && k % b == 0
    ensures CommonMultiple(b, 8) <= k
  {
    hide CommonMultiple;
  }

  /** That is the least number of characters that make whole octets. */
  lemma {:induction false} BlockIsLeast(b: nat)
    requires 1 <= b <= 7
    ensures CommonMultiple(b, 8) == CharsPerBlock(b) * b
    ensures forall n :: 1 <= n < CharsPerBlock(b) ==> (n * b) % 8 != 0
  {
    hide CommonMultiple;
    AtMost(b, CharsPerBlock(b) * b);
  }

  /** Bits cut into digits of `b` bits, the last one filled up with zeros. */
  ghost function Pack(bits: seq<bool>, b: nat): (digits: seq<nat>)
    requires b >= 1
    decreases |bits|
  {
    if bits == [] then []
    else if |bits| <= b then [FromBits(bits + Falses(b - |bits|))]
    else [FromBits(bits[..b])] + Pack(bits[b..], b)
  }

  /** How many zero bits fill up the last digit. */
  ghost function Fill(n: nat, b: nat): (fill: nat)
    requires b >= 1
    ensures fill < b
    decreases n
  {
    if n == 0 then 0 else if n <= b then b - n else Fill(n - b, b)
  }

  lemma {:induction false} PackUnpack(bits: seq<bool>, b: nat)
    requires b >= 1
    ensures Unpack(Pack(bits, b), b) == bits + Falses(Fill(|bits|, b)) && AllBelow(Pack(bits, b), Shl(1, b))
    decreases |bits|
  {
    hide Unpack, ToBits, FromBits, Shl;
    var fill := Fill(|bits|, b);
    if bits == [] {
      UnpackNone(b);
      assert bits + Falses(0) == bits;
    } else if |bits| <= b {
      FromToBits(bits + Falses(fill));
      UnpackOne(FromBits(bits + Falses(fill)), b);
    } else {
      PackUnpack(bits[b..], b);
      FromToBits(bits[..b]);
      UnpackOne(FromBits(bits[..b]), b);
      UnpackSplit([FromBits(bits[..b])], Pack(bits[b..], b), b);
      assert bits[..b] + (bits[b..] + Falses(fill)) == bits + Falses(fill);
    }
  }

  /** Any digits with these bits, filled up by less than a digit, are the packed ones. */
  lemma {:induction false} PackUnique(bits: seq<bool>, b: nat, digits: seq<nat>, fill: nat)
    requires b >= 1 && AllBelow(digits, Shl(1, b)) && fill < b && Unpack(digits, b) == bits + Falses(fill)
    ensures digits == Pack(bits, b)
  {
    PackUnpack(bits, b);
    UnpackLength(digits, b);
    UnpackLength(Pack(bits, b), b);
    SameFill(|digits|, |Pack(bits, b)|, b, |bits|, fill, Fill(|bits|, b));
    UnpackInjective(digits, Pack(bits, b), b);
  }

  lemma {:induction false} SameFill(x: nat, y: nat, b: nat, n: nat, f: nat, f': nat)
    requires b >= 1 && f < b && f' < b && x * b == n + f && y * b == n + f'
    ensures f == f'
  {
    assert (x - y) * b == x * b - y * b == f - f';
    if x > y {
      MulAtLeast(x - y, b);
      assert false;
    } else if x < y {
      MulAtLeast(y - x, b);
      assert false;
    }
  }

  /** The octets that fit into a bit string; bits left over are dropped. */
  ghost function Octets(bits: seq<bool>): (r: seq<nat>)
    ensures |r| == |bits| / 8
    decreases |bits|
  {
    if |bits| < 8 then [] else [FromBits(bits[..8])] + Octets(bits[8..])
  }

  lemma {:induction false} ByteBits(v: nat)
    requires v < 256
    ensures FromBits(ToBits(v, 8)) == v
  {
    Shl8(1);
    ToFromBits(v, 8);
  }

  /** The bits of octets, with less than an octet of anything behind, give those octets back. */
  lemma {:induction false} OctetsOfBits(data: seq<nat>, tail: seq<bool>)
    requires |tail| < 8 && AllBelow(data, 256)
    ensures Octets(Unpack(data, 8) + tail) == data
  {
    hide Unpack, ToBits, FromBits, Shl;
    if data == [] {
      UnpackNone(8);
      assert Unpack(data, 8) + tail == tail;
    } else {
      var bits := Unpack(data, 8) + tail;
      assert data == [data[0]] + data[1..];
      UnpackSplit([data[0]], data[1..], 8);
      UnpackOne(data[0], 8);
      assert bits[..8] == ToBits(data[0], 8) && bits[8..] == Unpack(data[1..], 8) + tail;
      ByteBits(data[0]);
      OctetsOfBits(data[1..], tail);
    }
  }

  ghost function Digits(data: seq<byte>, b: nat): (r: seq<nat>)
    requires b >= 1
  {
    Pack(Unpack(data, 8), b)
  }

  /** Decoding the digits of a message gives the message. */
  lemma {:induction false} DigitsRoundTrip(data: seq<byte>, b: nat)
    requires 1 <= b <= 7
    ensures Octets(Unpack(Digits(data, b), b)) == data
  {
    PackUnpack(Unpack(data, 8), b);
    OctetsOfBits(data, Falses(Fill(|Unpack(data, 8)|, b)));
  }

  function MapAlphabet(alphabet: seq<byte>, digits: seq<nat>): (r: seq<byte>)
    requires AllBelow(digits, |alphabet|)
    ensures |r| == |digits|
  {
    seq<byte>(|digits|, i requires 0 <= i < |digits| => alphabet[digits[i]])
  }

  /** How many padding characters fill up the last output block. */
  function PadCount(digits: nat, blockSize: nat, padded: bool): (r: nat)
    requires blockSize >= 1
  {
    if !padded || digits % blockSize == 0 then 0 else blockSize - digits % blockSize
  }

  function Copies(c: byte, n: nat): (r: seq<byte>)
    ensures |r| == n
  {
    seq(n, i => c)
  }

  /** A character's value, if it has one: `-1` and anything past a byte is skipped. */
  predicate Skipped(lookup: seq<int>, c: byte)
    requires |lookup| == 256
  {
    lookup[c] < 0 || lookup[c] >= 256
  }

  ghost function Values(lookup: seq<int>, text: seq<byte>): (r: seq<nat>)
    requires |lookup| == 256
    ensures |r| <= |text|
  {
    if text == [] then []
    else
      var n := |text| - 1;
      Values(lookup, text[..n]) + (if Skipped(lookup, text[n]) then [] else [lookup[text[n]]])
  }

  lemma {:induction false} ValuesSplit(lookup: seq<int>, a: seq<byte>, c: seq<byte>)
    requires |lookup| == 256
    ensures Values(lookup, a + c) == Values(lookup, a) + Values(lookup, c)
  {
    hide Skipped;
    if c == [] {
      assert a + c == a;
    } else {
      var n := |c| - 1;
      ValuesSplit(lookup, a, c[..n]);
      assert (a + c)[..|a + c| - 1] == a + c[..n];
      var last := if Skipped(lookup, c[n]) then [] else [lookup[c[n]]];
      assert Values(lookup, a) + Values(lookup, c[..n]) + last == Values(lookup, a) + (Values(lookup, c[..n]) + last);
    }
  }

  lemma {:induction false} ValuesSkipped(lookup: seq<int>, text: seq<byte>)
    requires |lookup| == 256 && forall i :: 0 <= i < |text| ==> Skipped(lookup, text[i])
    ensures Values(lookup, text) == []
  {
    if text != [] {
      ValuesSkipped(lookup, text[..|text| - 1]);
    }
  }

  lemma {:induction false} ValuesOfDigits(lookup: seq<int>, alphabet: seq<byte>, digits: seq<nat>)
    requires |lookup| == 256 && |alphabet| <= 256 && AllBelow(digits, |alphabet|)
    requires forall i :: 0 <= i < |alphabet| ==> lookup[alphabet[i]] == i
    ensures Values(lookup, MapAlphabet(alphabet, digits)) == digits
  {
    if digits != [] {
      var n := |digits| - 1;
      ValuesOfDigits(lookup, alphabet, digits[..n]);
      assert MapAlphabet(alphabet, digits)[..n] == MapAlphabet(alphabet, digits[..n]);
      assert digits == digits[..n] + [digits[n]];
    }
  }

  /** The whole encoded text of a message. */
  ghost function Encoded(alphabet: seq<byte>, b: nat, blockSize: nat, padding: int, data: seq<byte>): (text: seq<byte>)
    requires b >= 1 && blockSize >= 1 && Shl(1, b) <= |alphabet| && -1 <= padding < 256
  {
    PackUnpack(Unpack(data, 8), b);
    var digits := Digits(data, b);
    var pad := PadCount(|digits|, blockSize, padding != -1);
    MapAlphabet(alphabet, digits) + (if padding == -1 then [] else Copies(padding, pad))
  }

  ghost function OrBits(s: seq<bool>, t: seq<bool>): (r: seq<bool>)
    requires |s| == |t|
    ensures |r| == |s|
  {
    seq(|s|, i requires 0 <= i < |s| => s[i] || t[i])
  }

  /**
   The bits after one more value. A value below the radix brings its `b` bits; the high bits of a wider one, which only
   a table made for another alphabet holds, fall on the bits that are already in the current octet.
   */
  ghost function Overlaid(r: seq<bool>, value: nat, b: nat): (r': seq<bool>)
    ensures |r'| == |r| + b
  {
    var part := |r| % 8;
    r[..|r| - part] + OrBits(r[|r| - part..] + Falses(b), ToBits(value, part + b))
  }

  /** The bits of a sequence of values. */
  ghost function Merged(values: seq<nat>, b: nat): (r: seq<bool>) {
    if values == [] then [] else Overlaid(Merged(values[..|values| - 1], b), values[|values| - 1], b)
  }

  lemma {:induction false} OverlaidSmall(r: seq<bool>, value: nat, b: nat)
    requires value < Shl(1, b)
    ensures Overlaid(r, value, b) == r + ToBits(value, b)
  {
    hide ToBits;
    var part := |r| % 8;
    ToBitsSmall(value, b, part + b);
    assert OrBits(r[|r| - part..] + Falses(b), Falses(part) + ToBits(value, b)) == r[|r| - part..] + ToBits(value, b);
  }

  /** Values below the radix simply follow one another. */
  lemma {:induction false} MergedSmall(values: seq<nat>, b: nat)
    requires AllBelow(values, Shl(1, b))
    ensures Merged(values, b) == Unpack(values, b)
  {
    hide Overlaid, ToBits, Shl;
    if values != [] {
      var n := |values| - 1;
      MergedSmall(values[..n], b);
      OverlaidSmall(Merged(values[..n], b), values[n], b);
    }
  }

  /** Whole octets in front stay as they are. */
  lemma {:induction false} OverlaidBehind(octets: seq<bool>, r: seq<bool>, value: nat, b: nat)
    requires |octets| % 8 == 0
    ensures Overlaid(octets + r, value, b) == octets + Overlaid(r, value, b)
  {
    hide ToBits;
    var part := |r| % 8;
    WholeOctets(|octets|, |r|);
    assert (octets + r)[|octets + r| - part..] == r[|r| - part..];
    assert (octets + r)[..|octets + r| - part] == octets + r[..|r| - part];
  }

  lemma {:induction false} WholeOctets(n: nat, k: nat)
    requires n % 8 == 0
    ensures (n + k) % 8 == k % 8
  {
  }

  ghost function Decoded(lookup: seq<int>, b: nat, text: seq<byte>): (data: seq<nat>)
    requires |lookup| == 256
  {
    Octets(Merged(Values(lookup, text), b))
  }

  /** A lookup table that inverts the alphabet and skips the padding character. */
  ghost predicate Inverts(lookup: seq<int>, alphabet: seq<byte>, padding: int) {
    && |lookup| == 256 && |alphabet| <= 256
    && (forall i :: 0 <= i < |alphabet| ==> lookup[alphabet[i]] == i)
    && (0 <= padding < 256 ==> Skipped(lookup, padding))
  }

  /** Decoding undoes encoding, for every message and every base from 2 to 128, padded or not. */
  lemma {:induction false} DecodeEncode(alphabet: seq<byte>, lookup: seq<int>, b: nat, blockSize: nat, padding: int,
                                        data: seq<byte>)
    requires 1 <= b <= 7 && blockSize >= 1 && Shl(1, b) <= |alphabet| && -1 <= padding < 256
             && Inverts(lookup, alphabet, padding)
    ensures Decoded(lookup, b, Encoded(alphabet, b, blockSize, padding, data)) == data
  {
    hide Pack, Unpack, Octets, Shl, Merged;
    var digits := Digits(data, b);
    PackUnpack(Unpack(data, 8), b);
    var pad := if padding == -1 then [] else Copies(padding, PadCount(|digits|, blockSize, padding != -1));
    PackUnpack(Unpack(data, 8), b);
    assert Encoded(alphabet, b, blockSize, padding, data) == MapAlphabet(alphabet, digits) + pad;
    ValuesOfDigits(lookup, alphabet, digits);
    ValuesSkipped(lookup, pad);
    ValuesSplit(lookup, MapAlphabet(alphabet, digits), pad);
    assert digits + [] == digits;
    MergedSmall(digits, b);
    DigitsRoundTrip(data, b);
  }

  // ---------- What the text looks like ----------

  /** As many digits as the bits need, and the last block filled up by less than a block. */
  lemma {:induction false} TextLength(alphabet: seq<byte>, b: nat, blockSize: nat, padding: int, data: seq<byte>)
    requires b >= 1 && blockSize >= 1 && Shl(1, b) <= |alphabet| && -1 <= padding < 256
    ensures var digits, text := |Digits(data, b)|, |Encoded(alphabet, b, blockSize, padding, data)|;
            && digits * b - b < 8 * |data| <= digits * b
            && (if padding == -1 then text == digits else text % blockSize == 0 && digits <= text < digits + blockSize)
  {
    hide Pack, Unpack, Shl, ToBits;
    var bits := Unpack(data, 8);
    PackUnpack(bits, b);
    UnpackLength(data, 8);
    UnpackLength(Digits(data, b), b);
    var n := |Digits(data, b)|;
    if padding != -1 && n % blockSize != 0 {
      var q := n / blockSize;
      assert n + (blockSize - n % blockSize) == (q + 1) * blockSize + 0;
      DivUnique(n + (blockSize - n % blockSize), blockSize, q + 1, 0);
    }
  }

  /** The bits of a number are those of its two parts. */
  lemma {:induction false} ToBitsJoin(a: nat, c: nat, n: nat, k: nat)
    requires c < Shl(1, k)
    ensures ToBits(a * Shl(1, k) + c, n + k) == ToBits(a, n) + ToBits(c, k)
    decreases k
  {
    if k == 0 {
      assert ToBits(a, n) + [] == ToBits(a, n);
    } else {
      var v := a * Shl(1, k) + c;
      assert v == 2 * (a * Shl(1, k - 1)) + c;
      assert v / 2 == a * Shl(1, k - 1) + c / 2 && v % 2 == c % 2;
      ToBitsJoin(a, c / 2, n, k - 1);
    }
  }

  /** Three octets in base 64, first bits first. */
  lemma {:induction false} ThreeOctets(x: byte, y: byte, z: byte)
    ensures Digits([x, y, z], 6) == [x / 4, x % 4 * 16 + y / 16, y % 16 * 4 + z / 64, z % 64]
  {
    hide ToBits;
    assert Shl(1, 2) == 4 && Shl(1, 4) == 16 && Shl(1, 6) == 64;
    ToBitsJoin(x / 4, x % 4, 6, 2);
    ToBitsJoin(y / 16, y % 16, 4, 4);
    ToBitsJoin(z / 64, z % 64, 2, 6);
    ToBitsJoin(x % 4, y / 16, 2, 4);
    ToBitsJoin(y % 16, z / 64, 4, 2);
    var digits := [x / 4, x % 4 * 16 + y / 16, y % 16 * 4 + z / 64, z % 64];
    UnpackThree(x, y, z);
    UnpackFour(digits);
    assert Unpack([x, y, z], 8) + Falses(0) == Unpack(digits, 6);
    PackUnique(Unpack([x, y, z], 8), 6, digits, 0);
  }

  lemma {:induction false} UnpackThree(x: nat, y: nat, z: nat)
    ensures Unpack([x, y, z], 8) == ToBits(x, 8) + ToBits(y, 8) + ToBits(z, 8)
  {
    hide ToBits;
    UnpackSplit([x, y], [z], 8);
    UnpackSplit([x], [y], 8);
    UnpackOne(x, 8);
    UnpackOne(y, 8);
    UnpackOne(z, 8);
    assert [x] + [y] == [x, y] && [x, y] + [z] == [x, y, z];
  }

  lemma {:induction false} UnpackFour(d: seq<nat>)
    requires |d| == 4
    ensures Unpack(d, 6) == ToBits(d[0], 6) + ToBits(d[1], 6) + ToBits(d[2], 6) + ToBits(d[3], 6)
  {
    hide ToBits;
    UnpackSplit(d[..3], [d[3]], 6);
    UnpackSplit(d[..2], [d[2]], 6);
    UnpackSplit([d[0]], [d[1]], 6);
    UnpackOne(d[0], 6);
    UnpackOne(d[1], 6);
    UnpackOne(d[2], 6);
    UnpackOne(d[3], 6);
    assert d == d[..3] + [d[3]] && d[..3] == d[..2] + [d[2]] && d[..2] == [d[0]] + [d[1]];
  }

  /** One octet in base 64: two digits and two padding characters, as section 10 of RFC 4648 has it for "f". */
  lemma {:induction false} OneOctet(alphabet: seq<byte>, padding: byte, x: byte)
    requires |alphabet| >= 64
    ensures Shl(1, 6) == 64
    ensures Encoded(alphabet, 6, 4, padding, [x]) == [alphabet[x / 4], alphabet[x % 4 * 16], padding, padding]
  {
    hide ToBits, Pack, Unpack;
    assert Shl(1, 6) == 64 && Shl(1, 2) == 4 && Shl(1, 4) == 16;
    var digits := [x / 4, x % 4 * 16];
    ToBitsJoin(x / 4, x % 4, 6, 2);
    ToBitsJoin(x % 4, 0, 2, 4);
    ToBitsZero(4);
    UnpackOne(x, 8);
    UnpackSplit([x / 4], [x % 4 * 16], 6);
    UnpackOne(x / 4, 6);
    UnpackOne(x % 4 * 16, 6);
    assert [x / 4] + [x % 4 * 16] == digits;
    assert Unpack([x], 8) + Falses(4) == Unpack(digits, 6);
    PackUnique(Unpack([x], 8), 6, digits, 4);
    assert MapAlphabet(alphabet, digits) == [alphabet[x / 4], alphabet[x % 4 * 16]];
    assert Copies(padding, 2) == [padding, padding];
  }
}
