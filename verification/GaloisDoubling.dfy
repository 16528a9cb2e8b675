/** `MulU` of `cmac.cpp`: multiplication by x in GF(2^n), in place on a big-endian octet string. */
module GaloisDoubling {
  import opened Numbers
  import opened Bytes

  predicate Supported(length: nat) {
    length == 8 || length == 16 || length == 32 || length == 64 || length == 128
  }

  /** The reduction polynomial below its leading term. */
  function Polynomial(length: nat): (r: nat)
    ensures r < 0x100_0000
  {
    match length
    case 8 => 0x1b
    case 16 => 0x87
    case 32 => 0x425
    case 64 => 0x125
    case 128 => 0x80043
    case _ => 0
  }

  /**
   Times x, modulo the polynomial of degree `8 * length`; polynomials over GF(2) as numbers, their sum is exclusive or.
   */
  ghost function TimesX(v: nat, length: nat): (r: nat) {
    if 2 * v < Shl(1, 8 * length) then 2 * v else Xor(2 * v, Shl(1, 8 * length) + Polynomial(length))
  }

  /** All octets shifted left by one bit, `c` shifted in. */
  ghost function Doubled(s: seq<byte>, c: nat): (r: seq<byte>)
    requires c < 2
    ensures |r| == |s|
  {
    if s == [] then []
    else
      var n := |s| - 1;
      Doubled(s[..n], s[n] / 128) + [(2 * s[n] + c) % 256]
  }

  ghost function TopBit(s: seq<byte>, c: nat): (r: nat)
    requires c < 2
    ensures r < 2
  {
    if s == [] then c else s[0] / 128
  }

  /** Doubling the octets doubles the number; what leaves at the top is the top bit. */
  lemma {:induction false} DoubledValue(s: seq<byte>, c: nat)
    requires c < 2
    ensures FromBigEndian(Doubled(s, c)) + Shl(TopBit(s, c), 8 * |s|) == 2 * FromBigEndian(s) + c
  {
    if s != [] {
      var n := |s| - 1;
      DoubledValue(s[..n], s[n] / 128);
      var d := Doubled(s, c);
      assert d[..n] == Doubled(s[..n], s[n] / 128);
      assert TopBit(s, c) == TopBit(s[..n], s[n] / 128);
      ShlShl(TopBit(s, c), 8 * n, 8);
      Shl8(Shl(TopBit(s, c), 8 * n));
      CarryOctet(s[n], c);
    }
  }

  lemma {:induction false} CarryOctet(b: byte, c: nat)
    requires c < 2
    ensures (2 * b + c) % 256 + 256 * (b / 128) == 2 * b + c
  {
  }

  lemma {:induction false} FromBigEndianBound(s: seq<byte>)
    ensures FromBigEndian(s) < Shl(1, 8 * |s|)
  {
    hide Shl;
    if s == [] {
      ShlNone(1);
    } else {
      var n := |s| - 1;
      FromBigEndianBound(s[..n]);
      ShlShl(1, 8 * n, 8);
      Shl8(Shl(1, 8 * n));
    }
  }

  /** Exclusive or works on the two ends of a number separately. */
  lemma {:induction false} XorParted(a: nat, c: nat, b: nat, d: nat, k: nat)
    requires b < Shl(1, k) && d < Shl(1, k)
    ensures Xor(Shl(a, k) + b, Shl(c, k) + d) == Shl(Xor(a, c), k) + Xor(b, d)
    decreases k
  {
    hide Xor;
    if k == 0 {
      XorZero(0);
    } else {
      XorParted(a, c, b / 2, d / 2, k - 1);
      Halves(Shl(a, k - 1), b);
      Halves(Shl(c, k - 1), d);
      XorParts(Shl(a, k) + b, Shl(c, k) + d);
      XorParts(b, d);
    }
  }

  lemma {:induction false} Halves(x: nat, b: nat)
    ensures (2 * x + b) / 2 == x + b / 2 && (2 * x + b) % 2 == b % 2
  {
  }

  lemma {:induction false} XorLastOctet(a: nat, c: nat, b: byte, d: byte)
    ensures Xor(256 * a + b, 256 * c + d) == 256 * Xor(a, c) + Xor(b, d)
  {
    hide Shl, Xor;
    Shl8(1);
    Shl8(a);
    Shl8(c);
    Shl8(Xor(a, c));
    XorParted(a, c, b, d, 8);
  }

  /** Octet by octet or as numbers, exclusive or is the same. */
  lemma {:induction false} XorBytesValue(s: seq<byte>, t: seq<byte>)
    requires |s| == |t|
    ensures FromBigEndian(XorBytes(s, t)) == Xor(FromBigEndian(s), FromBigEndian(t))
  {
    hide Shl, Xor, FromBigEndian;
    if s == [] {
      ZeroValue(0);
      XorZero(0);
      assert XorBytes(s, t) == s == t == BigEndian(0, 0);
    } else {
      var n, r := |s| - 1, XorBytes(s, t);
      XorBytesValue(s[..n], t[..n]);
      assert r[..n] == XorBytes(s[..n], t[..n]);
      FromBigEndianLast(s);
      FromBigEndianLast(t);
      FromBigEndianLast(r);
      XorLastOctet(FromBigEndian(s[..n]), FromBigEndian(t[..n]), s[n], t[n]);
    }
  }

  /** The octets that take part: all of them, or, in a string of odd length, all but the first. */
  ghost function Shifting(s: seq<byte>): (r: seq<byte>) {
    s[|s| % 2..]
  }

  ghost function Shifted(s: seq<byte>): (r: seq<byte>)
    ensures |r| == |s|
  {
    s[..|s| % 2] + Doubled(Shifting(s), 0)
  }

  /** The octets `MulU` leaves. */
  ghost function MulU(s: seq<byte>): (r: seq<byte>)
    ensures |r| == |s|
  {
    if TopBit(Shifting(s), 0) == 0 then Shifted(s) else XorBytes(Shifted(s), BigEndian(Polynomial(|s|), |s|))
  }

  /** The octets of the polynomial stand for it. */
  lemma {:induction false} PolynomialValue(v: nat, length: nat)
    requires v < 0x100_0000 && length >= 3
    ensures FromBigEndian(BigEndian(v, length)) == v
  {
    var q := v / 256;
    SmallValue(q / 256, length - 2);
    assert BigEndian(q, length - 1)[..length - 2] == BigEndian(q / 256, length - 2);
    assert BigEndian(v, length)[..length - 1] == BigEndian(q, length - 1);
  }

  lemma {:induction false} SmallValue(v: nat, length: nat)
    requires v < 256 && length >= 1
    ensures FromBigEndian(BigEndian(v, length)) == v
  {
    ZeroValue(length - 1);
    assert BigEndian(v, length)[..length - 1] == BigEndian(0, length - 1);
  }

  lemma {:induction false} ZeroValue(length: nat)
    ensures FromBigEndian(BigEndian(0, length)) == 0
  {
    if length > 0 {
      ZeroValue(length - 1);
      assert BigEndian(0, length)[..length - 1] == BigEndian(0, length - 1);
    }
  }

  lemma {:induction false} EvenShift(s: seq<byte>)
    requires |s| % 2 == 0
    ensures Shifting(s) == s && Shifted(s) == Doubled(s, 0)
  {
    assert s[..0] + Doubled(s, 0) == Doubled(s, 0);
  }

  /** For every supported block size the octets are multiplied by x. */
  lemma {:induction false} MulUIsTimesX(s: seq<byte>)
    requires Supported(|s|)
    ensures FromBigEndian(MulU(s)) == TimesX(FromBigEndian(s), |s|)
  {
    hide Shl, FromBigEndian, Xor, BigEndian, Doubled, Polynomial, Shifting, Shifted, XorBytes;
    EvenShift(s);
    var n, d := 8 * |s|, Doubled(s, 0);
    var w, low := FromBigEndian(d), Polynomial(|s|);
    DoubledValue(s, 0);
    FromBigEndianBound(d);
    if TopBit(s, 0) == 0 {
      ShlZero(n);
    } else {
      XorBytesValue(d, BigEndian(low, |s|));
      PolynomialValue(low, |s|);
      FromBigEndianBound(BigEndian(low, |s|));
      XorParted(1, 1, w, low, n);
      XorOnes();
      ShlZero(n);
    }
  }

  lemma {:induction false} XorOnes()
    ensures Xor(1, 1) == 0
  {
  }

  lemma {:induction false} DoubledAt(s: seq<byte>, c: nat, j: nat)
    requires c < 2 && j < |s|
    ensures Doubled(s, c)[j] == (2 * s[j] + if j + 1 < |s| then s[j + 1] / 128 else c) % 256
    decreases |s|
  {
    var n := |s| - 1;
    if j < n {
      DoubledAt(s[..n], s[n] / 128, j);
    }
  }

  /** The bit that moves into octet `j`: the top bit of the octet behind it. */
  ghost function CarryInto(s: seq<byte>, j: int): (c: nat)
    requires -1 <= j
    ensures c < 2
  {
    if j + 1 < |s| then s[j + 1] / 128 else 0
  }

  lemma {:induction false} ShiftedAt(s: seq<byte>, j: nat)
    requires j < |s|
    ensures Shifted(s)[j] == if j < |s| % 2 then s[j] else (2 * s[j] + CarryInto(s, j)) % 256
  {
    hide Doubled;
    var front := |s| % 2;
    if j >= front {
      DoubledAt(Shifting(s), 0, j - front);
    }
  }

  lemma {:induction false} LeavingBit(s: seq<byte>)
    ensures TopBit(Shifting(s), 0) == CarryInto(s, |s| % 2 - 1)
  {
  }

  /** One bit to the left, two octets at a time from the end; the carry is the bit that leaves. */
  method Double(k: array<byte>) returns (carry: nat)
    modifies k
    ensures k[..] == Shifted(old(k[..])) && carry == TopBit(Shifting(old(k[..])), 0)
  {
    hide Shifted, Shifting, TopBit;
    ghost var s, front := k[..], k.Length % 2;
    LeavingBit(s);
    var i := k.Length - 1;
    carry := 0;
    while i >= 1
      invariant front - 1 <= i < k.Length && i % 2 == (front + 1) % 2 && carry == CarryInto(s, i)
      invariant k[..i + 1] == s[..i + 1] && k[i + 1..] == Shifted(s)[i + 1..]
    {
      carry := DoublePair(k, i, carry, s);
      i := i - 2;
    }
    if i == 0 {
      ShiftedAt(s, 0);
    }
    assert k[..] == k[..i + 1] + k[i + 1..];
    assert Shifted(s) == Shifted(s)[..i + 1] + Shifted(s)[i + 1..];
  }

  /** Two octets, the later one first. */
  method DoublePair(k: array<byte>, i: nat, carryIn: nat, ghost s: seq<byte>) returns (carry: nat)
    requires k.Length == |s| && |s| % 2 < i < k.Length && carryIn == CarryInto(s, i)
    requires k[..i + 1] == s[..i + 1] && k[i + 1..] == Shifted(s)[i + 1..]
    modifies k
    ensures carry == CarryInto(s, i - 2) && k[..i - 1] == s[..i - 1] && k[i - 1..] == Shifted(s)[i - 1..]
  {
    hide Shifted;
    ghost var tail := k[i + 1..];
    assert k[i] == k[..i + 1][i] == s[i] && k[i - 1] == k[..i + 1][i - 1] == s[i - 1];
    ShiftedAt(s, i);
    ShiftedAt(s, i - 1);
    var b: nat := k[i];
    var carry2 := b / 128;
    k[i] := (b + b + carryIn) % 256;
    b := k[i - 1];
    carry := b / 128;
    k[i - 1] := (b + b + carry2) % 256;
    assert k[i - 1..] == [k[i - 1], k[i]] + tail;
    assert Shifted(s)[i - 1..] == [Shifted(s)[i - 1], Shifted(s)[i]] + Shifted(s)[i + 1..];
  }

  lemma {:induction false} LastOctets(v: nat, length: nat)
    requires v < 0x100_0000 && length >= 3
    ensures BigEndian(v, length) == Zeros(length - 3) + [v / 65536, v / 256 % 256, v % 256]
  {
    var q := v / 256;
    assert q / 256 == v / 65536 && q / 256 < 256;
    ZeroOctets(length - 3);
    assert BigEndian(q / 256, length - 2) == Zeros(length - 3) + [q / 256];
    assert BigEndian(q, length - 1) == BigEndian(q / 256, length - 2) + [q % 256];
  }

  /** Adding the polynomial touches the last three octets at most. */
  lemma {:induction false} ReducedOctets(d: seq<byte>, v: nat)
    requires v < 0x100_0000 && |d| >= 3
    ensures var n := |d|;
            XorBytes(d, BigEndian(v, n))
            == d[n - 3 := XorByte(d[n - 3], v / 65536)][n - 2 := XorByte(d[n - 2], v / 256 % 256)]
                [n - 1 := XorByte(d[n - 1], v % 256)]
  {
    hide BigEndian, XorByte;
    var n := |d|;
    LastOctets(v, n);
    forall i | 0 <= i < n - 3 ensures XorByte(d[i], 0) == d[i] {
      XorByteZero(d[i]);
    }
  }

  lemma {:induction false} XorByteZero(b: byte)
    ensures XorByte(b, 0) == b
  {
    XorZero(b);
  }

  /** `MulU`: an error exactly when a bit leaves at the top and the size has no polynomial. */
  method MultiplyByX(k: array<byte>) returns (ok: bool)
    modifies k
    ensures ok <==> TopBit(Shifting(old(k[..])), 0) == 0 || Supported(k.Length)
    ensures ok ==> k[..] == MulU(old(k[..]))
  {
    hide Shifted, Shifting, BigEndian, XorBytes;
    var carry := Double(k);
    if carry == 0 {
      return true;
    }
    if !Supported(k.Length) {
      return false;
    }
    AddPolynomial(k);
    return true;
  }

  /** The `switch` over the supported sizes. */
  method AddPolynomial(k: array<byte>)
    requires Supported(k.Length)
    modifies k
    ensures k[..] == XorBytes(old(k[..]), BigEndian(Polynomial(k.Length), k.Length))
  {
    hide XorByte, BigEndian;
    ghost var d := k[..];
    ReducedOctets(d, Polynomial(k.Length));
    var n := k.Length;
    XorByteZero(d[n - 3]);
    XorByteZero(d[n - 2]);
    if n == 8 {
      k[7] := XorByte(k[7], 0x1b);
    } else if n == 16 {
      k[15] := XorByte(k[15], 0x87);
    } else if n == 32 {
      k[30] := XorByte(k[30], 4);
      k[31] := XorByte(k[31], 0x25);
    } else if n == 64 {
      k[62] := XorByte(k[62], 1);
      k[63] := XorByte(k[63], 0x25);
    } else {
      k[125] := XorByte(k[125], 8);
      k[126] := XorByte(k[126], 0x00);
      k[127] := XorByte(k[127], 0x43);
    }
    assert k[..] == XorBytes(d, BigEndian(Polynomial(n), n));
  }

  // ---------- The polynomials ----------

  /** The polynomials by their exponents, below x^64, x^128, x^256, x^512 and x^1024. */
  lemma {:induction false} PolynomialTerms()
    ensures Polynomial(8) == Shl(1, 4) + Shl(1, 3) + Shl(1, 1) + Shl(1, 0)
    ensures Polynomial(16) == Shl(1, 7) + Shl(1, 2) + Shl(1, 1) + Shl(1, 0)
    ensures Polynomial(32) == Shl(1, 10) + Shl(1, 5) + Shl(1, 2) + Shl(1, 0)
    ensures Polynomial(64) == Shl(1, 8) + Shl(1, 5) + Shl(1, 2) + Shl(1, 0)
    ensures Polynomial(128) == Shl(1, 19) + Shl(1, 6) + Shl(1, 1) + Shl(1, 0)
  {
    assert Shl(1, 4) == 16 && Shl(1, 5) == 32 && Shl(1, 6) == 64 && Shl(1, 7) == 128 && Shl(1, 8) == 256;
    assert Shl(1, 10) == 1024 && Shl(1, 15) == 32768 && Shl(1, 19) == 524288;
  }

  /** Multiplication by x loses nothing: the low bit tells whether the polynomial was added. */
  lemma {:induction false} TimesXTells(v: nat, w: nat, length: nat)
    requires Supported(length) && TimesX(v, length) == TimesX(w, length)
    ensures v == w
  {
    hide Shl, Xor;
    var c := Shl(1, 8 * length) + Polynomial(length);
    ShlEven(1, 8 * length);
    XorParts(2 * v, c);
    XorParts(2 * w, c);
    XorTwice(2 * v, c);
    XorTwice(2 * w, c);
  }

  lemma {:induction false} BigEndianTells(s: seq<byte>, t: seq<byte>)
    requires |s| == |t| && FromBigEndian(s) == FromBigEndian(t)
    ensures s == t
  {
    hide FromBigEndian;
    if s != [] {
      var n := |s| - 1;
      FromBigEndianLast(s);
      FromBigEndianLast(t);
      BigEndianTells(s[..n], t[..n]);
      assert s == s[..n] + [s[n]] && t == t[..n] + [t[n]];
    }
  }

  /** Different octet strings are taken to different ones, at every supported size. */
  lemma {:induction false} MulUTells(s: seq<byte>, t: seq<byte>)
    requires Supported(|s|) && |t| == |s|
    ensures MulU(s) == MulU(t) <==> s == t
  {
    hide MulU, TimesX, FromBigEndian;
    if MulU(s) == MulU(t) {
      MulUIsTimesX(s);
      MulUIsTimesX(t);
      TimesXTells(FromBigEndian(s), FromBigEndian(t), |s|);
      BigEndianTells(s, t);
    }
  }

  /** Octet by octet, for the two sizes that block ciphers have. */
  lemma {:induction false} MulUOctets(s: seq<byte>, j: nat)
    requires (|s| == 8 || |s| == 16) && j < |s|
    ensures var b: nat, r: nat := s[j], MulU(s)[j];
            && (j < |s| - 1 ==> r == (2 * b + s[j + 1] / 128) % 256)
            && (j == |s| - 1 && s[0] < 128 ==> r == 2 * b % 256)
            && (j == |s| - 1 && s[0] >= 128 ==> r == Xor(2 * b % 256, if |s| == 8 then 0x1b else 0x87))
  {
    hide Doubled, BigEndian, Xor, XorBytes;
    EvenShift(s);
    DoubledAt(s, 0, j);
    ReducedOctets(Doubled(s, 0), Polynomial(|s|));
    XorByteZero(Doubled(s, 0)[j]);
  }

  lemma {:induction false} Two128()
    ensures Shl(1, 8 * 16) == 0x1_0000_0000_0000_0000_0000_0000_0000_0000
  {
    WordLimits();
    hide Shl;
    ShlShl(1, 64, 64);
    ShlIsTimes(Shl(1, 64), 64);
  }

  /** The subkeys of section 4 of RFC 4493, as numbers: the first doubling only shifts, the second adds the polynomial. */
  lemma {:induction false} KnownSubkeys()
    ensures TimesX(0x7df76b0c_1ab899b3_3e42f047_b91b546f, 16) == 0xfbeed618_35713366_7c85e08f_7236a8de
    ensures TimesX(0xfbeed618_35713366_7c85e08f_7236a8de, 16) == 0xf7ddac30_6ae266cc_f90bc11e_e46d513b
  {
    hide Shl, Xor;
    Two128();
    var high := 0xf7ddac30_6ae266cc_f90bc11e_e46d51;
    XorParted(1, 1, 256 * high + 0xbc, 0x87, 8 * 16);
    XorOnes();
    ShlZero(8 * 16);
    LastOctetXor(high);
  }

  lemma {:induction false} LastOctetXor(high: nat)
    ensures Xor(256 * high + 0xbc, 0x87) == 256 * high + 0x3b
  {
    hide Xor;
    XorLastOctet(high, 0, 0xbc, 0x87);
    XorZero(high);
    TwoOctetsXor();
  }

  lemma {:induction false} TwoOctetsXor()
    ensures Xor(0xbc, 0x87) == 0x3b
  {
    XorOnes();
    assert Xor(2, 2) == 0 && Xor(5, 4) == 1 && Xor(11, 8) == 3;
    assert Xor(23, 16) == 7 && Xor(47, 33) == 14 && Xor(94, 67) == 29;
  }
}
