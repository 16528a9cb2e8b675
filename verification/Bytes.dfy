/** Octets, exclusive or, and big-endian numbers. */
module Bytes {
  import opened Numbers

  type byte = b: nat | b < 256

  /** Bitwise exclusive or of two non-negative numbers. */
  function Xor(a: nat, b: nat): (r: nat) {
    if a == 0 && b == 0 then 0 else (a % 2 + b % 2) % 2 + 2 * Xor(a / 2, b / 2)
  }

  lemma {:induction false} XorBound(a: nat, b: nat, k: nat)
    requires a < Shl(1, k) && b < Shl(1, k)
    ensures Xor(a, b) < Shl(1, k)
    decreases k
  {
    if k > 0 && (a > 0 || b > 0) {
      XorBound(a / 2, b / 2, k - 1);
    }
  }

  lemma {:induction false} XorZero(a: nat)
    ensures Xor(a, 0) == a
  {
    if a > 0 {
      XorZero(a / 2);
    }
  }

  lemma {:induction false} XorZeroLeft(a: nat)
    ensures Xor(0, a) == a
  {
    if a > 0 {
      XorZeroLeft(a / 2);
    }
  }

  lemma {:induction false} XorParts(a: nat, b: nat)
    ensures Xor(a, b) % 2 == (a % 2 + b % 2) % 2 && Xor(a, b) / 2 == Xor(a / 2, b / 2)
  {
    if a > 0 || b > 0 {
      BitAndRest((a % 2 + b % 2) % 2, Xor(a / 2, b / 2));
    }
  }

  lemma {:induction false} ParityTwice(x: nat, y: nat)
    requires x < 2 && y < 2
    ensures ((x + y) % 2 + y) % 2 == x
  {
  }

  lemma {:induction false} XorTwice(a: nat, b: nat)
    ensures Xor(Xor(a, b), b) == a
  {
    if a > 0 || b > 0 {
      XorTwice(a / 2, b / 2);
      XorParts(a, b);
      ParityTwice(a % 2, b % 2);
    }
  }

  lemma {:induction false} XorSelf(a: nat)
    ensures Xor(a, a) == 0
  {
    hide Xor;
    XorParts(a, a);
    XorZero(0);
    if a > 0 {
      XorSelf(a / 2);
    }
  }

  lemma {:induction false} ParityThrice(x: nat, y: nat, z: nat)
    requires x < 2 && y < 2 && z < 2
    ensures ((x + y) % 2 + z) % 2 == (x + (y + z) % 2) % 2
  {
  }

  lemma {:induction false} XorAssociates(a: nat, b: nat, c: nat)
    ensures Xor(Xor(a, b), c) == Xor(a, Xor(b, c))
    decreases a + b + c
  {
    hide Xor;
    XorZero(0);
    XorParts(a, b);
    XorParts(b, c);
    XorParts(Xor(a, b), c);
    XorParts(a, Xor(b, c));
    ParityThrice(a % 2, b % 2, c % 2);
    if a > 0 || b > 0 || c > 0 {
      XorAssociates(a / 2, b / 2, c / 2);
      FromParts(Xor(Xor(a, b), c), Xor(a, Xor(b, c)));
    }
  }

  lemma {:induction false} FromParts(x: nat, y: nat)
    requires x / 2 == y / 2 && x % 2 == y % 2
    ensures x == y
  {
  }

  function XorByte(a: byte, b: byte): (r: byte) {
    assert Shl(1, 8) == 256;
    XorBound(a, b, 8);
    Xor(a, b)
  }

  function XorBytes(s: seq<byte>, t: seq<byte>): (r: seq<byte>)
    requires |s| == |t|
    ensures |r| == |s|
  {
    seq(|s|, i requires 0 <= i < |s| => XorByte(s[i], t[i]))
  }

  lemma {:induction false} XorBytesAssociates(s: seq<byte>, t: seq<byte>, u: seq<byte>)
    requires |s| == |t| == |u|
    ensures XorBytes(XorBytes(s, t), u) == XorBytes(s, XorBytes(t, u))
  {
    forall i | 0 <= i < |s| ensures XorByte(XorByte(s[i], t[i]), u[i]) == XorByte(s[i], XorByte(t[i], u[i])) {
      XorAssociates(s[i], t[i], u[i]);
    }
  }

  function Zeros(n: nat): (r: seq<byte>)
    ensures |r| == n
  {
    seq(n, i => 0)
  }

  lemma {:induction false} XorBytesTwice(s: seq<byte>, t: seq<byte>)
    requires |s| == |t|
    ensures XorBytes(XorBytes(s, t), t) == s
  {
    forall i | 0 <= i < |s| ensures XorBytes(XorBytes(s, t), t)[i] == s[i] {
      XorTwice(s[i], t[i]);
    }
  }

  lemma {:induction false} XorBytesSplit(a: seq<byte>, b: seq<byte>, s: seq<byte>, t: seq<byte>)
    requires |a| == |s| && |b| == |t|
    ensures XorBytes(a + b, s + t) == XorBytes(a, s) + XorBytes(b, t)
  {
  }

  lemma {:induction false} XorBytesZeros(s: seq<byte>)
    ensures XorBytes(s, Zeros(|s|)) == s
  {
    forall i | 0 <= i < |s| ensures XorBytes(s, Zeros(|s|))[i] == s[i] {
      XorZero(s[i]);
    }
  }

  lemma {:induction false} ZerosXorBytes(s: seq<byte>)
    ensures XorBytes(Zeros(|s|), s) == s
  {
    forall i | 0 <= i < |s| ensures XorBytes(Zeros(|s|), s)[i] == s[i] {
      XorZeroLeft(s[i]);
    }
  }

  lemma {:induction false} XorBytesSelf(s: seq<byte>)
    ensures XorBytes(s, s) == Zeros(|s|)
  {
    forall i | 0 <= i < |s| ensures XorBytes(s, s)[i] == 0 {
      XorSelf(s[i]);
    }
  }

  /** `n` as `k` octets, most significant first; higher octets are cut off. */
  function BigEndian(n: nat, k: nat): (r: seq<byte>)
    ensures |r| == k
  {
    if k == 0 then [] else BigEndian(n / 256, k - 1) + [n % 256]
  }

  lemma {:induction false} ZeroOctets(k: nat)
    ensures BigEndian(0, k) == Zeros(k)
  {
    if k > 0 {
      ZeroOctets(k - 1);
    }
  }

  /** The number a big-endian octet string stands for. */
  ghost function FromBigEndian(s: seq<byte>): (n: nat) {
    if s == [] then 0 else 256 * FromBigEndian(s[..|s| - 1]) + s[|s| - 1]
  }

  lemma {:induction false} FromBigEndianLast(s: seq<byte>)
    requires s != []
    ensures FromBigEndian(s) == 256 * FromBigEndian(s[..|s| - 1]) + s[|s| - 1]
  {
  }

  /** The last `k` octets of a longer encoding. */
  lemma {:induction false} BigEndianTail(n: nat, k: nat, l: nat)
    requires l <= k
    ensures BigEndian(n, k)[k - l..] == BigEndian(n, l)
  {
    if l > 0 {
      BigEndianTail(n / 256, k - 1, l - 1);
      assert BigEndian(n, k)[k - l..] == BigEndian(n / 256, k - 1)[k - l..] + [n % 256];
    }
  }

  /** A big-endian number plus `n`, keeping the length. */
  function AddBigEndian(s: seq<byte>, n: nat): (r: seq<byte>)
    ensures |r| == |s|
  {
    if s == [] then []
    else
      var last := |s| - 1;
      AddBigEndian(s[..last], (s[last] + n) / 256) + [(s[last] + n) % 256]
  }

  lemma {:induction false} AddNothing(s: seq<byte>)
    ensures AddBigEndian(s, 0) == s
  {
    if s != [] {
      AddNothing(s[..|s| - 1]);
    }
  }

  /** Counting up in a zero-filled suffix never reaches the octets before it. */
  lemma {:induction false} CounterStaysInSuffix(prefix: seq<byte>, k: nat, n: nat)
    requires n < Shl(1, 8 * k)
    ensures AddBigEndian(prefix + Zeros(k), n) == prefix + BigEndian(n, k)
  {
    hide Shl;
    if k == 0 {
      ShlNone(1);
      assert prefix + Zeros(0) == prefix;
      AddNothing(prefix);
    } else {
      var s := prefix + Zeros(k);
      assert s[..|s| - 1] == prefix + Zeros(k - 1) && s[|s| - 1] == 0;
      ShlDown(n, k);
      CounterStaysInSuffix(prefix, k - 1, n / 256);
      assert prefix + BigEndian(n / 256, k - 1) + [n % 256] == prefix + BigEndian(n, k);
    }
  }

  lemma {:induction false} ShlDown(n: nat, k: nat)
    requires k >= 1 && n < Shl(1, 8 * k)
    ensures n / 256 < Shl(1, 8 * (k - 1))
  {
    ShlShl(1, 8 * (k - 1), 8);
    var p := Shl(1, 8 * (k - 1));
    Shl8(p);
  }

  lemma {:induction false} Shl8(p: int)
    ensures Shl(p, 8) == 256 * p
  {
    assert Shl(p, 1) == 2 * p;
    assert Shl(p, 3) == 8 * p;
    assert Shl(p, 5) == 32 * p;
    assert Shl(p, 7) == 128 * p;
  }

  lemma {:induction false} ByteStep(k: nat)
    ensures Shl(1, k + 8) == 256 * Shl(1, k)
  {
    ShlShl(1, k, 8);
    Shl8(Shl(1, k));
  }

  lemma {:induction false} WordLimits()
    ensures Shl(1, 16) == 0x1_0000 && Shl(1, 32) == 0x1_0000_0000
    ensures Shl(1, 56) == 0x1_0000_0000_0000_00 && Shl(1, 64) == 0x1_0000_0000_0000_0000
  {
    hide Shl;
    ShlNone(1);
    ByteStep(0);
    ByteStep(8);
    ByteStep(16);
    ByteStep(24);
    ByteStep(32);
    ByteStep(40);
    ByteStep(48);
    ByteStep(56);
  }

  /** Octets that hold the whole number give it back. */
  lemma {:induction false} FromBigEndianBack(n: nat, k: nat)
    requires n < Shl(1, 8 * k)
    ensures FromBigEndian(BigEndian(n, k)) == n
    decreases k
  {
    hide Shl;
    if k == 0 {
      ShlNone(1);
    } else {
      ShlDown(n, k);
      FromBigEndianBack(n / 256, k - 1);
      assert BigEndian(n, k)[..k - 1] == BigEndian(n / 256, k - 1);
    }
  }
}
