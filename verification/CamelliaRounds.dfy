/** The round function of `camellia.cpp` in its two forms, over an arbitrary substitution box. */
module CamelliaRounds {

  /** A 64-bit half of a block or a subkey: high and low word. */
  datatype Half = Half(h: bv32, l: bv32)

  type SBox = bv8 -> bv8

  function Rotl8(x: bv8): (r: bv8) { (x << 1) | (x >> 7) }
  function Rotr8(x: bv8): (r: bv8) { (x >> 1) | (x << 7) }
  function Xor8(x: bv8, y: bv8): (r: bv8) { x ^ y }
  function Xor32(x: bv32, y: bv32): (r: bv32) { x ^ y }
  function And32(x: bv32, y: bv32): (r: bv32) { x & y }
  function Or32(x: bv32, y: bv32): (r: bv32) { x | y }

  function XorHalf(x: Half, y: Half): (r: Half) {
    Half(Xor32(x.h, y.h), Xor32(x.l, y.l))
  }

  /** `GETBYTE`: octet 0 is the least significant. */
  function GetByte(x: bv32, i: nat): (r: bv8)
    requires i < 4
  {
    match i
    case 0 => (x & 0xff) as bv8
    case 1 => ((x >> 8) & 0xff) as bv8
    case 2 => ((x >> 16) & 0xff) as bv8
    case 3 => ((x >> 24) & 0xff) as bv8
  }

  /** Four octets as a word, most significant first. */
  function Word(a: bv8, b: bv8, c: bv8, d: bv8): (r: bv32) {
    ((a as bv32) << 24) | ((b as bv32) << 16) | ((c as bv32) << 8) | (d as bv32)
  }

  /** `rotlConstant`, for the amounts that occur. */
  function Rotl(x: bv32, k: nat): (r: bv32)
    requires k == 1 || k == 8 || k == 16 || k == 24
  {
    match k
    case 1 => (x << 1) | (x >> 31)
    case 8 => (x << 8) | (x >> 24)
    case 16 => (x << 16) | (x >> 16)
    case 24 => (x << 24) | (x >> 8)
  }

  /** The large tables, each entry spreading one substituted octet. */
  function SP0(s1: SBox, x: bv8): (r: bv32) { var s := s1(x); Word(s, s, s, 0) }
  function SP1(s1: SBox, x: bv8): (r: bv32) { var s := Rotl8(s1(x)); Word(0, s, s, s) }
  function SP2(s1: SBox, x: bv8): (r: bv32) { var s := Rotr8(s1(x)); Word(s, 0, s, s) }
  function SP3(s1: SBox, x: bv8): (r: bv32) { var s := s1(Rotl8(x)); Word(s, s, 0, s) }

  /** `SLOW_ROUND`: one small table and rotations; what is added to the other half. */
  function SlowRound(s1: SBox, left: Half, k: Half): (r: Half) {
    var t := XorHalf(left, k);
    var zr := Word(Rotr8(s1(GetByte(t.l, 2))), s1(Rotl8(GetByte(t.l, 1))), s1(GetByte(t.l, 0)), Rotl8(s1(GetByte(t.l, 3))));
    var zl := Word(s1(GetByte(t.h, 3)), Rotl8(s1(GetByte(t.h, 2))), Rotr8(s1(GetByte(t.h, 1))), s1(Rotl8(GetByte(t.h, 0))));
    SlowMix(zl, zr)
  }

  function SlowMix(zl0: bv32, zr0: bv32): (r: Half) {
    var zl1 := Xor32(zl0, zr0);
    var zr := Xor32(zl1, Rotl(zr0, 8));
    var zl := Xor32(zr, Rotl(zl1, 24));
    Half(Xor32(Rotl(zr, 16), zl), Rotl(zl, 8))
  }

  /** `ROUND`: four large tables; what is added to the other half. */
  function Round(s1: SBox, left: Half, k: Half): (r: Half) {
    var t := XorHalf(left, k);
    var d := Xor4(SP0(s1, GetByte(t.l, 0)), SP1(s1, GetByte(t.l, 3)), SP2(s1, GetByte(t.l, 2)), SP3(s1, GetByte(t.l, 1)));
    var u := Xor4(SP0(s1, GetByte(t.h, 3)), SP1(s1, GetByte(t.h, 2)), SP2(s1, GetByte(t.h, 1)), SP3(s1, GetByte(t.h, 0)));
    FastMix(d, u)
  }

  function Xor4(a: bv32, b: bv32, c: bv32, d: bv32): (r: bv32) {
    Xor32(Xor32(Xor32(a, b), c), d)
  }

  function FastMix(d0: bv32, u: bv32): (r: Half) {
    var d := Xor32(d0, u);
    Half(d, Xor32(d, Rotl(u, 24)))
  }

  lemma {:induction false} WordXor(a: bv8, b: bv8, c: bv8, d: bv8, e: bv8, f: bv8, g: bv8, h: bv8)
    ensures Xor32(Word(a, b, c, d), Word(e, f, g, h)) == Word(Xor8(a, e), Xor8(b, f), Xor8(c, g), Xor8(d, h))
  {
  }

  lemma {:induction false} WordRotl8(a: bv8, b: bv8, c: bv8, d: bv8)
    ensures Rotl(Word(a, b, c, d), 8) == Word(b, c, d, a)
  {
  }

  lemma {:induction false} WordRotl16(a: bv8, b: bv8, c: bv8, d: bv8)
    ensures Rotl(Word(a, b, c, d), 16) == Word(c, d, a, b)
  {
  }

  lemma {:induction false} WordRotl24(a: bv8, b: bv8, c: bv8, d: bv8)
    ensures Rotl(Word(a, b, c, d), 24) == Word(d, a, b, c)
  {
  }

  lemma {:induction false} Xor8Zero(a: bv8)
    ensures Xor8(a, 0) == a && Xor8(0, a) == a && Xor8(a, a) == 0
  {
  }

  lemma {:induction false} Xor8Commutes(a: bv8, b: bv8)
    ensures Xor8(a, b) == Xor8(b, a)
  {
  }

  lemma {:induction false} Xor8Associates(a: bv8, b: bv8, c: bv8)
    ensures Xor8(Xor8(a, b), c) == Xor8(a, Xor8(b, c))
  {
  }

  lemma {:induction false} Interchange(a: bv8, b: bv8, c: bv8, d: bv8)
    ensures Xor8(Xor8(a, b), Xor8(c, d)) == Xor8(Xor8(a, c), Xor8(b, d))
  {
    hide Xor8;
    Xor8Associates(a, b, Xor8(c, d));
    Xor8Associates(b, c, d);
    Xor8Commutes(b, c);
    Xor8Associates(c, b, d);
    Xor8Associates(a, c, Xor8(b, d));
  }

  lemma {:induction false} Cancel(a: bv8, b: bv8, c: bv8)
    ensures Xor8(Xor8(a, c), Xor8(b, c)) == Xor8(a, b)
  {
    hide Xor8;
    Interchange(a, c, b, c);
    Xor8Zero(c);
    Xor8Zero(Xor8(a, b));
  }

  function Xor3(a: bv8, b: bv8, c: bv8): (r: bv8) {
    Xor8(Xor8(a, b), c)
  }

  lemma {:induction false} Turn(a: bv8, b: bv8, c: bv8)
    ensures Xor3(a, b, c) == Xor3(c, a, b)
  {
    hide Xor8;
    Xor8Commutes(Xor8(a, b), c);
    Xor8Associates(c, a, b);
  }

  /** What the four tables contribute, octet by octet. */
  lemma {:induction false} Spread(a0: bv8, a1: bv8, a2: bv8, a3: bv8)
    ensures Xor4(Word(a0, a0, a0, 0), Word(0, a3, a3, a3), Word(a2, 0, a2, a2), Word(a1, a1, 0, a1))
            == Word(Xor3(a0, a2, a1), Xor3(a0, a3, a1), Xor3(a0, a3, a2), Xor3(a3, a2, a1))
  {
    hide Word, Xor8, Xor32;
    WordXor(a0, a0, a0, 0, 0, a3, a3, a3);
    Xor8Zero(a0);
    Xor8Zero(a3);
    WordXor(a0, Xor8(a0, a3), Xor8(a0, a3), a3, a2, 0, a2, a2);
    Xor8Zero(Xor8(a0, a3));
    WordXor(Xor8(a0, a2), Xor8(a0, a3), Xor3(a0, a3, a2), Xor8(a3, a2), a1, a1, 0, a1);
    Xor8Zero(Xor3(a0, a3, a2));
  }

  /** One octet the slow mixing adds to the low word. */
  function SlowLow(p: bv8, x: bv8, y: bv8, r: bv8, w: bv8): (z: bv8) {
    Xor8(Xor3(p, x, y), Xor8(r, w))
  }

  /** The slow mixing, octet by octet. */
  lemma {:induction false} SlowOctets(a0: bv8, a1: bv8, a2: bv8, a3: bv8, b0: bv8, b1: bv8, b2: bv8, b3: bv8)
    ensures
      var z3, z2 := SlowLow(b3, a2, a1, b0, a3), SlowLow(b2, a1, a0, b3, a2);
      var z1, z0 := SlowLow(b1, a0, a3, b2, a1), SlowLow(b0, a3, a2, b1, a0);
      SlowMix(Word(b3, b2, b1, b0), Word(a2, a1, a0, a3))
      == Half(Word(Xor8(Xor3(b1, a0, a3), z3), Xor8(Xor3(b0, a3, a2), z2), Xor8(Xor3(b3, a2, a1), z1), Xor8(Xor3(b2, a1, a0), z0)),
              Word(z2, z1, z0, z3))
  {
    hide Word, Xor8, Xor32, Rotl;
    var x3, x2, x1, x0 := Xor8(b3, a2), Xor8(b2, a1), Xor8(b1, a0), Xor8(b0, a3);
    WordXor(b3, b2, b1, b0, a2, a1, a0, a3);
    WordRotl8(a2, a1, a0, a3);
    WordXor(x3, x2, x1, x0, a1, a0, a3, a2);
    WordRotl24(x3, x2, x1, x0);
    var r3, r2, r1, r0 := Xor3(b3, a2, a1), Xor3(b2, a1, a0), Xor3(b1, a0, a3), Xor3(b0, a3, a2);
    WordXor(r3, r2, r1, r0, x0, x3, x2, x1);
    WordRotl16(r3, r2, r1, r0);
    var z3, z2, z1, z0 := Xor8(r3, x0), Xor8(r2, x3), Xor8(r1, x2), Xor8(r0, x1);
    WordXor(r1, r0, r3, r2, z3, z2, z1, z0);
    WordRotl8(z3, z2, z1, z0);
  }

  /** The fast mixing, octet by octet. */
  lemma {:induction false} FastOctets(d3: bv8, d2: bv8, d1: bv8, d0: bv8, u3: bv8, u2: bv8, u1: bv8, u0: bv8)
    ensures FastMix(Word(d3, d2, d1, d0), Word(u3, u2, u1, u0))
            == Half(Word(Xor8(d3, u3), Xor8(d2, u2), Xor8(d1, u1), Xor8(d0, u0)),
                    Word(Xor8(Xor8(d3, u3), u0), Xor8(Xor8(d2, u2), u3), Xor8(Xor8(d1, u1), u2), Xor8(Xor8(d0, u0), u1)))
  {
    hide Word, Xor8, Xor32, Rotl;
    WordXor(d3, d2, d1, d0, u3, u2, u1, u0);
    WordRotl24(u3, u2, u1, u0);
    WordXor(Xor8(d3, u3), Xor8(d2, u2), Xor8(d1, u1), Xor8(d0, u0), u0, u3, u2, u1);
  }

  /** An octet of the high word: both forms add the same six octets. */
  lemma {:induction false} HighOctet(p: bv8, x: bv8, y: bv8, q: bv8, z: bv8, w: bv8, r: bv8)
    ensures Xor8(Xor3(p, x, y), SlowLow(q, z, w, r, y)) == Xor8(Xor3(x, z, w), Xor3(q, p, r))
  {
    hide Xor8;
    var s, t := Xor8(p, x), Xor3(q, z, w);
    Xor8Associates(t, r, y);
    Cancel(s, Xor8(t, r), y);
    Xor8Associates(Xor8(q, z), w, r);
    Xor8Associates(s, Xor8(q, z), Xor8(w, r));
    Interchange(p, x, q, z);
    Xor8Commutes(Xor8(p, q), Xor8(x, z));
    Xor8Commutes(p, q);
    Interchange(Xor8(x, z), w, Xor8(q, p), r);
  }

  /** An octet of the low word. */
  lemma {:induction false} LowOctet(q: bv8, z: bv8, w: bv8, r: bv8, y: bv8)
    ensures SlowLow(q, z, w, r, y) == Xor8(Xor3(w, y, z), Xor8(r, q))
  {
    hide Xor8;
    Interchange(Xor8(q, z), w, r, y);
    Xor8Commutes(Xor8(Xor8(q, z), r), Xor8(w, y));
    Xor8Commutes(q, z);
    Xor8Associates(z, q, r);
    Xor8Commutes(q, r);
    Xor8Associates(Xor8(w, y), z, Xor8(r, q));
  }

  /** Two sums that share two octets. */
  lemma {:induction false} Shared(d: bv8, u: bv8, v: bv8, b: bv8, c: bv8)
    requires Xor8(u, v) == Xor8(b, c)
    ensures Xor8(Xor8(d, u), v) == Xor8(d, Xor8(b, c))
  {
    hide Xor8;
    Xor8Associates(d, u, v);
  }

  lemma {:induction false} SharedEnds(b: bv8, c: bv8, e: bv8, f: bv8)
    ensures Xor8(Xor3(b, e, f), Xor3(c, e, f)) == Xor8(b, c)
  {
    hide Xor8;
    Cancel(Xor8(b, e), Xor8(c, e), f);
    Cancel(b, c, e);
  }

  /** Both mixings add the same octets. */
  lemma {:induction false} SameMix(a0: bv8, a1: bv8, a2: bv8, a3: bv8, b0: bv8, b1: bv8, b2: bv8, b3: bv8)
    ensures SlowMix(Word(b3, b2, b1, b0), Word(a2, a1, a0, a3))
            == FastMix(Word(Xor3(a0, a2, a1), Xor3(a0, a3, a1), Xor3(a0, a3, a2), Xor3(a3, a2, a1)),
                       Word(Xor3(b3, b1, b0), Xor3(b3, b2, b0), Xor3(b3, b2, b1), Xor3(b2, b1, b0)))
  {
    hide Word, Xor8, Xor32, Rotl, SlowMix, FastMix, SlowLow, Xor3;
    SlowOctets(a0, a1, a2, a3, b0, b1, b2, b3);
    FastOctets(Xor3(a0, a2, a1), Xor3(a0, a3, a1), Xor3(a0, a3, a2), Xor3(a3, a2, a1),
               Xor3(b3, b1, b0), Xor3(b3, b2, b0), Xor3(b3, b2, b1), Xor3(b2, b1, b0));
    HighOctet(b1, a0, a3, b3, a2, a1, b0);
    HighOctet(b0, a3, a2, b2, a1, a0, b3);
    HighOctet(b3, a2, a1, b1, a0, a3, b2);
    HighOctet(b2, a1, a0, b0, a3, a2, b1);
    Turn(a3, a1, a0);
    Turn(b2, b0, b3);
    Turn(a0, a3, a2);
    Turn(b3, b2, b1);
    Turn(a3, a2, a1);
    Turn(b2, b1, b0);
    LowOctets(a0, a1, a2, a3, b0, b1, b2, b3);
    SharedSums(Xor3(a0, a2, a1), Xor3(a0, a3, a1), Xor3(a0, a3, a2), Xor3(a3, a2, a1), b0, b1, b2, b3);
  }

  /** Neighbouring sums of three of the four octets differ in two octets. */
  lemma {:induction false} SharedSums(d3: bv8, d2: bv8, d1: bv8, d0: bv8, b0: bv8, b1: bv8, b2: bv8, b3: bv8)
    ensures Xor8(Xor8(d3, Xor3(b3, b1, b0)), Xor3(b2, b1, b0)) == Xor8(d3, Xor8(b3, b2))
    ensures Xor8(Xor8(d2, Xor3(b3, b2, b0)), Xor3(b3, b1, b0)) == Xor8(d2, Xor8(b2, b1))
    ensures Xor8(Xor8(d1, Xor3(b3, b2, b1)), Xor3(b3, b2, b0)) == Xor8(d1, Xor8(b1, b0))
    ensures Xor8(Xor8(d0, Xor3(b2, b1, b0)), Xor3(b3, b2, b1)) == Xor8(d0, Xor8(b0, b3))
  {
    hide Xor8, Xor3;
    SharedEnds(b3, b2, b1, b0);
    Shared(d3, Xor3(b3, b1, b0), Xor3(b2, b1, b0), b3, b2);
    Turn(b2, b0, b3);
    Turn(b1, b0, b3);
    SharedEnds(b2, b1, b0, b3);
    Shared(d2, Xor3(b3, b2, b0), Xor3(b3, b1, b0), b2, b1);
    Turn(b3, b2, b1);
    Turn(b3, b2, b0);
    SharedEnds(b1, b0, b3, b2);
    Shared(d1, Xor3(b3, b2, b1), Xor3(b3, b2, b0), b1, b0);
    Turn(b2, b1, b0);
    SharedEnds(b0, b3, b2, b1);
    Shared(d0, Xor3(b2, b1, b0), Xor3(b3, b2, b1), b0, b3);
  }

  lemma {:induction false} LowOctets(a0: bv8, a1: bv8, a2: bv8, a3: bv8, b0: bv8, b1: bv8, b2: bv8, b3: bv8)
    ensures SlowLow(b2, a1, a0, b3, a2) == Xor8(Xor3(a0, a2, a1), Xor8(b3, b2))
    ensures SlowLow(b1, a0, a3, b2, a1) == Xor8(Xor3(a0, a3, a1), Xor8(b2, b1))
    ensures SlowLow(b0, a3, a2, b1, a0) == Xor8(Xor3(a0, a3, a2), Xor8(b1, b0))
    ensures SlowLow(b3, a2, a1, b0, a3) == Xor8(Xor3(a3, a2, a1), Xor8(b0, b3))
  {
    hide Xor8, SlowLow, Xor3;
    LowOctet(b2, a1, a0, b3, a2);
    LowOctet(b1, a0, a3, b2, a1);
    Turn(a3, a1, a0);
    LowOctet(b0, a3, a2, b1, a0);
    Turn(a0, a3, a2);
    LowOctet(b3, a2, a1, b0, a3);
    Turn(a3, a2, a1);
  }

  /** The two forms of the round agree, whatever the substitution box. */
  lemma {:induction false} RoundIsSlowRound(s1: SBox, left: Half, k: Half)
    ensures Round(s1, left, k) == SlowRound(s1, left, k)
  {
    hide Word, Xor32, Rotl, GetByte, Rotl8, Rotr8, XorHalf, Xor4, SlowMix, FastMix;
    var t := XorHalf(left, k);
    var a0, a1, a2, a3 := s1(GetByte(t.l, 0)), s1(Rotl8(GetByte(t.l, 1))), Rotr8(s1(GetByte(t.l, 2))), Rotl8(s1(GetByte(t.l, 3)));
    var b0, b1, b2, b3 := s1(Rotl8(GetByte(t.h, 0))), Rotr8(s1(GetByte(t.h, 1))), Rotl8(s1(GetByte(t.h, 2))), s1(GetByte(t.h, 3));
    Spread(a0, a1, a2, a3);
    Spread(b3, b0, b1, b2);
    SameMix(a0, a1, a2, a3, b0, b1, b2, b3);
  }

  /**
   The F-function of section 2.4.1 of RFC 3713: eight octets through four boxes derived from one,
   then the sums that make the eight octets of the result.
   */
  ghost function RfcF(s1: SBox, x: Half, k: Half): (y: Half) {
    var t := XorHalf(x, k);
    var t1, t2, t3, t4 := s1(GetByte(t.h, 3)), Rotl8(s1(GetByte(t.h, 2))), Rotr8(s1(GetByte(t.h, 1))), s1(Rotl8(GetByte(t.h, 0)));
    var t5, t6, t7, t8 := Rotl8(s1(GetByte(t.l, 3))), Rotr8(s1(GetByte(t.l, 2))), s1(Rotl8(GetByte(t.l, 1))), s1(GetByte(t.l, 0));
    Half(Word(Xor8(Xor3(t8, t6, t7), Xor3(t1, t3, t4)),
              Xor8(Xor3(t8, t5, t7), Xor3(t1, t2, t4)),
              Xor8(Xor3(t8, t5, t6), Xor3(t1, t2, t3)),
              Xor8(Xor3(t5, t6, t7), Xor3(t2, t3, t4))),
         Word(Xor8(Xor3(t8, t6, t7), Xor8(t1, t2)),
              Xor8(Xor3(t8, t5, t7), Xor8(t2, t3)),
              Xor8(Xor3(t8, t5, t6), Xor8(t3, t4)),
              Xor8(Xor3(t5, t6, t7), Xor8(t4, t1))))
  }

  /** The table form of the round is the F-function of the standard. */
  lemma {:induction false} RoundIsRfcF(s1: SBox, left: Half, k: Half)
    ensures Round(s1, left, k) == RfcF(s1, left, k)
  {
    hide Word, Xor32, Rotl, GetByte, Rotl8, Rotr8, XorHalf, Xor4, Xor3, Xor8, FastMix;
    var t := XorHalf(left, k);
    var a0, a1, a2, a3 := s1(GetByte(t.l, 0)), s1(Rotl8(GetByte(t.l, 1))), Rotr8(s1(GetByte(t.l, 2))), Rotl8(s1(GetByte(t.l, 3)));
    var b0, b1, b2, b3 := s1(Rotl8(GetByte(t.h, 0))), Rotr8(s1(GetByte(t.h, 1))), Rotl8(s1(GetByte(t.h, 2))), s1(GetByte(t.h, 3));
    Spread(a0, a1, a2, a3);
    Spread(b3, b0, b1, b2);
    FastOctets(Xor3(a0, a2, a1), Xor3(a0, a3, a1), Xor3(a0, a3, a2), Xor3(a3, a2, a1),
               Xor3(b3, b1, b0), Xor3(b3, b2, b0), Xor3(b3, b2, b1), Xor3(b2, b1, b0));
    SharedSums(Xor3(a0, a2, a1), Xor3(a0, a3, a1), Xor3(a0, a3, a2), Xor3(a3, a2, a1), b0, b1, b2, b3);
  }

  /** Octets of a word from the most significant on, and the two turns of an octet, on samples. */
  lemma {:induction false} SampleOctets()
    ensures Word(0x01, 0x23, 0x45, 0x67) == 0x0123_4567
    ensures GetByte(0x0123_4567, 3) == 0x01 && GetByte(0x0123_4567, 2) == 0x23
    ensures GetByte(0x0123_4567, 1) == 0x45 && GetByte(0x0123_4567, 0) == 0x67
    ensures Rotl8(0x81) == 0x03 && Rotr8(0x81) == 0xc0
  {
  }
}
