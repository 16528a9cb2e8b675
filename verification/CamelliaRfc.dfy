/** Camellia as RFC 3713 writes it down, on 64-bit and 128-bit words, against the form of `camellia.cpp`. */
module CamelliaRfc {
  import opened CamelliaRounds
  import opened Camellia
  import opened CamelliaKeys

  // ---------- Words of 64 bits in two parts ----------

  function Turned(x: bv32): (r: bv32) { (x << 1) | (x >> 31) }

  lemma {:induction false} WordParts(h: bv32, l: bv32)
    ensures Top(Words(h, l)) == h && Bottom(Words(h, l)) == l
  {
  }

  lemma {:induction false} WordOfParts(v: bv64)
    ensures Words(Top(v), Bottom(v)) == v
  {
  }

  lemma {:induction false} Joined(x: Half)
    ensures Top(Join(x)) == x.h && Bottom(Join(x)) == x.l && Split(Join(x)) == x
  {
    hide Top, Bottom, Words;
    WordParts(x.h, x.l);
  }

  /** Nothing of a word is lost in its two halves. */
  lemma {:induction false} Splitted(v: bv64)
    ensures Join(Split(v)) == v
  {
    hide Top, Bottom, Words;
    WordOfParts(v);
  }

  // ---------- The layers ----------

  /** Section 2.4.2: the FL-function. */
  function RfcFL(x: bv64, ke: bv64): (y: bv64) {
    var x2 := Xor32(Bottom(x), Turned(And32(Top(x), Top(ke))));
    var x1 := Xor32(Top(x), Or32(x2, Bottom(ke)));
    Words(x1, x2)
  }

  /** Section 2.4.3: its inverse. */
  function RfcFLInverse(y: bv64, ke: bv64): (x: bv64) {
    var y1 := Xor32(Top(y), Or32(Bottom(y), Bottom(ke)));
    var y2 := Xor32(Bottom(y), Turned(And32(y1, Top(ke))));
    Words(y1, y2)
  }

  lemma {:induction false} RotlIsTurned(x: bv32)
    ensures Rotl(x, 1) == Turned(x)
  {
  }

  lemma {:induction false} FLIsRfc(x: Half, k: Half)
    ensures Join(FL(x, k)) == RfcFL(Join(x), Join(k)) && Join(FLInverse(x, k)) == RfcFLInverse(Join(x), Join(k))
  {
    hide Top, Bottom, Words, Turned, Rotl, Xor32, And32, Or32;
    WordParts(x.h, x.l);
    WordParts(k.h, k.l);
    RotlIsTurned(And32(x.h, k.h));
    RotlIsTurned(And32(Xor32(x.h, Or32(x.l, k.l)), k.h));
  }

  // ---------- Rotations of 128 bits ----------

  function Two(l: bv64, r: bv64): (x: bv128) { ((l as bv128) << 64) | (r as bv128) }
  function High(x: bv128): (r: bv64) { (x >> 64) as bv64 }
  function Lower(x: bv128): (r: bv64) { (x & 0xffff_ffff_ffff_ffff) as bv64 }

  predicate Amount(n: nat) {
    n == 0 || n == 15 || n == 30 || n == 45 || n == 60 || n == 77 || n == 94 || n == 111
  }

  /** A 128-bit key rotated left, for the amounts of section 2.2. */
  function Rot(x: bv128, n: nat): (r: bv128)
    requires Amount(n)
  {
    match n
    case 0 => x
    case 15 => (x << 15) | (x >> 113)
    case 30 => (x << 30) | (x >> 98)
    case 45 => (x << 45) | (x >> 83)
    case 60 => (x << 60) | (x >> 68)
    case 77 => (x << 77) | (x >> 51)
    case 94 => (x << 94) | (x >> 34)
    case 111 => (x << 111) | (x >> 17)
  }

  lemma {:induction false} Turn0(l: bv64, r: bv64)
    ensures High(Two(l, r)) == l && Lower(Two(l, r)) == r
  {
  }

  lemma {:induction false} Turn15(l: bv64, r: bv64)
    ensures High(Rot(Two(l, r), 15)) == Shifted(l, r, 15) && Lower(Rot(Two(l, r), 15)) == Shifted(r, l, 15)
  {
  }

  lemma {:induction false} Turn30(l: bv64, r: bv64)
    ensures High(Rot(Two(l, r), 30)) == Shifted(l, r, 30) && Lower(Rot(Two(l, r), 30)) == Shifted(r, l, 30)
  {
  }

  lemma {:induction false} Turn45(l: bv64, r: bv64)
    ensures High(Rot(Two(l, r), 45)) == Shifted(l, r, 45) && Lower(Rot(Two(l, r), 45)) == Shifted(r, l, 45)
  {
  }

  lemma {:induction false} Turn60(l: bv64, r: bv64)
    ensures High(Rot(Two(l, r), 60)) == Shifted(l, r, 60) && Lower(Rot(Two(l, r), 60)) == Shifted(r, l, 60)
  {
  }

  lemma {:induction false} Turn77(l: bv64, r: bv64)
    ensures High(Rot(Two(l, r), 77)) == Shifted(r, l, 13) && Lower(Rot(Two(l, r), 77)) == Shifted(l, r, 13)
  {
  }

  lemma {:induction false} Turn94(l: bv64, r: bv64)
    ensures High(Rot(Two(l, r), 94)) == Shifted(r, l, 30) && Lower(Rot(Two(l, r), 94)) == Shifted(l, r, 30)
  {
  }

  lemma {:induction false} Turn111(l: bv64, r: bv64)
    ensures High(Rot(Two(l, r), 111)) == Shifted(r, l, 47) && Lower(Rot(Two(l, r), 111)) == Shifted(l, r, 47)
  {
  }

  /** The two words of a rotated key, as the code computes them and as the standard writes them. */
  lemma {:induction false} RotatedIsRfc(k: Wide, n: nat)
    requires Amount(n)
    ensures RotatedLeft(k, n) == High(Rot(Two(k.l, k.r), n)) && RotatedRight(k, n) == Lower(Rot(Two(k.l, k.r), n))
  {
    hide High, Lower, Two, Shifted;
    match n
    case 0 =>
      hide Rot;
      assert Rot(Two(k.l, k.r), 0) == Two(k.l, k.r);
      Turn0(k.l, k.r);
    case 15 => Turn15(k.l, k.r);
    case 30 => Turn30(k.l, k.r);
    case 45 => Turn45(k.l, k.r);
    case 60 => Turn60(k.l, k.r);
    case 77 => Turn77(k.l, k.r);
    case 94 => Turn94(k.l, k.r);
    case 111 => Turn111(k.l, k.r);
  }

  // ---------- The subkeys by their names ----------

  /** The left word of a rotated key: (K <<< n) >> 64. */
  function Hi(k: Wide, n: nat): (r: Half)
    requires Amount(n)
  {
    Split(High(Rot(Two(k.l, k.r), n)))
  }

  /** The right word: (K <<< n) & MASK64. */
  function Lo(k: Wide, n: nat): (r: Half)
    requires Amount(n)
  {
    Split(Lower(Rot(Two(k.l, k.r), n)))
  }

  /** Two subkeys with consecutive numbers. */
  function Both(k: Wide, n: nat): (r: Pair)
    requires Amount(n)
  {
    Pair(Hi(k, n), Lo(k, n))
  }

  /** The table of section 2.2 for 128-bit keys, two subkeys at a time. */
  function Rfc128(KL: Wide, KA: Wide, q: nat): (r: Pair)
    requires q < 13
  {
    match q
    case 0 => Both(KL, 0)                   // kw1, kw2
    case 1 => Both(KA, 0)                   // k1, k2
    case 2 => Both(KL, 15)                  // k3, k4
    case 3 => Both(KA, 15)                  // k5, k6
    case 4 => Both(KA, 30)                  // ke1, ke2
    case 5 => Both(KL, 45)                  // k7, k8
    case 6 => Pair(Hi(KA, 45), Lo(KL, 60))  // k9, k10
    case 7 => Both(KA, 60)                  // k11, k12
    case 8 => Both(KL, 77)                  // ke3, ke4
    case 9 => Both(KL, 94)                  // k13, k14
    case 10 => Both(KA, 94)                 // k15, k16
    case 11 => Both(KL, 111)                // k17, k18
    case 12 => Both(KA, 111)                // kw3, kw4
  }

  /** The table of section 2.2 for 192-bit and 256-bit keys, two subkeys at a time. */
  function Rfc256(KL: Wide, KR: Wide, KA: Wide, KB: Wide, q: nat): (r: Pair)
    requires q < 17
  {
    match q
    case 0 => Both(KL, 0)                   // kw1, kw2
    case 1 => Both(KB, 0)                   // k1, k2
    case 2 => Both(KR, 15)                  // k3, k4
    case 3 => Both(KA, 15)                  // k5, k6
    case 4 => Both(KR, 30)                  // ke1, ke2
    case 5 => Both(KB, 30)                  // k7, k8
    case 6 => Both(KL, 45)                  // k9, k10
    case 7 => Both(KA, 45)                  // k11, k12
    case 8 => Both(KL, 60)                  // ke3, ke4
    case 9 => Both(KR, 60)                  // k13, k14
    case 10 => Both(KB, 60)                 // k15, k16
    case 11 => Both(KL, 77)                 // k17, k18
    case 12 => Both(KA, 77)                 // ke5, ke6
    case 13 => Both(KR, 94)                 // k19, k20
    case 14 => Both(KA, 94)                 // k21, k22
    case 15 => Both(KL, 111)                // k23, k24
    case 16 => Both(KB, 111)                // kw3, kw4
  }

  lemma {:induction false} PairIsRfc(k: Wide, n: nat)
    requires Amount(n)
    ensures L(k, n) == Hi(k, n) && R(k, n) == Lo(k, n)
  {
    hide High, Lower, Rot, Two, RotatedLeft, RotatedRight, Split;
    RotatedIsRfc(k, n);
  }

  lemma {:induction false} BothIsRfc(k: Wide, n: nat)
    requires Amount(n)
    ensures LR(k, n) == Both(k, n)
  {
    hide Hi, Lo, L, R;
    PairIsRfc(k, n);
  }

  lemma {:induction false} Table128(KL: Wide, KA: Wide, q: nat)
    requires q < 13
    ensures var r := Rfc128(KL, KA, q);
            Pair128(KL, KA, q) == if q < 12 then r else Pair(r.second, r.first)
  {
    hide Hi, Lo, L, R, LR, Both;
    match q
    case 0 => BothIsRfc(KL, 0);
    case 1 => BothIsRfc(KA, 0);
    case 2 => BothIsRfc(KL, 15);
    case 3 => BothIsRfc(KA, 15);
    case 4 => BothIsRfc(KA, 30);
    case 5 => BothIsRfc(KL, 45);
    case 6 =>
      PairIsRfc(KA, 45);
      PairIsRfc(KL, 60);
    case 7 => BothIsRfc(KA, 60);
    case 8 => BothIsRfc(KL, 77);
    case 9 => BothIsRfc(KL, 94);
    case 10 => BothIsRfc(KA, 94);
    case 11 => BothIsRfc(KL, 111);
    case 12 =>
      PairIsRfc(KA, 111);
      assert Both(KA, 111) == Pair(Hi(KA, 111), Lo(KA, 111)) by { BothIs(KA, 111); }
  }

  lemma {:induction false} Table256(KL: Wide, KR: Wide, KA: Wide, KB: Wide, q: nat)
    requires q < 17
    ensures var r := Rfc256(KL, KR, KA, KB, q);
            Pair256(KL, KR, KA, KB, q) == if q < 16 then r else Pair(r.second, r.first)
  {
    hide Hi, Lo, L, R, LR, Both;
    match q
    case 0 => BothIsRfc(KL, 0);
    case 1 => BothIsRfc(KB, 0);
    case 2 => BothIsRfc(KR, 15);
    case 3 => BothIsRfc(KA, 15);
    case 4 => BothIsRfc(KR, 30);
    case 5 => BothIsRfc(KB, 30);
    case 6 => BothIsRfc(KL, 45);
    case 7 => BothIsRfc(KA, 45);
    case 8 => BothIsRfc(KL, 60);
    case 9 => BothIsRfc(KR, 60);
    case 10 => BothIsRfc(KB, 60);
    case 11 => BothIsRfc(KL, 77);
    case 12 => BothIsRfc(KA, 77);
    case 13 => BothIsRfc(KR, 94);
    case 14 => BothIsRfc(KA, 94);
    case 15 => BothIsRfc(KL, 111);
    case 16 =>
      PairIsRfc(KB, 111);
      assert Both(KB, 111) == Pair(Hi(KB, 111), Lo(KB, 111)) by { BothIs(KB, 111); }
  }

  lemma {:induction false} BothIs(k: Wide, n: nat)
    requires Amount(n)
    ensures Both(k, n) == Pair(Hi(k, n), Lo(k, n))
  {
  }

  // ---------- The intermediate keys ----------

  const SIGMA1: bv64 := 0xA09E667F3BCC908B
  const SIGMA2: bv64 := 0xB67AE8584CAA73B2
  const SIGMA3: bv64 := 0xC6EF372FE94F82BE
  const SIGMA4: bv64 := 0x54FF53A5F1D36F1C
  const SIGMA5: bv64 := 0x10E527FADE682D1D
  const SIGMA6: bv64 := 0xB05688C2B3E6C1FD

  lemma {:induction false} Sigmas()
    ensures Split(SIGMA1) == Half(0xA09E667F, 0x3BCC908B) && Split(SIGMA2) == Half(0xB67AE858, 0x4CAA73B2)
    ensures Split(SIGMA3) == Half(0xC6EF372F, 0xE94F82BE) && Split(SIGMA4) == Half(0x54FF53A5, 0xF1D36F1C)
    ensures Split(SIGMA5) == Half(0x10E527FA, 0xDE682D1D) && Split(SIGMA6) == Half(0xB05688C2, 0xB3E6C1FD)
  {
  }

  /** Section 2.2: KA from KL and KR, with D1 and D2 as the two halves of a block. */
  ghost function RfcKA(s1: SBox, KL: Block, KR: Block): (ka: Block) {
    var d1, d2 := XorHalf(KL.left, KR.left), XorHalf(KL.right, KR.right);
    var d2' := XorHalf(d2, RfcF(s1, d1, Split(SIGMA1)));
    var d1' := XorHalf(d1, RfcF(s1, d2', Split(SIGMA2)));
    var e1, e2 := XorHalf(d1', KL.left), XorHalf(d2', KL.right);
    var e2' := XorHalf(e2, RfcF(s1, e1, Split(SIGMA3)));
    Block(XorHalf(e1, RfcF(s1, e2', Split(SIGMA4))), e2')
  }

  /** And KB from KA and KR. */
  ghost function RfcKB(s1: SBox, KA: Block, KR: Block): (kb: Block) {
    var d1, d2 := XorHalf(KA.left, KR.left), XorHalf(KA.right, KR.right);
    var d2' := XorHalf(d2, RfcF(s1, d1, Split(SIGMA5)));
    Block(XorHalf(d1, RfcF(s1, d2', Split(SIGMA6))), d2')
  }

  lemma {:induction false} XorCommutes(x: Half, y: Half)
    ensures XorHalf(x, y) == XorHalf(y, x)
  {
  }

  lemma {:induction false} XorNone(x: Half)
    ensures XorHalf(x, Half(0, 0)) == x
  {
  }

  lemma {:induction false} DeriveIsRfc(s1: SBox, kl: Block, kr: Block, ka: Block)
    ensures DeriveA(s1, XorBlock(kr, kl), kl) == RfcKA(s1, kl, kr) && DeriveB(s1, ka, kr) == RfcKB(s1, ka, kr)
  {
    hide XorHalf, RfcF, Round, Split;
    forall x, k ensures Round(s1, x, k) == RfcF(s1, x, k) {
      RoundIsRfcF(s1, x, k);
    }
    XorCommutes(kl.left, kr.left);
    XorCommutes(kl.right, kr.right);
    Sigmas();
  }

  const NO_KEY: Block := Block(Half(0, 0), Half(0, 0))

  lemma {:induction false} DeriveShort(s1: SBox, kl: Block)
    ensures DeriveA(s1, kl, kl) == RfcKA(s1, kl, NO_KEY)
  {
    hide XorHalf, DeriveA, RfcKA;
    XorNone(kl.left);
    XorNone(kl.right);
    XorCommutes(kl.left, Half(0, 0));
    XorCommutes(kl.right, Half(0, 0));
    DeriveIsRfc(s1, kl, NO_KEY, kl);
  }

  // ---------- The parts of the key ----------

  /** KR of section 2.2: nothing, 64 bits and their complement, or 128 bits. */
  function RfcKR(key: seq<bv32>): (kr: Block)
    requires KeySize(key)
  {
    if |key| == 4 then NO_KEY
    else if |key| == 6 then
      var k := Words(key[4], key[5]);
      Block(Split(k), Split(!k))
    else Block(Split(Words(key[4], key[5])), Split(Words(key[6], key[7])))
  }

  lemma {:induction false} ComplementParts(h: bv32, l: bv32)
    ensures Top(!Words(h, l)) == !h && Bottom(!Words(h, l)) == !l
  {
  }

  lemma {:induction false} RightKeyIsRfc(key: seq<bv32>)
    requires |key| == 6 || |key| == 8
    ensures RightKey(key) == RfcKR(key)
  {
    hide Top, Bottom, Words;
    WordParts(key[4], key[5]);
    if |key| == 6 {
      ComplementParts(key[4], key[5]);
    } else {
      WordParts(key[6], key[7]);
    }
  }

  /** A 192-bit key is a 256-bit key whose last 64 bits are the complement of the 64 before. */
  lemma {:induction false} ShorterKey(s1: SBox, w: seq<bv32>)
    requires |w| == 6
    ensures Subkeys(s1, w) == Subkeys(s1, w + [!w[4], !w[5]])
  {
    hide DeriveA, DeriveB, Schedule256;
    var v := w + [!w[4], !w[5]];
    assert LeftKey(v) == LeftKey(w) && RightKey(v) == RightKey(w);
  }

  // ---------- Encryption ----------

  ghost function TwoRounds(s1: SBox, b: Block, k: Pair): (r: Block) {
    var d2 := XorHalf(b.right, RfcF(s1, b.left, k.first));
    Block(XorHalf(b.left, RfcF(s1, d2, k.second)), d2)
  }

  ghost function SixOf(s1: SBox, T: seq<Pair>, g: nat, b: Block): (r: Block)
    requires 4 * g + 4 <= |T|
  {
    TwoRounds(s1, TwoRounds(s1, TwoRounds(s1, b, T[4 * g + 1]), T[4 * g + 2]), T[4 * g + 3])
  }

  /** D1 and D2 before the rounds of group `g`: whitening, or the layer behind the group before. */
  ghost function Arriving(s1: SBox, T: seq<Pair>, g: nat, b: Block): (r: Block)
    requires 4 * g + 4 <= |T|
    decreases g
  {
    var k := T[4 * g];
    if g == 0 then Block(XorHalf(b.left, k.first), XorHalf(b.right, k.second))
    else
      var d := SixOf(s1, T, g - 1, Arriving(s1, T, g - 1, b));
      Block(Split(RfcFL(Join(d.left), Join(k.first))), Split(RfcFLInverse(Join(d.right), Join(k.second))))
  }

  /** Section 2.3 over the table of section 2.2: the ciphertext is D2, whitened with kw3, before D1, with kw4. */
  ghost function RfcEncrypt(s1: SBox, T: seq<Pair>, groups: nat, b: Block): (c: Block)
    requires groups >= 1 && |T| == 4 * groups + 1
  {
    var d := SixOf(s1, T, groups - 1, Arriving(s1, T, groups - 1, b));
    var k := T[4 * groups];
    Block(XorHalf(d.right, k.first), XorHalf(d.left, k.second))
  }

  /** A table of single subkeys in order of use, and the standard's table of pairs: at the end the order is exchanged. */
  ghost predicate SameKeys(K: seq<Half>, T: seq<Pair>, groups: nat) {
    && |T| == 4 * groups + 1 && |K| == 8 * groups + 2
    && (forall q: nat :: q < 4 * groups ==> T[q] == Pair(K[2 * q], K[2 * q + 1]))
    && T[4 * groups] == Pair(K[8 * groups + 1], K[8 * groups])
  }

  lemma {:induction false} SixIsRfc(s1: SBox, K: seq<Half>, T: seq<Pair>, groups: nat, g: nat, b: Block)
    requires SameKeys(K, T, groups) && g < groups
    ensures SixRounds(s1, K, g, b) == SixOf(s1, T, g, b)
  {
    hide XorHalf, RfcF, Round;
    forall x, k ensures Round(s1, x, k) == RfcF(s1, x, k) {
      RoundIsRfcF(s1, x, k);
    }
    assert T[4 * g + 1] == Pair(K[8 * g + 2], K[8 * g + 3]);
    assert T[4 * g + 2] == Pair(K[8 * g + 4], K[8 * g + 5]);
    assert T[4 * g + 3] == Pair(K[8 * g + 6], K[8 * g + 7]);
  }

  lemma {:induction false} LayerIsRfc(b: Block, k: Pair)
    ensures FLLayer(b, k.first, k.second)
            == Block(Split(RfcFL(Join(b.left), Join(k.first))), Split(RfcFLInverse(Join(b.right), Join(k.second))))
  {
    hide FL, FLInverse, RfcFL, RfcFLInverse, Join, Split;
    FLIsRfc(b.left, k.first);
    FLIsRfc(b.right, k.second);
    Joined(FL(b.left, k.first));
    Joined(FLInverse(b.right, k.second));
  }

  lemma {:induction false} EnteringIsRfc(s1: SBox, K: seq<Half>, T: seq<Pair>, groups: nat, g: nat, b: Block)
    requires SameKeys(K, T, groups) && g < groups
    ensures Entering(s1, K, g, b) == Arriving(s1, T, g, b)
    decreases g
  {
    hide SixRounds, SixOf, XorHalf, FLLayer, RfcFL, RfcFLInverse, Split, Join;
    assert T[4 * g] == Pair(K[8 * g], K[8 * g + 1]);
    if g > 0 {
      EnteringIsRfc(s1, K, T, groups, g - 1, b);
      SixIsRfc(s1, K, T, groups, g - 1, Entering(s1, K, g - 1, b));
      LayerIsRfc(SixOf(s1, T, g - 1, Arriving(s1, T, g - 1, b)), T[4 * g]);
    }
  }

  lemma {:induction false} ProcessIsRfc(s1: SBox, K: seq<Half>, T: seq<Pair>, groups: nat, b: Block)
    requires groups >= 1 && SameKeys(K, T, groups)
    ensures Process(s1, K, groups, b) == RfcEncrypt(s1, T, groups, b)
  {
    hide SixRounds, SixOf, XorHalf, Entering, Arriving;
    EnteringIsRfc(s1, K, T, groups, groups - 1, b);
    SixIsRfc(s1, K, T, groups, groups - 1, Entering(s1, K, groups - 1, b));
  }

  /** The whole of section 2.2. */
  ghost function RfcTable(s1: SBox, key: seq<bv32>): (T: seq<Pair>)
    requires KeySize(key)
    ensures |T| == 4 * Rounds(key) + 1
  {
    var kl, kr := LeftKey(key), RfcKR(key);
    var ka := RfcKA(s1, kl, kr);
    if |key| == 4 then
      var KL, KA := Widen(kl), Widen(ka);
      seq(13, q requires 0 <= q < 13 => Rfc128(KL, KA, q))
    else
      var KL, KR, KA, KB := Widen(kl), Widen(kr), Widen(ka), Widen(RfcKB(s1, ka, kr));
      seq(17, q requires 0 <= q < 17 => Rfc256(KL, KR, KA, KB, q))
  }

  lemma {:induction false} PairIn128(KL: Wide, KA: Wide, q: nat)
    requires q < 13
    ensures Schedule128(KL, KA)[2 * q] == Pair128(KL, KA, q).first
    ensures Schedule128(KL, KA)[2 * q + 1] == Pair128(KL, KA, q).second
  {
    hide Pair128;
  }

  lemma {:induction false} PairIn256(KL: Wide, KR: Wide, KA: Wide, KB: Wide, q: nat)
    requires q < 17
    ensures Schedule256(KL, KR, KA, KB)[2 * q] == Pair256(KL, KR, KA, KB, q).first
    ensures Schedule256(KL, KR, KA, KB)[2 * q + 1] == Pair256(KL, KR, KA, KB, q).second
  {
    hide Pair256;
  }

  lemma {:induction false} Same128(KL: Wide, KA: Wide)
    ensures SameKeys(Schedule128(KL, KA), seq(13, q requires 0 <= q < 13 => Rfc128(KL, KA, q)), 3)
  {
    hide Pair128, Rfc128, Schedule128;
    forall q: nat | q < 13
      ensures var r, K := Rfc128(KL, KA, q), Schedule128(KL, KA);
              if q < 12 then r == Pair(K[2 * q], K[2 * q + 1]) else r == Pair(K[2 * q + 1], K[2 * q])
    {
      Table128(KL, KA, q);
      PairIn128(KL, KA, q);
    }
  }

  lemma {:induction false} Same256(KL: Wide, KR: Wide, KA: Wide, KB: Wide)
    ensures SameKeys(Schedule256(KL, KR, KA, KB), seq(17, q requires 0 <= q < 17 => Rfc256(KL, KR, KA, KB, q)), 4)
  {
    hide Pair256, Rfc256, Schedule256;
    forall q: nat | q < 17
      ensures var r, K := Rfc256(KL, KR, KA, KB, q), Schedule256(KL, KR, KA, KB);
              if q < 16 then r == Pair(K[2 * q], K[2 * q + 1]) else r == Pair(K[2 * q + 1], K[2 * q])
    {
      Table256(KL, KR, KA, KB, q);
      PairIn256(KL, KR, KA, KB, q);
    }
  }

  /** The subkeys are those of the standard, for all three key sizes. */
  lemma {:induction false} SubkeysAreRfc(s1: SBox, key: seq<bv32>)
    requires KeySize(key)
    ensures SameKeys(Subkeys(s1, key), RfcTable(s1, key), Rounds(key))
  {
    hide SameKeys, Schedule128, Schedule256, DeriveA, DeriveB, RfcKA, RfcKB, Widen, RightKey, RfcKR, LeftKey;
    hide Rfc128, Rfc256;
    var kl := LeftKey(key);
    if |key| == 4 {
      assert RfcKR(key) == NO_KEY by { NoRightKey(key); }
      DeriveShort(s1, kl);
      Same128(Widen(kl), Widen(RfcKA(s1, kl, NO_KEY)));
    } else {
      var kr := RfcKR(key);
      var ka := RfcKA(s1, kl, kr);
      RightKeyIsRfc(key);
      DeriveIsRfc(s1, kl, kr, ka);
      Same256(Widen(kl), Widen(kr), Widen(ka), Widen(RfcKB(s1, ka, kr)));
    }
  }

  lemma {:induction false} NoRightKey(key: seq<bv32>)
    requires |key| == 4
    ensures RfcKR(key) == NO_KEY
  {
  }

  /** Encryption with the subkeys of a key is encryption as RFC 3713 writes it down. */
  lemma {:induction false} EncryptionIsRfc(s1: SBox, key: seq<bv32>, b: Block)
    requires KeySize(key)
    ensures Process(s1, Subkeys(s1, key), Rounds(key), b) == RfcEncrypt(s1, RfcTable(s1, key), Rounds(key), b)
  {
    hide SameKeys, Subkeys, RfcTable, Process, RfcEncrypt;
    SubkeysAreRfc(s1, key);
    ProcessIsRfc(s1, Subkeys(s1, key), RfcTable(s1, key), Rounds(key), b);
  }
}
