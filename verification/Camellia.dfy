/** Camellia (RFC 3713): the order of rounds in `camellia.cpp`, and that reversed subkeys undo it. */
module Camellia {
  import opened CamelliaRounds

  datatype Block = Block(left: Half, right: Half)

  function Swap(b: Block): (r: Block) {
    Block(b.right, b.left)
  }

  lemma {:induction false} Xor32Twice(x: bv32, y: bv32)
    ensures Xor32(Xor32(x, y), y) == x
  {
  }

  lemma {:induction false} XorHalfTwice(x: Half, y: Half)
    ensures XorHalf(XorHalf(x, y), y) == x
  {
    hide Xor32;
    Xor32Twice(x.h, y.h);
    Xor32Twice(x.l, y.l);
  }

  /** `FL` on the left half. */
  function FL(x: Half, k: Half): (r: Half) {
    var l := Xor32(x.l, Rotl(And32(x.h, k.h), 1));
    Half(Xor32(x.h, Or32(l, k.l)), l)
  }

  /** `FL` on the right half. */
  function FLInverse(y: Half, k: Half): (r: Half) {
    var h := Xor32(y.h, Or32(y.l, k.l));
    Half(h, Xor32(y.l, Rotl(And32(h, k.h), 1)))
  }

  lemma {:induction false} FLInverts(x: Half, k: Half)
    ensures FLInverse(FL(x, k), k) == x && FL(FLInverse(x, k), k) == x
  {
    hide Xor32, And32, Or32, Rotl;
    var l := Xor32(x.l, Rotl(And32(x.h, k.h), 1));
    Xor32Twice(x.h, Or32(l, k.l));
    Xor32Twice(x.l, Rotl(And32(x.h, k.h), 1));
    var h := Xor32(x.h, Or32(x.l, k.l));
    Xor32Twice(x.l, Rotl(And32(h, k.h), 1));
    Xor32Twice(x.h, Or32(x.l, k.l));
  }

  /** `DOUBLE_ROUND`. */
  function DoubleRound(s1: SBox, b: Block, k0: Half, k1: Half): (r: Block) {
    var right := XorHalf(b.right, Round(s1, b.left, k0));
    Block(XorHalf(b.left, Round(s1, right, k1)), right)
  }

  function Whiten(b: Block, k0: Half, k1: Half): (r: Block) {
    Block(XorHalf(b.left, k0), XorHalf(b.right, k1))
  }

  function FLLayer(b: Block, k0: Half, k1: Half): (r: Block) {
    Block(FL(b.left, k0), FLInverse(b.right, k1))
  }

  lemma {:induction false} DoubleRoundInverts(s1: SBox, b: Block, k0: Half, k1: Half)
    ensures DoubleRound(s1, Swap(DoubleRound(s1, b, k0, k1)), k1, k0) == Swap(b)
  {
    hide Round, XorHalf;
    var right := XorHalf(b.right, Round(s1, b.left, k0));
    XorHalfTwice(b.left, Round(s1, right, k1));
    XorHalfTwice(b.right, Round(s1, b.left, k0));
  }

  lemma {:induction false} WhitenInverts(b: Block, k0: Half, k1: Half)
    ensures Whiten(Swap(Whiten(b, k0, k1)), k1, k0) == Swap(b)
  {
    hide XorHalf;
    XorHalfTwice(b.left, k0);
    XorHalfTwice(b.right, k1);
  }

  lemma {:induction false} FLLayerInverts(b: Block, k0: Half, k1: Half)
    ensures FLLayer(Swap(FLLayer(b, k0, k1)), k1, k0) == Swap(b)
  {
    hide FL, FLInverse;
    FLInverts(b.left, k0);
    FLInverts(b.right, k1);
  }

  /** The six rounds of group `i`; every group has its layer's two subkeys first. */
  function SixRounds(s1: SBox, K: seq<Half>, i: nat, b: Block): (r: Block)
    requires 8 * i + 8 <= |K|
  {
    DoubleRound(s1, DoubleRound(s1, DoubleRound(s1, b, K[8 * i + 2], K[8 * i + 3]), K[8 * i + 4], K[8 * i + 5]),
                K[8 * i + 6], K[8 * i + 7])
  }

  /** The state before the rounds of group `i`. */
  function Entering(s1: SBox, K: seq<Half>, i: nat, b: Block): (r: Block)
    requires 8 * i + 8 <= |K|
    decreases i
  {
    if i == 0 then Whiten(b, K[0], K[1])
    else FLLayer(SixRounds(s1, K, i - 1, Entering(s1, K, i - 1, b)), K[8 * i], K[8 * i + 1])
  }

  /**
   Section 2.3 of RFC 3713: groups of six rounds between layers, whitening at both ends, halves swapped at the end.
   */
  function Process(s1: SBox, K: seq<Half>, rounds: nat, b: Block): (r: Block)
    requires rounds >= 1 && |K| == 8 * rounds + 2
  {
    Swap(Whiten(SixRounds(s1, K, rounds - 1, Entering(s1, K, rounds - 1, b)), K[8 * rounds], K[8 * rounds + 1]))
  }

  function Reversed(K: seq<Half>): (r: seq<Half>)
    ensures |r| == |K| && forall p :: 0 <= p < |K| ==> r[p] == K[|K| - 1 - p]
  {
    seq(|K|, p requires 0 <= p < |K| => K[|K| - 1 - p])
  }

  lemma {:induction false} SixRoundsInvert(s1: SBox, K: seq<Half>, rounds: nat, i: nat, b: Block)
    requires |K| == 8 * rounds + 2 && i < rounds
    ensures SixRounds(s1, Reversed(K), i, Swap(SixRounds(s1, K, rounds - 1 - i, b))) == Swap(b)
  {
    hide DoubleRound;
    var j := 8 * (rounds - 1 - i);
    var b1 := DoubleRound(s1, b, K[j + 2], K[j + 3]);
    var b2 := DoubleRound(s1, b1, K[j + 4], K[j + 5]);
    DoubleRoundInverts(s1, b, K[j + 2], K[j + 3]);
    DoubleRoundInverts(s1, b1, K[j + 4], K[j + 5]);
    DoubleRoundInverts(s1, b2, K[j + 6], K[j + 7]);
  }

  /** Group by group, decryption is in the mirrored state of encryption. */
  lemma {:induction false} Mirrored(s1: SBox, K: seq<Half>, rounds: nat, i: nat, b: Block)
    requires |K| == 8 * rounds + 2 && i < rounds
    ensures SixRounds(s1, Reversed(K), i, Entering(s1, Reversed(K), i, Process(s1, K, rounds, b)))
            == Swap(Entering(s1, K, rounds - 1 - i, b))
    decreases i
  {
    hide SixRounds, Whiten, FLLayer;
    var j := rounds - 1 - i;
    SixRoundsInvert(s1, K, rounds, i, Entering(s1, K, j, b));
    var s := SixRounds(s1, K, j, Entering(s1, K, j, b));
    if i == 0 {
      WhitenInverts(s, K[8 * rounds], K[8 * rounds + 1]);
    } else {
      Mirrored(s1, K, rounds, i - 1, b);
      FLLayerInverts(s, K[8 * (j + 1)], K[8 * (j + 1) + 1]);
    }
  }

  /** Processing with the reversed subkeys undoes processing, for every table of subkeys and every block. */
  lemma {:induction false} ReversedInverts(s1: SBox, K: seq<Half>, rounds: nat, b: Block)
    requires rounds >= 1 && |K| == 8 * rounds + 2
    ensures Process(s1, Reversed(K), rounds, Process(s1, K, rounds, b)) == b
  {
    hide SixRounds, Whiten;
    Mirrored(s1, K, rounds, rounds - 1, b);
    FirstGroup(s1, K, b);
    WhitenInverts(b, K[0], K[1]);
  }

  lemma {:induction false} FirstGroup(s1: SBox, K: seq<Half>, b: Block)
    requires |K| >= 8
    ensures Entering(s1, K, 0, b) == Whiten(b, K[0], K[1])
  {
  }
}
