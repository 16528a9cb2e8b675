/** The key schedule and the block function of `camellia.cpp`, with the subkey table in memory order. */
module CamelliaKeys {
  import opened CamelliaRounds
  import opened Camellia

  /** A 128-bit intermediate key as two 64-bit words. */
  datatype Wide = Wide(l: bv64, r: bv64)

  function Top(x: bv64): (r: bv32) { (x >> 32) as bv32 }
  function Bottom(x: bv64): (r: bv32) { (x & 0xffff_ffff) as bv32 }
  function Words(h: bv32, l: bv32): (r: bv64) { ((h as bv64) << 32) | (l as bv64) }
  function Join(x: Half): (r: bv64) { Words(x.h, x.l) }
  function Split(v: bv64): (r: Half) { Half(Top(v), Bottom(v)) }
  function Widen(b: Block): (r: Wide) { Wide(Join(b.left), Join(b.right)) }

  /** The top word of two, shifted; the amounts that occur are written out. */
  function Shifted(hi: bv64, lo: bv64, n: nat): (r: bv64)
    requires 0 < n < 64
  {
    match n
    case 13 => (hi << 13) | (lo >> 51)
    case 15 => (hi << 15) | (lo >> 49)
    case 30 => (hi << 30) | (lo >> 34)
    case 45 => (hi << 45) | (lo >> 19)
    case 47 => (hi << 47) | (lo >> 17)
    case 60 => (hi << 60) | (lo >> 4)
    case _ => (hi << n) | (lo >> (64 - n))
  }

  /** The left word of a 128-bit key rotated left by `n`. */
  function RotatedLeft(k: Wide, n: nat): (r: bv64)
    requires n < 128 && n != 64
  {
    if n == 0 then k.l else if n < 64 then Shifted(k.l, k.r, n) else Shifted(k.r, k.l, n - 64)
  }

  /** The right word is the left word of the key with its words exchanged. */
  function RotatedRight(k: Wide, n: nat): (r: bv64)
    requires n < 128 && n != 64
  {
    RotatedLeft(Wide(k.r, k.l), n)
  }

  function L(k: Wide, n: nat): (r: Half)
    requires n < 128 && n != 64
  {
    Split(RotatedLeft(k, n))
  }

  function R(k: Wide, n: nat): (r: Half)
    requires n < 128 && n != 64
  {
    Split(RotatedRight(k, n))
  }

  /** Two consecutive subkeys. */
  datatype Pair = Pair(first: Half, second: Half)

  /** Both words of one rotated key. */
  ghost function LR(k: Wide, n: nat): (r: Pair)
    requires n < 128 && n != 64
  {
    Pair(L(k, n), R(k, n))
  }

  ghost function Unpaired(P: seq<Pair>): (K: seq<Half>)
    ensures |K| == 2 * |P|
  {
    seq(2 * |P|, p requires 0 <= p < 2 * |P| => if p % 2 == 0 then P[p / 2].first else P[p / 2].second)
  }

  /** Subkeys for 128-bit keys, section 2.2 of RFC 3713, in order of use; the last two whiten right and left. */
  ghost function Pair128(KL: Wide, KA: Wide, q: nat): (r: Pair)
    requires q < 13
  {
    match q
    case 0 => LR(KL, 0)
    case 1 => LR(KA, 0)
    case 2 => LR(KL, 15)
    case 3 => LR(KA, 15)
    case 4 => LR(KA, 30)
    case 5 => LR(KL, 45)
    case 6 => Pair(L(KA, 45), R(KL, 60))
    case 7 => LR(KA, 60)
    case 8 => LR(KL, 77)
    case 9 => LR(KL, 94)
    case 10 => LR(KA, 94)
    case 11 => LR(KL, 111)
    case 12 => Pair(R(KA, 111), L(KA, 111))
  }

  ghost function Pairs128(KL: Wide, KA: Wide): (P: seq<Pair>)
    ensures |P| == 13
  {
    seq(13, q requires 0 <= q < 13 => Pair128(KL, KA, q))
  }

  ghost function Schedule128(KL: Wide, KA: Wide): (K: seq<Half>)
    ensures |K| == 26
  {
    Unpaired(Pairs128(KL, KA))
  }

  /** Subkeys for 192-bit and 256-bit keys. */
  ghost function Pair256(KL: Wide, KR: Wide, KA: Wide, KB: Wide, q: nat): (r: Pair)
    requires q < 17
  {
    match q
    case 0 => LR(KL, 0)
    case 1 => LR(KB, 0)
    case 2 => LR(KR, 15)
    case 3 => LR(KA, 15)
    case 4 => LR(KR, 30)
    case 5 => LR(KB, 30)
    case 6 => LR(KL, 45)
    case 7 => LR(KA, 45)
    case 8 => LR(KL, 60)
    case 9 => LR(KR, 60)
    case 10 => LR(KB, 60)
    case 11 => LR(KL, 77)
    case 12 => LR(KA, 77)
    case 13 => LR(KR, 94)
    case 14 => LR(KA, 94)
    case 15 => LR(KL, 111)
    case 16 => Pair(R(KB, 111), L(KB, 111))
  }

  ghost function Pairs256(KL: Wide, KR: Wide, KA: Wide, KB: Wide): (P: seq<Pair>)
    ensures |P| == 17
  {
    seq(17, q requires 0 <= q < 17 => Pair256(KL, KR, KA, KB, q))
  }

  ghost function Schedule256(KL: Wide, KR: Wide, KA: Wide, KB: Wide): (K: seq<Half>)
    ensures |K| == 34
  {
    Unpaired(Pairs256(KL, KR, KA, KB))
  }

  function XorBlock(a: Block, b: Block): (r: Block) {
    Block(XorHalf(a.left, b.left), XorHalf(a.right, b.right))
  }

  /** Two rounds with constants, the key mixed in again, two more rounds. */
  function DeriveA(s1: SBox, start: Block, kl: Block): (ka: Block) {
    var k := DoubleRound(s1, start, Half(0xA09E667F, 0x3BCC908B), Half(0xB67AE858, 0x4CAA73B2));
    DoubleRound(s1, XorBlock(k, kl), Half(0xC6EF372F, 0xE94F82BE), Half(0x54FF53A5, 0xF1D36F1C))
  }

  function DeriveB(s1: SBox, ka: Block, kr: Block): (kb: Block) {
    DoubleRound(s1, XorBlock(ka, kr), Half(0x10E527FA, 0xDE682D1D), Half(0xB05688C2, 0xB3E6C1FD))
  }

  /** The second half of the key: 64 bits and their complement, or 128 bits. */
  function RightKey(key: seq<bv32>): (kr: Block)
    requires |key| == 6 || |key| == 8
  {
    if |key| == 6 then Block(Half(key[4], key[5]), Half(!key[4], !key[5]))
    else Block(Half(key[4], key[5]), Half(key[6], key[7]))
  }

  function LeftKey(key: seq<bv32>): (kl: Block)
    requires |key| >= 4
  {
    Block(Half(key[0], key[1]), Half(key[2], key[3]))
  }

  predicate KeySize(key: seq<bv32>) {
    |key| == 4 || |key| == 6 || |key| == 8
  }

  function Rounds(key: seq<bv32>): (r: nat)
    requires KeySize(key)
  {
    if |key| >= 6 then 4 else 3
  }

  /** The subkeys of a key of 4, 6 or 8 words, in the order encryption uses them. */
  ghost function Subkeys(s1: SBox, key: seq<bv32>): (K: seq<Half>)
    requires KeySize(key)
    ensures |K| == 8 * Rounds(key) + 2
  {
    var kl := LeftKey(key);
    if |key| == 4 then Schedule128(Widen(kl), Widen(DeriveA(s1, kl, kl)))
    else
      var kr := RightKey(key);
      var ka := DeriveA(s1, XorBlock(kr, kl), kl);
      Schedule256(Widen(kl), Widen(kr), Widen(ka), Widen(DeriveB(s1, ka, kr)))
  }

  /** `EFI`: index of a 64-bit word in a pair, and of a 32-bit word in a 64-bit word, by byte order of the host. */
  function Efi(little: bool, i: nat): (r: nat)
    requires i < 2
    ensures r < 2
  {
    if little then 1 - i else i
  }

  /** Where the 64-bit subkey number `p` is read. */
  function Place(little: bool, p: nat): (r: nat)
    ensures forall n :: p < 2 * n ==> r < 2 * n
  {
    p - p % 2 + Efi(little, p % 2)
  }

  lemma {:induction false} PlaceOf(little: bool, q: nat, h: nat)
    requires h < 2
    ensures Place(little, 2 * q + h) == 2 * q + Efi(little, h)
  {
  }

  /** Where it is written; the table of a decryption object is written from its end. */
  function Address(little: bool, forward: bool, n: nat, p: nat): (r: int)
  {
    if forward then Place(little, p) else n - 1 - Place(little, p)
  }

  lemma {:induction false} InTable(little: bool, forward: bool, n: nat, p: nat)
    requires n % 2 == 0 && p < n
    ensures 0 <= Address(little, forward, n, p) < n
  {
  }

  lemma {:induction false} Apart(little: bool, forward: bool, n: nat, p: nat, p': nat)
    ensures Address(little, forward, n, p) == Address(little, forward, n, p') <==> p == p'
  {
  }

  /** The 64-bit word at index `q` of a table of 32-bit words. */
  ghost function At(little: bool, m: seq<bv32>, q: nat): (r: Half)
    requires 2 * q + 1 < |m|
  {
    Half(m[2 * q + Efi(little, 0)], m[2 * q + Efi(little, 1)])
  }

  ghost predicate Sized(m: seq<bv32>, n: nat) {
    n % 2 == 0 && |m| == 2 * n
  }

  /** The subkey the block function reads as number `p`. */
  ghost function ReadAs(little: bool, m: seq<bv32>, n: nat, p: nat): (r: Half)
    requires Sized(m, n) && p < n
  {
    InTable(little, true, n, p);
    At(little, m, Place(little, p))
  }

  /** The subkey written under number `p`. */
  ghost function WrittenAs(little: bool, forward: bool, m: seq<bv32>, n: nat, p: nat): (r: Half)
    requires Sized(m, n) && p < n
  {
    InTable(little, forward, n, p);
    At(little, m, Address(little, forward, n, p))
  }

  ghost function Table(little: bool, m: seq<bv32>, n: nat): (K: seq<Half>)
    requires Sized(m, n)
    ensures |K| == n
  {
    seq(n, p requires 0 <= p < n => ReadAs(little, m, n, p))
  }

  ghost function Written(little: bool, forward: bool, m: seq<bv32>, n: nat): (K: seq<Half>)
    requires Sized(m, n)
    ensures |K| == n
  {
    seq(n, p requires 0 <= p < n => WrittenAs(little, forward, m, n, p))
  }

  /** An encryption table is read as written, a decryption table in reverse, 64-bit word by 64-bit word. */
  lemma {:induction false} TableOrder(little: bool, forward: bool, m: seq<bv32>, n: nat)
    requires Sized(m, n)
    ensures Table(little, m, n)
            == if forward then Written(little, forward, m, n) else Reversed(Written(little, forward, m, n))
  {
    hide At;
    forall p | 0 <= p < n
      ensures ReadAs(little, m, n, p) == WrittenAs(little, forward, m, n, if forward then p else n - 1 - p)
    {
      SamePlace(little, n, p);
    }
  }

  lemma {:induction false} SamePlace(little: bool, n: nat, p: nat)
    requires n % 2 == 0 && p < n
    ensures Address(little, true, n, p) == Place(little, p) == Address(little, false, n, n - 1 - p)
  {
  }

  /** Storing a 64-bit word replaces one subkey and no other. */
  lemma {:induction false} StoreOne(little: bool, forward: bool, m: seq<bv32>, n: nat, p: nat, x: Half)
    requires Sized(m, n) && p < n
    ensures var q := Address(little, forward, n, p);
            && 0 <= q < n
            && Written(little, forward, m[2 * q + Efi(little, 0) := x.h][2 * q + Efi(little, 1) := x.l], n)
               == Written(little, forward, m, n)[p := x]
  {
    hide Address;
    InTable(little, forward, n, p);
    var q := Address(little, forward, n, p);
    var m' := m[2 * q + Efi(little, 0) := x.h][2 * q + Efi(little, 1) := x.l];
    forall p' | 0 <= p' < n
      ensures WrittenAs(little, forward, m', n, p') == if p' == p then x else WrittenAs(little, forward, m, n, p')
    {
      InTable(little, forward, n, p');
      Apart(little, forward, n, p, p');
    }
  }

  /** Both words of a rotated key stored at `i` and `i + 1`. */
  ghost function Put(K: seq<Half>, i: nat, k: Wide, n: nat): (r: seq<Half>)
    requires i + 1 < |K| && n < 128 && n != 64
    ensures |r| == |K|
  {
    K[i := L(k, n)][i + 1 := R(k, n)]
  }

  ghost function PutKL128(K: seq<Half>, kl: Wide): (r: seq<Half>)
    requires |K| == 26
    ensures |r| == 26
  {
    Put(Put(Put(Put(Put(Put(K, 0, kl, 0), 4, kl, 15), 10, kl, 45)[13 := R(kl, 60)], 16, kl, 77), 18, kl, 94), 22, kl, 111)
  }

  ghost function PutKA128(K: seq<Half>, ka: Wide): (r: seq<Half>)
    requires |K| == 26
    ensures |r| == 26
  {
    Put(Put(Put(Put(Put(Put(K, 2, ka, 0), 6, ka, 15), 8, ka, 30)[12 := L(ka, 45)], 14, ka, 60), 20, ka, 94), 24, ka, 47)
  }

  /** Rotations by 47 and by 111 differ by an exchange of words. */
  lemma {:induction false} HalfTurn(k: Wide)
    ensures L(k, 47) == R(k, 111) && R(k, 47) == L(k, 111)
  {
    hide Split, Shifted;
  }

  ghost function PutKL256(K: seq<Half>, kl: Wide): (r: seq<Half>)
    requires |K| == 34
    ensures |r| == 34
  {
    Put(Put(Put(Put(Put(K, 0, kl, 0), 12, kl, 45), 16, kl, 60), 22, kl, 77), 30, kl, 111)
  }

  ghost function PutKR256(K: seq<Half>, kr: Wide): (r: seq<Half>)
    requires |K| == 34
    ensures |r| == 34
  {
    Put(Put(Put(Put(K, 4, kr, 15), 8, kr, 30), 18, kr, 60), 26, kr, 94)
  }

  ghost function PutKA256(K: seq<Half>, ka: Wide): (r: seq<Half>)
    requires |K| == 34
    ensures |r| == 34
  {
    Put(Put(Put(Put(K, 6, ka, 15), 14, ka, 45), 24, ka, 77), 28, ka, 94)
  }

  ghost function PutKB256(K: seq<Half>, kb: Wide): (r: seq<Half>)
    requires |K| == 34
    ensures |r| == 34
  {
    Put(Put(Put(Put(K, 2, kb, 0), 10, kb, 30), 20, kb, 60), 32, kb, 47)
  }

  ghost function Pairs(K: seq<Half>): (P: seq<Pair>)
    ensures |P| == |K| / 2
  {
    seq(|K| / 2, j requires 0 <= j < |K| / 2 => Pair(K[2 * j], K[2 * j + 1]))
  }

  lemma {:induction false} PutPairs(K: seq<Half>, j: nat, k: Wide, n: nat)
    requires 2 * j + 1 < |K| && n < 128 && n != 64
    ensures Pairs(Put(K, 2 * j, k, n)) == Pairs(K)[j := LR(k, n)]
  {
    hide L, R;
  }

  lemma {:induction false} SamePairs(K: seq<Half>, K': seq<Half>)
    requires |K| == |K'| && |K| % 2 == 0 && Pairs(K) == Pairs(K')
    ensures K == K'
  {
    forall p | 0 <= p < |K| ensures K[p] == K'[p] {
      assert Pairs(K)[p / 2] == Pairs(K')[p / 2];
    }
  }

  lemma {:induction false} PairsKL(K: seq<Half>, kl: Wide)
    requires |K| == 34
    ensures Pairs(PutKL256(K, kl))
            == Pairs(K)[0 := LR(kl, 0)][6 := LR(kl, 45)][8 := LR(kl, 60)][11 := LR(kl, 77)][15 := LR(kl, 111)]
  {
    hide Pairs, Put, LR;
    PutPairs(K, 0, kl, 0);
    PutPairs(Put(K, 0, kl, 0), 6, kl, 45);
    PutPairs(Put(Put(K, 0, kl, 0), 12, kl, 45), 8, kl, 60);
    PutPairs(Put(Put(Put(K, 0, kl, 0), 12, kl, 45), 16, kl, 60), 11, kl, 77);
    PutPairs(Put(Put(Put(Put(K, 0, kl, 0), 12, kl, 45), 16, kl, 60), 22, kl, 77), 15, kl, 111);
  }

  lemma {:induction false} PairsKR(K: seq<Half>, kr: Wide)
    requires |K| == 34
    ensures Pairs(PutKR256(K, kr)) == Pairs(K)[2 := LR(kr, 15)][4 := LR(kr, 30)][9 := LR(kr, 60)][13 := LR(kr, 94)]
  {
    hide Pairs, Put, LR;
    PutPairs(K, 2, kr, 15);
    PutPairs(Put(K, 4, kr, 15), 4, kr, 30);
    PutPairs(Put(Put(K, 4, kr, 15), 8, kr, 30), 9, kr, 60);
    PutPairs(Put(Put(Put(K, 4, kr, 15), 8, kr, 30), 18, kr, 60), 13, kr, 94);
  }

  lemma {:induction false} PairsKA(K: seq<Half>, ka: Wide)
    requires |K| == 34
    ensures Pairs(PutKA256(K, ka)) == Pairs(K)[3 := LR(ka, 15)][7 := LR(ka, 45)][12 := LR(ka, 77)][14 := LR(ka, 94)]
  {
    hide Pairs, Put, LR;
    PutPairs(K, 3, ka, 15);
    PutPairs(Put(K, 6, ka, 15), 7, ka, 45);
    PutPairs(Put(Put(K, 6, ka, 15), 14, ka, 45), 12, ka, 77);
    PutPairs(Put(Put(Put(K, 6, ka, 15), 14, ka, 45), 24, ka, 77), 14, ka, 94);
  }

  lemma {:induction false} PairsKB(K: seq<Half>, kb: Wide)
    requires |K| == 34
    ensures Pairs(PutKB256(K, kb)) == Pairs(K)[1 := LR(kb, 0)][5 := LR(kb, 30)][10 := LR(kb, 60)][16 := LR(kb, 47)]
  {
    hide Pairs, Put, LR;
    PutPairs(K, 1, kb, 0);
    PutPairs(Put(K, 2, kb, 0), 5, kb, 30);
    PutPairs(Put(Put(K, 2, kb, 0), 10, kb, 30), 10, kb, 60);
    PutPairs(Put(Put(Put(K, 2, kb, 0), 10, kb, 30), 20, kb, 60), 16, kb, 47);
  }

  lemma {:induction false} PairsUnpaired(P: seq<Pair>)
    ensures Pairs(Unpaired(P)) == P
  {
  }

  lemma {:induction false} PairsKL128(K: seq<Half>, kl: Wide)
    requires |K| == 26
    ensures Pairs(PutKL128(K, kl)) == Pairs(K)[0 := LR(kl, 0)][2 := LR(kl, 15)][5 := LR(kl, 45)]
                                      [6 := Pair(K[12], R(kl, 60))][8 := LR(kl, 77)][9 := LR(kl, 94)][11 := LR(kl, 111)]
  {
    hide Pairs, Put, LR, L, R;
    PutPairs(K, 0, kl, 0);
    var K1 := Put(K, 0, kl, 0);
    PutPairs(K1, 2, kl, 15);
    var K2 := Put(K1, 4, kl, 15);
    PutPairs(K2, 5, kl, 45);
    var K3 := Put(K2, 10, kl, 45);
    PutSecond(K3, 6, R(kl, 60));
    PutElsewhere(K, 0, kl, 0, 12);
    PutElsewhere(K1, 4, kl, 15, 12);
    PutElsewhere(K2, 10, kl, 45, 12);
    var K4 := K3[13 := R(kl, 60)];
    PutPairs(K4, 8, kl, 77);
    var K5 := Put(K4, 16, kl, 77);
    PutPairs(K5, 9, kl, 94);
    PutPairs(Put(K5, 18, kl, 94), 11, kl, 111);
  }

  lemma {:induction false} PairsKA128(K: seq<Half>, ka: Wide)
    requires |K| == 26
    ensures Pairs(PutKA128(K, ka)) == Pairs(K)[1 := LR(ka, 0)][3 := LR(ka, 15)][4 := LR(ka, 30)]
                                      [6 := Pair(L(ka, 45), Pairs(K)[6].second)][7 := LR(ka, 60)][10 := LR(ka, 94)][12 := LR(ka, 47)]
  {
    hide Pairs, Put, LR, L, R;
    PutPairs(K, 1, ka, 0);
    var K1 := Put(K, 2, ka, 0);
    PutPairs(K1, 3, ka, 15);
    var K2 := Put(K1, 6, ka, 15);
    PutPairs(K2, 4, ka, 30);
    var K3 := Put(K2, 8, ka, 30);
    PutFirst(K3, 6, L(ka, 45));
    var K4 := K3[12 := L(ka, 45)];
    PutPairs(K4, 7, ka, 60);
    var K5 := Put(K4, 14, ka, 60);
    PutPairs(K5, 10, ka, 94);
    PutPairs(Put(K5, 20, ka, 94), 12, ka, 47);
  }

  lemma {:induction false} PutElsewhere(K: seq<Half>, i: nat, k: Wide, n: nat, p: nat)
    requires i + 1 < |K| && n < 128 && n != 64 && p < |K| && p != i && p != i + 1
    ensures Put(K, i, k, n)[p] == K[p]
  {
    hide L, R;
  }

  lemma {:induction false} PutFirst(K: seq<Half>, j: nat, x: Half)
    requires 2 * j + 1 < |K|
    ensures Pairs(K[2 * j := x]) == Pairs(K)[j := Pair(x, Pairs(K)[j].second)]
  {
  }

  lemma {:induction false} PutSecond(K: seq<Half>, j: nat, y: Half)
    requires 2 * j + 1 < |K|
    ensures Pairs(K[2 * j + 1 := y]) == Pairs(K)[j := Pair(K[2 * j], y)]
  {
  }

  /** Every slot is written, with the subkey that belongs there. */
  lemma {:induction false} Complete128(K: seq<Half>, kl: Wide, ka: Wide)
    requires |K| == 26
    ensures PutKA128(PutKL128(K, kl), ka) == Schedule128(kl, ka)
  {
    hide L, R, LR, Put, Pairs, PutKL128, PutKA128, Unpaired;
    PairsKL128(K, kl);
    PairsKA128(PutKL128(K, kl), ka);
    HalfTurnPair(ka);
    var P := Pairs128(kl, ka);
    PairsUnpaired(P);
    SamePairs(PutKA128(PutKL128(K, kl), ka), Unpaired(P));
  }

  lemma {:induction false} HalfTurnPair(k: Wide)
    ensures LR(k, 47) == Pair(R(k, 111), L(k, 111))
  {
    hide L, R;
    HalfTurn(k);
  }

  lemma {:induction false} Complete256(K: seq<Half>, kl: Wide, kr: Wide, ka: Wide, kb: Wide)
    requires |K| == 34
    ensures PutKB256(PutKA256(PutKR256(PutKL256(K, kl), kr), ka), kb) == Schedule256(kl, kr, ka, kb)
  {
    hide Put, L, R, LR, Pairs, PutKL256, PutKR256, PutKA256, PutKB256, Unpaired;
    var K1 := PutKL256(K, kl);
    var K2 := PutKR256(K1, kr);
    var K3 := PutKA256(K2, ka);
    PairsKL(K, kl);
    PairsKR(K1, kr);
    PairsKA(K2, ka);
    PairsKB(K3, kb);
    HalfTurnPair(kb);
    var P := Pairs256(kl, kr, ka, kb);
    PairsUnpaired(P);
    SamePairs(PutKB256(K3, kb), Unpaired(P));
  }

  class Base {
    const s1: SBox
    const little: bool
    const forward: bool
    var rounds: nat
    var key: array<bv32>

    constructor (s1: SBox, little: bool, forward: bool)
      ensures this.s1 == s1 && this.little == little && this.forward == forward
    {
      this.s1, this.little, this.forward := s1, little, forward;
      rounds, key := 0, new bv32[0];
    }

    ghost predicate Valid()
      reads this, key
    {
      rounds >= 1 && Sized(key[..], 8 * rounds + 2)
    }

    ghost function Numbered(): (K: seq<Half>)
      requires Valid()
      reads this, key
      ensures |K| == 8 * rounds + 2
    {
      Written(little, forward, key[..], 8 * rounds + 2)
    }

    method Store(p: nat, v: bv64)
      requires Valid() && p < 8 * rounds + 2
      modifies key
      ensures Valid() && Numbered() == old(Numbered())[p := Split(v)]
    {
      hide Split, Written;
      ghost var m := key[..];
      StoreOne(little, forward, m, 8 * rounds + 2, p, Split(v));
      var q := Address(little, forward, 8 * rounds + 2, p);
      key[2 * q + Efi(little, 0)] := Split(v).h;
      key[2 * q + Efi(little, 1)] := Split(v).l;
      assert key[..] == m[2 * q + Efi(little, 0) := Split(v).h][2 * q + Efi(little, 1) := Split(v).l];
    }

    /** `KS_ROUND_0`. */
    method KsRound0(i: nat, kw: Wide)
      requires Valid() && i + 1 < 8 * rounds + 2
      modifies key
      ensures Valid() && Numbered() == Put(old(Numbered()), i, kw, 0)
    {
      hide Numbered, Split;
      Store(i, kw.l);
      Store(i + 1, kw.r);
    }

    /** `KS_ROUND`: bit 0 of `which` asks for the left word, bit 1 for the right. */
    method KsRound(i: nat, n: nat, which: nat, kw: Wide)
      requires Valid() && i + 1 < 8 * rounds + 2 && 0 < n < 128 && n != 64 && 1 <= which <= 3
      modifies key
      ensures Valid()
      ensures which == 1 ==> Numbered() == old(Numbered())[i := L(kw, n)]
      ensures which == 2 ==> Numbered() == old(Numbered())[i + 1 := R(kw, n)]
      ensures which == 3 ==> Numbered() == Put(old(Numbered()), i, kw, n)
    {
      hide Numbered, Split, Shifted;
      var below, above := if n < 64 then 1 else 0, if n > 64 then 1 else 0;
      ghost var K := Numbered();
      if (if below == 1 then which / 2 else which % 2) == 1 {
        Store(i + below, Shifted(kw.r, kw.l, n % 64));
      }
      if (if above == 1 then which / 2 else which % 2) == 1 {
        Store(i + above, Shifted(kw.l, kw.r, n % 64));
      }
      if which == 3 {
        Either(K, i, L(kw, n), R(kw, n));
      }
    }

    method SetKey128(words: seq<bv32>)
      requires Valid() && rounds == 3 && |words| == 4
      modifies key
      ensures Valid() && Numbered() == Subkeys(s1, words)
    {
      hide Numbered, Put, Widen, DoubleRound, XorBlock, Schedule128, L, R;
      ghost var K := Numbered();
      var kl := LeftKey(words);
      var kw := Widen(kl);
      KsRound0(0, kw);
      KsRound(4, 15, 3, kw);
      KsRound(10, 45, 3, kw);
      KsRound(12, 60, 2, kw);
      KsRound(16, 77, 3, kw);
      KsRound(18, 94, 3, kw);
      KsRound(22, 111, 3, kw);
      assert Numbered() == PutKL128(K, kw);
      var ka := DeriveA(s1, kl, kl);
      Complete128(K, kw, Widen(ka));
      kw := Widen(ka);
      KsRound0(2, kw);
      KsRound(6, 15, 3, kw);
      KsRound(8, 30, 3, kw);
      KsRound(12, 45, 1, kw);
      KsRound(14, 60, 3, kw);
      KsRound(20, 94, 3, kw);
      KsRound(24, 47, 3, kw);
    }

    method SetKey256(words: seq<bv32>)
      requires Valid() && rounds == 4 && (|words| == 6 || |words| == 8)
      modifies key
      ensures Valid() && Numbered() == Subkeys(s1, words)
    {
      hide Numbered, Put, Widen, DoubleRound, XorBlock, Schedule256, L, R, DeriveA, DeriveB, LeftKey, RightKey;
      ghost var K := Numbered();
      var kl := LeftKey(words);
      var kw := Widen(kl);
      KsRound0(0, kw);
      KsRound(12, 45, 3, kw);
      KsRound(16, 60, 3, kw);
      KsRound(22, 77, 3, kw);
      KsRound(30, 111, 3, kw);
      assert Numbered() == PutKL256(K, Widen(kl));
      var kr := RightKey(words);
      kw := Widen(kr);
      KsRound(4, 15, 3, kw);
      KsRound(8, 30, 3, kw);
      KsRound(18, 60, 3, kw);
      KsRound(26, 94, 3, kw);
      assert Numbered() == PutKR256(PutKL256(K, Widen(kl)), Widen(kr));
      var ka := DeriveA(s1, XorBlock(kr, kl), kl);
      kw := Widen(ka);
      KsRound(6, 15, 3, kw);
      KsRound(14, 45, 3, kw);
      KsRound(24, 77, 3, kw);
      KsRound(28, 94, 3, kw);
      assert Numbered() == PutKA256(PutKR256(PutKL256(K, Widen(kl)), Widen(kr)), Widen(ka));
      var kb := DeriveB(s1, ka, kr);
      Complete256(K, Widen(kl), Widen(kr), Widen(ka), Widen(kb));
      kw := Widen(kb);
      KsRound0(2, kw);
      KsRound(10, 30, 3, kw);
      KsRound(20, 60, 3, kw);
      KsRound(32, 47, 3, kw);
    }

    /** `UncheckedSetKey`: after it, the table read in order is the subkeys, or the subkeys reversed for decryption. */
    method UncheckedSetKey(words: seq<bv32>)
      requires KeySize(words)
      modifies this
      ensures Valid() && fresh(key) && rounds == Rounds(words)
      ensures Table(little, key[..], 8 * rounds + 2)
              == if forward then Subkeys(s1, words) else Reversed(Subkeys(s1, words))
    {
      hide Table, Subkeys, Written;
      rounds := if |words| >= 6 then 4 else 3;
      key := new bv32[2 * (8 * rounds + 2)];
      if |words| == 4 {
        SetKey128(words);
      } else {
        SetKey256(words);
      }
      TableOrder(little, forward, key[..], 8 * rounds + 2);
    }

    /** `KS`, both words: the subkey read at offset `ks`. */
    function Ks(ks: nat, i: nat, h: nat): (r: Half)
      requires h < 2 && ks + 4 * i + 3 < key.Length
      reads this, key
    {
      Half(key[ks + 4 * i + 2 * Efi(little, h) + Efi(little, 0)], key[ks + 4 * i + 2 * Efi(little, h) + Efi(little, 1)])
    }

    ghost function K(): (K: seq<Half>)
      requires Valid()
      reads this, key
      ensures |K| == 8 * rounds + 2
    {
      Table(little, key[..], 8 * rounds + 2)
    }

    /** Two rounds with the subkeys of quadruple `i` at offset `16 * t`, fast or slow. */
    method TwoRounds(t: nat, i: nat, left: Half, right: Half, firstSlow: bool, secondSlow: bool)
        returns (left': Half, right': Half)
      requires Valid() && 8 * t + 2 * i + 1 < 8 * rounds + 2
      ensures Block(left', right') == DoubleRound(s1, Block(left, right), K()[8 * t + 2 * i], K()[8 * t + 2 * i + 1])
    {
      hide Round, SlowRound, XorHalf, K;
      KsIsTable(t, i, 0);
      KsIsTable(t, i, 1);
      var k0, k1 := Ks(16 * t, i, 0), Ks(16 * t, i, 1);
      RoundIsSlowRound(s1, left, k0);
      right' := XorHalf(right, if firstSlow then SlowRound(s1, left, k0) else Round(s1, left, k0));
      RoundIsSlowRound(s1, right', k1);
      left' := XorHalf(left, if secondSlow then SlowRound(s1, right', k1) else Round(s1, right', k1));
    }

    /** One turn of the loop: two fast double rounds, the layer, one more. */
    method Turn(t: nat, left: Half, right: Half) returns (left': Half, right': Half)
      requires Valid() && 8 * t + 11 < 8 * rounds + 2
      ensures Block(left', right') == NextState(s1, K(), t, Block(left, right))
    {
      hide DoubleRound, K, FL, FLInverse;
      left', right' := TwoRounds(t, 2, left, right, false, false);
      left', right' := TwoRounds(t, 3, left', right', false, false);
      KsIsTable(t, 4, 0);
      KsIsTable(t, 4, 1);
      left', right' := FL(left', Ks(16 * t, 4, 0)), FLInverse(right', Ks(16 * t, 4, 1));
      left', right' := TwoRounds(t, 5, left', right', false, false);
    }

    /** `ProcessAndXorBlock` on the four words of a block. */
    method ProcessAndXorBlock(inBlock: Block, xorBlock: Block) returns (outBlock: Block)
      requires Valid()
      ensures outBlock == XorBlock(Process(s1, K(), rounds, inBlock), xorBlock)
    {
      hide DoubleRound, K, XorHalf, Entering, NextState, XorBlock;
      KsIsTable(0, 0, 0);
      KsIsTable(0, 0, 1);
      var left, right := XorHalf(inBlock.left, Ks(0, 0, 0)), XorHalf(inBlock.right, Ks(0, 0, 1));
      FirstGroup(s1, K(), inBlock);
      left, right := TwoRounds(0, 1, left, right, true, true);
      var i, t := rounds - 1, 0;
      while i > 0
        invariant 0 <= i && t == rounds - 1 - i
        invariant Block(left, right) == DoubleRound(s1, Entering(s1, K(), t, inBlock), K()[8 * t + 2], K()[8 * t + 3])
      {
        GroupStep(s1, K(), t, inBlock);
        left, right := Turn(t, left, right);
        i, t := i - 1, t + 1;
      }
      left, right := TwoRounds(t, 2, left, right, false, false);
      left, right := TwoRounds(t, 3, left, right, false, true);
      KsIsTable(t, 4, 0);
      KsIsTable(t, 4, 1);
      left, right := XorHalf(left, Ks(16 * t, 4, 0)), XorHalf(right, Ks(16 * t, 4, 1));
      outBlock := XorBlock(Block(right, left), xorBlock);
    }

    lemma {:induction false} KsIsTable(t: nat, i: nat, h: nat)
      requires Valid() && h < 2 && 8 * t + 2 * i + h < 8 * rounds + 2
      ensures 16 * t + 4 * i + 3 < key.Length && Ks(16 * t, i, h) == K()[8 * t + 2 * i + h]
    {
      hide Place;
      PlaceOf(little, 4 * t + i, h);
    }
  }

  /** From after the first two rounds of a group to after the first two of the next. */
  ghost function NextState(s1: SBox, K: seq<Half>, t: nat, b: Block): (r: Block)
    requires 8 * t + 11 < |K|
  {
    var b1 := DoubleRound(s1, DoubleRound(s1, b, K[8 * t + 4], K[8 * t + 5]), K[8 * t + 6], K[8 * t + 7]);
    DoubleRound(s1, FLLayer(b1, K[8 * t + 8], K[8 * t + 9]), K[8 * t + 10], K[8 * t + 11])
  }

  lemma {:induction false} GroupStep(s1: SBox, K: seq<Half>, t: nat, b: Block)
    requires 8 * t + 16 <= |K|
    ensures NextState(s1, K, t, DoubleRound(s1, Entering(s1, K, t, b), K[8 * t + 2], K[8 * t + 3]))
            == DoubleRound(s1, Entering(s1, K, t + 1, b), K[8 * (t + 1) + 2], K[8 * (t + 1) + 3])
  {
    hide DoubleRound, FLLayer;
  }

  lemma {:induction false} XorNothing(b: Block)
    ensures XorBlock(b, Block(Half(0, 0), Half(0, 0))) == b
  {
  }

  /** For every key size, block, substitution box and host byte order, decryption returns the plaintext. */
  method EncryptThenDecrypt(s1: SBox, little: bool, words: seq<bv32>, plain: Block)
      returns (cipher: Block, again: Block)
    requires KeySize(words)
    ensures cipher == Process(s1, Subkeys(s1, words), Rounds(words), plain) && again == plain
  {
    hide Subkeys, Process, Table, XorBlock;
    var encryption := new Base(s1, little, true);
    encryption.UncheckedSetKey(words);
    var decryption := new Base(s1, little, false);
    decryption.UncheckedSetKey(words);
    var nothing := Block(Half(0, 0), Half(0, 0));
    cipher := encryption.ProcessAndXorBlock(plain, nothing);
    again := decryption.ProcessAndXorBlock(cipher, nothing);
    ReversedInverts(s1, Subkeys(s1, words), Rounds(words), plain);
    XorNothing(Process(s1, Subkeys(s1, words), Rounds(words), plain));
    XorNothing(plain);
  }

  lemma {:induction false} Either(K: seq<Half>, i: nat, x: Half, y: Half)
    requires i + 1 < |K|
    ensures K[i := x][i + 1 := y] == K[i + 1 := y][i := x]
  {
  }
}
