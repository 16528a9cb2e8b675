/** Which overlaps the batches of `adv-simd.h` bear in counter mode: exactly those that do not disturb them. */
module CounterOverlaps {
  import opened Numbers
  import opened Bytes
  import opened CbcMac
  import opened BlockBatches
  import opened BlockOverlaps

  /** A counter call with moving output, as counter mode makes it. */
  predicate Counting(c: Call) {
    c.counter && !c.fixed && c.mode != XorInput
  }

  /** The counter block of step `i`, over a memory of zeros. */
  function Count(i: nat): (b: Block) {
    AddCounter(Zeros(16), i)
  }

  /** A cipher that marks one counter block. */
  function Spot(r: nat, b: Block): (y: Block) {
    if b == Count(r) then Filled(255) else Filled(64)
  }

  function Spots(r: nat): (f: Cipher) {
    b => Spot(r, b)
  }

  /** Octets covered by the outputs of the `r` blocks from `t` on. */
  ghost predicate Covered(c: Call, t: nat, r: nat, j: int) {
    if c.reverse then c.Out(t) + 16 - 16 * r <= j < c.Out(t) + 16 else c.Out(t) <= j < c.Out(t) + 16 * r
  }

  lemma {:induction false} CoveredBy(c: Call, t: nat, r: nat, j: int) returns (s: nat)
    requires !c.fixed && Covered(c, t, r, j)
    ensures t <= s < t + r && Holds(c.Out(s), j)
  {
    s := t + if c.reverse then (c.Out(t) + 15 - j) / 16 else (j - c.Out(t)) / 16;
  }

  /** What is not spared is covered somewhere. */
  lemma {:induction false} NotSpared(c: Call, t: nat, r: nat, p: int) returns (i: nat)
    requires !c.fixed && !Spared(c, t, t + r, p)
    ensures i < 16 && Covered(c, t, r, p + i)
  {
    var s: nat :| t <= s < t + r && !Apart(c.Out(s), p);
    i := if c.Out(s) <= p then 0 else c.Out(s) - p;
  }

  lemma {:induction false} SparedIsNot(c: Call, t: nat, r: nat, p: int, i: nat)
    requires !c.fixed && Spared(c, t, t + r, p) && i < 16
    ensures !Covered(c, t, r, p + i)
  {
    if Covered(c, t, r, p + i) {
      var s := CoveredBy(c, t, r, p + i);
      assert false;
    }
  }

  /** Memory after `r` blocks have stored the octet 64, over zeros and a counter. */
  lemma {:induction false} Marked(c: Call, m: seq<byte>, n: nat, t: nat, ys: seq<Block>, j: nat)
    requires !c.fixed && Accessible(c, m, n) && t + |ys| <= n && j < |m|
    requires forall i: nat :: i < |ys| ==> ys[i] == Filled(64)
    ensures StoreAll(c, m, n, t, ys)[j] == if Covered(c, t, |ys|, j) then 64 else m[j]
    decreases |ys|
  {
    if ys != [] {
      Marked(c, m, n, t, ys[..|ys| - 1], j);
    }
  }

  lemma {:induction false} CountedZeros(c: Call, size: nat, i: nat, j: nat)
    requires c.counter && InMemory(Zeros(size), c.input) && i < 256 && j < size
    ensures Counted(c, Zeros(size), i)[j] == if j == c.input + 15 then i else 0
  {
  }

  lemma {:induction false} LoadCounted(c: Call, size: nat, i: nat, p: int)
    requires c.counter && InMemory(Zeros(size), c.input) && i < 256 && InMemory(Zeros(size), p)
    ensures forall e: nat :: e < 16 ==> Load(Counted(c, Zeros(size), i), p)[e] == if p + e == c.input + 15 then i else 0
  {
    hide Counted;
    forall e: nat | e < 16 ensures Load(Counted(c, Zeros(size), i), p)[e] == if p + e == c.input + 15 then i else 0 {
      CountedZeros(c, size, i, p + e);
    }
  }

  lemma {:induction false} ZeroBlock(c: Call, size: nat)
    requires InMemory(Zeros(size), c.input)
    ensures Load(Zeros(size), c.input) == Zeros(16)
  {
  }

  lemma {:induction false} CountsDiffer(i: nat, j: nat)
    requires i < 256 && j < 256
    ensures Count(i) == Count(j) <==> i == j
  {
    assert Count(i)[15] == i && Count(j)[15] == j;
  }

  /** What a batch over zeros makes of block `i`. */
  lemma {:induction false} BatchMark(c: Call, size: nat, n: nat, t: nat, k: nat, r: nat, i: nat)
    requires Counting(c) && Accessible(c, Zeros(size), n) && t + k <= n && i < k <= 60 && r < k
    ensures var y := BatchOutput(Spots(r), c, Zeros(size), n, t, k, i);
            var mark := if i == r then Filled(255) else Filled(64);
            y == if c.mode == NoXor then mark else XorBytes(mark, Load(Counted(c, Zeros(size), k), c.Other(t + i)))
  {
    hide Counted, XorBytes;
    ZeroBlock(c, size);
    CountsDiffer(i, r);
  }

  /** A block that is not disturbed reads zeros and stores the octet 64. */
  lemma {:induction false} EarlierMark(c: Call, size: nat, n: nat, t: nat, k: nat, r: nat, i: nat)
    requires Counting(c) && Accessible(c, Zeros(size), n) && t + k <= n && i < r < k <= 60 && ReadsOld(c, t, k, t + i)
    ensures BatchOutput(Spots(r), c, Zeros(size), n, t, k, i) == Filled(64)
  {
    hide XorBytes, Counted, BatchOutput;
    BatchMark(c, size, n, t, k, r, i);
    if c.mode == XorOutput {
      LoadCounted(c, size, k, c.Other(t + i));
      assert Load(Counted(c, Zeros(size), k), c.Other(t + i)) == Zeros(16);
      XorBytesZeros(Filled(64));
    }
  }

  // ---------- The first block that is disturbed ----------

  ghost predicate FirstDisturbed(c: Call, t: nat, k: nat, r: nat) {
    AgreesBefore(c, t, k, r) && !ReadsOld(c, t, k, t + r)
  }

  lemma {:induction false} SomeDisturbed(c: Call, t: nat, k: nat, i: nat) returns (r: nat)
    requires Counting(c) && i <= k <= 60 && AgreesBefore(c, t, k, i) && !Agrees(c, t, k)
    ensures r < k && FirstDisturbed(c, t, k, r)
    decreases k - i
  {
    hide ReadsOld;
    if i == k {
      assert false;
    } else if ReadsOld(c, t, k, t + i) {
      r := SomeDisturbed(c, t, k, i + 1);
    } else {
      r := i;
    }
  }

  /** Memory before that block. */
  lemma {:induction false} BeforeDisturbed(c: Call, size: nat, n: nat, t: nat, k: nat, r: nat, j: nat)
    requires Counting(c) && Accessible(c, Zeros(size), n) && t + k <= n && r < k <= 60
    requires FirstDisturbed(c, t, k, r) && j < size
    ensures Steps(Spots(r), c, Zeros(size), n, t, r)[j]
            == if Covered(c, t, r, j) then 64 else if j == c.input + 15 then r else 0
  {
    hide Steps, StoreAll, BatchOutput, Covered, ReadsOld, Counted;
    var zs := StepsStore(Spots(r), c, Zeros(size), n, t, k, r);
    forall i: nat | i < r ensures zs[i] == Filled(64) {
      EarlierMark(c, size, n, t, k, r, i);
    }
    Marked(c, Counted(c, Zeros(size), r), n, t, zs, j);
    CountedZeros(c, size, r, j);
  }

  /** After it has counted, only the last octet of the counter is greater by one. */
  lemma {:induction false} LoadAfterCount(c: Call, m: seq<byte>, p: int, e: nat)
    requires c.counter && InMemory(m, c.input) && InMemory(m, p) && e < 16
    ensures var was: nat, now: nat := m[p + e], Load(Counted(c, m, 1), p)[e];
            now == if p + e == c.input + 15 then (was + 1) % 256 else was
  {
  }

  lemma {:induction false} XorFull(x: nat, k: nat)
    requires x < Shl(1, k)
    ensures Xor(Shl(1, k) - 1, x) == Shl(1, k) - 1 - x
    decreases k
  {
    hide Xor;
    var full := Shl(1, k) - 1;
    XorZero(0);
    if k > 0 {
      XorParts(full, x);
      XorFull(x / 2, k - 1);
      assert full / 2 == Shl(1, k - 1) - 1 && full % 2 == 1;
      FromParts(Xor(full, x), full - x);
    }
  }

  lemma {:induction false} XorBytes255(x: byte)
    ensures XorByte(255, x) == 255 - x
  {
    assert Shl(1, 8) == 256;
    XorFull(x, 8);
  }

  lemma {:induction false} XorBytes64(x: byte)
    requires x < 128
    ensures XorByte(64, x) < 128
  {
    assert Shl(1, 7) == 128;
    XorBound(64, x, 7);
  }

  /** The octet ends differently, also if the counter still counts in it. */
  ghost predicate EndsDifferently(c: Call, t: nat, k: nat, r: nat, y: Block, y': Block, e: nat)
    requires r < k
  {
    e < 16 && y[e] != y'[e] && (c.Out(t + r) + e == c.input + 15 ==> (y[e] + (k - 1 - r)) % 256 != y'[e])
  }

  /** The counter itself is disturbed: the cipher does not see the block that it marks. */
  lemma {:induction false} CounterMissed(c: Call, size: nat, n: nat, t: nat, k: nat, r: nat)
    requires Counting(c) && Accessible(c, Zeros(size), n) && t + k <= n && r < k <= 60 && FirstDisturbed(c, t, k, r)
    requires !Spared(c, t, t + r, c.input)
    ensures Load(Steps(Spots(r), c, Zeros(size), n, t, r), c.input) != Count(r)
  {
    hide Steps, Covered, FirstDisturbed, Spared, Count;
    var m := Steps(Spots(r), c, Zeros(size), n, t, r);
    var i := NotSpared(c, t, r, c.input);
    BeforeDisturbed(c, size, n, t, k, r, c.input + i);
    CountOctets(r, i);
    assert Load(m, c.input)[i] == 64 != Count(r)[i];
  }

  /** No octet that it may be combined with has its top bit set. */
  lemma {:induction false} TextIsSmall(c: Call, size: nat, n: nat, t: nat, k: nat, r: nat, p: int, e: nat)
    requires Counting(c) && Accessible(c, Zeros(size), n) && t + k <= n && r < k <= 60 && FirstDisturbed(c, t, k, r)
    requires InMemory(Zeros(size), p) && e < 16
    ensures Load(Counted(c, Steps(Spots(r), c, Zeros(size), n, t, r), 1), p)[e] < 128
    ensures Load(Counted(c, Zeros(size), k), p)[e] < 128
  {
    hide Steps, Covered, FirstDisturbed, Counted;
    BeforeDisturbed(c, size, n, t, k, r, p + e);
    LoadAfterCount(c, Steps(Spots(r), c, Zeros(size), n, t, r), p, e);
    LoadCounted(c, size, k, p);
  }

  lemma {:induction false} CounterDisturbed(c: Call, size: nat, n: nat, t: nat, k: nat, r: nat) returns (e: nat)
    requires Counting(c) && Accessible(c, Zeros(size), n) && t + k <= n && r < k <= 60 && FirstDisturbed(c, t, k, r)
    requires !Spared(c, t, t + r, c.input)
    ensures EndsDifferently(c, t, k, r, StepOutput(Spots(r), c, Steps(Spots(r), c, Zeros(size), n, t, r), n, t + r),
                            BatchOutput(Spots(r), c, Zeros(size), n, t, k, r), e)
  {
    hide Steps, FirstDisturbed, XorByte, BatchOutput, Spared, Counted, Load, Count;
    CounterMissed(c, size, n, t, k, r);
    e := if c.Out(t + r) == c.input + 15 then 1 else 0;
    BatchMark(c, size, n, t, k, r, r);
    if c.mode == XorOutput {
      var p := c.Other(t + r);
      TextIsSmall(c, size, n, t, k, r, p, e);
      XorBytes64(Load(Counted(c, Steps(Spots(r), c, Zeros(size), n, t, r), 1), p)[e]);
      XorBytes255(Load(Counted(c, Zeros(size), k), p)[e]);
    }
  }

  lemma {:induction false} CountOctets(r: nat, i: nat)
    requires r < 256 && i < 16
    ensures Count(r)[i] == if i == 15 then r else 0
  {
  }

  /** Where the exclusive-or block is disturbed: at a stored octet, or at the octet that counts. */
  lemma {:induction false} TextOctet(c: Call, t: nat, k: nat, r: nat) returns (e: nat)
    requires Counting(c) && r < k && FirstDisturbed(c, t, k, r) && Spared(c, t, t + r, c.input)
    ensures c.mode == XorOutput && e < 16
    ensures var j := c.Other(t + r) + e;
            if j == c.input + 15 then !Covered(c, t, r, j) && r < k - 1 else Covered(c, t, r, j)
  {
    hide Spared, Covered, AgreesBefore;
    var p := c.Other(t + r);
    SparedIsNot(c, t, r, c.input, 15);
    if Spared(c, t, t + r, p) {
      e := c.input + 15 - p;
    } else {
      e := NotSpared(c, t, r, p);
    }
  }

  lemma {:induction false} CounterRead(c: Call, size: nat, n: nat, t: nat, k: nat, r: nat)
    requires Counting(c) && Accessible(c, Zeros(size), n) && t + k <= n && r < k <= 60 && FirstDisturbed(c, t, k, r)
    requires Spared(c, t, t + r, c.input)
    ensures Load(Steps(Spots(r), c, Zeros(size), n, t, r), c.input) == Count(r)
  {
    hide Steps, Covered, FirstDisturbed, Spared;
    var m := Steps(Spots(r), c, Zeros(size), n, t, r);
    forall i: nat | i < 16 ensures Load(m, c.input)[i] == Count(r)[i] {
      BeforeDisturbed(c, size, n, t, k, r, c.input + i);
      SparedIsNot(c, t, r, c.input, i);
      CountOctets(r, i);
    }
  }

  /** The counter is right, but the exclusive-or block is disturbed by a store or by the counter. */
  lemma {:induction false} TextDisturbed(c: Call, size: nat, n: nat, t: nat, k: nat, r: nat) returns (e: nat)
    requires Counting(c) && Accessible(c, Zeros(size), n) && t + k <= n && r < k <= 60 && FirstDisturbed(c, t, k, r)
    requires Spared(c, t, t + r, c.input)
    ensures EndsDifferently(c, t, k, r, StepOutput(Spots(r), c, Steps(Spots(r), c, Zeros(size), n, t, r), n, t + r),
                            BatchOutput(Spots(r), c, Zeros(size), n, t, k, r), e)
  {
    hide Steps, Covered, XorByte, BatchOutput, Spared, Counted, FirstDisturbed, Load, Count;
    var m, p := Steps(Spots(r), c, Zeros(size), n, t, r), c.Other(t + r);
    CounterRead(c, size, n, t, k, r);
    BatchMark(c, size, n, t, k, r, r);
    e := TextOctet(c, t, k, r);
    BeforeDisturbed(c, size, n, t, k, r, p + e);
    LoadAfterCount(c, m, p, e);
    LoadCounted(c, size, k, p);
    XorBytes255(Load(Counted(c, m, 1), p)[e]);
    XorBytes255(Load(Counted(c, Zeros(size), k), p)[e]);
  }

  // ---------- What is left of it in the end ----------

  /** Later blocks leave an octet of an output alone, except that the counter may count in it. */
  lemma {:induction false} LaterOctet(f: Cipher, c: Call, m: seq<byte>, n: nat, t: nat, i: nat, u: nat, j: nat)
    requires Counting(c) && Accessible(c, m, n) && u < t && t + i <= n && Holds(c.Out(u), j) && j < |m|
    ensures var was: nat, now: nat := m[j], Steps(f, c, m, n, t, i)[j];
            now == if j == c.input + 15 then (was + i) % 256 else was
    decreases i
  {
    hide OneStep, Accessible;
    if i > 0 {
      LaterOctet(f, c, m, n, t, i - 1, u, j);
      OctetCounted(f, c, Steps(f, c, m, n, t, i - 1), n, t + i - 1, u, j);
      CountOnce(m[j], i - 1);
    }
  }

  lemma {:induction false} CountOnce(v: nat, i: nat)
    ensures ((v + i) % 256 + 1) % 256 == (v + i + 1) % 256
  {
  }

  lemma {:induction false} OctetCounted(f: Cipher, c: Call, m: seq<byte>, n: nat, t: nat, u: nat, j: nat)
    requires Counting(c) && Accessible(c, m, n) && u < t < n && Holds(c.Out(u), j) && j < |m|
    ensures var was: nat, now: nat := m[j], OneStep(f, c, m, n, t)[j];
            now == if j == c.input + 15 then (was + 1) % 256 else was
  {
    hide StepOutput;
  }

  lemma {:induction false} LoopOctet(f: Cipher, c: Call, m: seq<byte>, n: nat, t: nat, k: nat, r: nat, e: nat)
    requires Counting(c) && Accessible(c, m, n) && t + k <= n && r < k && e < 16
    ensures var was: nat, now: nat := StepOutput(f, c, Steps(f, c, m, n, t, r), n, t + r)[e],
                                      Load(Steps(f, c, m, n, t, k), c.Out(t + r))[e];
            now == if c.Out(t + r) + e == c.input + 15 then (was + (k - 1 - r)) % 256 else was
  {
    hide StepOutput, Steps, Accessible;
    StepLeaves(f, c, m, n, t, r);
    StepsSplit(f, c, m, n, t, r + 1, k - 1 - r);
    LaterOctet(f, c, Steps(f, c, m, n, t, r + 1), n, t + r + 1, k - 1 - r, t + r, c.Out(t + r) + e);
  }

  lemma {:induction false} StepLeaves(f: Cipher, c: Call, m: seq<byte>, n: nat, t: nat, r: nat)
    requires Counting(c) && Accessible(c, m, n) && t + r < n
    ensures InMemory(m, c.Out(t + r))
    ensures Load(Steps(f, c, m, n, t, r + 1), c.Out(t + r)) == StepOutput(f, c, Steps(f, c, m, n, t, r), n, t + r)
  {
    hide StepOutput, Counted, Stored;
    var before := Steps(f, c, m, n, t, r);
    StoredElsewhere(Counted(c, before, 1), c.Out(t + r), StepOutput(f, c, before, n, t + r), c.Out(t + r));
  }

  /** Over zeros, a batch that disturbs itself ends differently from its single blocks. */
  lemma {:induction false} CountsWrong(c: Call, size: nat, n: nat, t: nat, k: nat) returns (r: nat)
    requires Counting(c) && Accessible(c, Zeros(size), n) && t + k <= n && k <= 60 && !Agrees(c, t, k)
    ensures BatchStep(Spots(r), c, Zeros(size), n, t, k) != Steps(Spots(r), c, Zeros(size), n, t, k)
  {
    hide Agrees, Spared, Steps, StoreAll, StepOutput, BatchOutput, Counted;
    r := SomeDisturbed(c, t, k, 0);
    hide FirstDisturbed;
    var e;
    if Spared(c, t, t + r, c.input) {
      e := TextDisturbed(c, size, n, t, k, r);
    } else {
      e := CounterDisturbed(c, size, n, t, k, r);
    }
    LoopOctet(Spots(r), c, Zeros(size), n, t, k, r, e);
    StoreAllHas(c, Counted(c, Zeros(size), k), n, t, BatchOutputs(Spots(r), c, Zeros(size), n, t, k), r);
  }

  ghost predicate RightOver(f: Cipher, c: Call, m: seq<byte>, n: nat, t: nat, k: nat)
    requires t + k <= n
  {
    Accessible(c, m, n) && BatchStep(f, c, m, n, t, k) == Steps(f, c, m, n, t, k)
  }

  /** Batch and single blocks leave the same, whatever the cipher and the memory. */
  ghost predicate BatchIsRight(c: Call, size: nat, n: nat, t: nat, k: nat)
    requires t + k <= n
  {
    forall f: Cipher, m: seq<byte> :: |m| == size ==> RightOver(f, c, m, n, t, k)
  }

  lemma {:induction false} RightAlways(c: Call, size: nat, n: nat, t: nat, k: nat)
    requires Accessible(c, Zeros(size), n) && t + k <= n && k >= 1 && Agrees(c, t, k)
    ensures BatchIsRight(c, size, n, t, k)
  {
    hide Agrees, Steps, BatchStep;
    forall f: Cipher, m: seq<byte> | |m| == size ensures RightOver(f, c, m, n, t, k) {
      assert Accessible(c, m, n);
      BatchAgrees(f, c, m, n, t, k);
    }
  }

  /** A batch of counter mode is right exactly when it does not disturb itself. */
  lemma {:induction false} ExactCounter(c: Call, size: nat, n: nat, t: nat, k: nat)
    requires Counting(c) && Accessible(c, Zeros(size), n) && t + k <= n && 1 <= k <= 60
    ensures BatchIsRight(c, size, n, t, k) <==> Agrees(c, t, k)
  {
    hide Agrees, Steps, BatchStep;
    if Agrees(c, t, k) {
      RightAlways(c, size, n, t, k);
    } else {
      var r := CountsWrong(c, size, n, t, k);
      assert |Zeros(size)| == size && !RightOver(Spots(r), c, Zeros(size), n, t, k);
    }
  }
}
