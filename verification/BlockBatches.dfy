/**
 Batched block processing: `AdvancedProcessBlocks128_4x1_SSE` and `AdvancedProcessBlocks128_6x2_SSE`
 of `adv-simd.h`, over one memory in which input, exclusive-or and output regions may overlap.
 */
module BlockBatches {
  import opened Bytes
  import opened CbcMac

  datatype XorMode = NoXor | XorInput | XorOutput

  /** One call: where the first block of each region is, in processing order, and in which direction it goes. */
  datatype Call = Call(input: int, other: int, output: int, reverse: bool, counter: bool, fixed: bool, mode: XorMode)
  {
    function Move(start: int, t: nat): (p: int) {
      if reverse then start - 16 * t else start + 16 * t
    }

    /** The addresses of block `t`; a counter stays where it is, and so do fixed input and output blocks. */
    function In(t: nat): (p: int) {
      if counter || fixed then input else Move(input, t)
    }

    function Other(t: nat): (p: int) {
      Move(other, t)
    }

    function Out(t: nat): (p: int) {
      if fixed then output else Move(output, t)
    }
  }

  /** The addresses a call starts from: a reverse call starts at the last whole block. */
  function Begin(input: int, other: int, output: int, length: nat, reverse: bool, counter: bool, fixed: bool,
                 mode: XorMode): (c: Call)
    requires length >= 16
  {
    var skip := if reverse then length - 16 else 0;
    Call(input + skip, other + skip, output + skip, reverse, counter, fixed, mode)
  }

  predicate InMemory(m: seq<byte>, p: int) {
    0 <= p <= |m| - 16
  }

  function Load(m: seq<byte>, p: int): (b: Block)
    requires InMemory(m, p)
  {
    m[p..p + 16]
  }

  /** The counter is the last octet only; it wraps without a carry. */
  function AddCounter(b: Block, k: nat): (r: Block) {
    b[15 := (b[15] + k) % 256]
  }

  /** Every block of the call is in memory. */
  ghost predicate Accessible(c: Call, m: seq<byte>, n: nat) {
    && (c.counter ==> InMemory(m, c.input))
    && forall t: nat :: t < n ==> InMemory(m, c.In(t)) && InMemory(m, c.Out(t)) && (c.mode != NoXor ==> InMemory(m, c.Other(t)))
  }

  predicate Apart(p: int, q: int) {
    p + 16 <= q || q + 16 <= p
  }

  /** Memory after a block is stored. */
  function Stored(m: seq<byte>, p: int, b: Block): (r: seq<byte>)
    requires InMemory(m, p)
    ensures |r| == |m|
  {
    m[..p] + b + m[p + 16..]
  }

  /** Memory after the counter, if the input is one, has counted `i`. */
  function Counted(c: Call, m: seq<byte>, i: nat): (r: seq<byte>)
    requires c.counter ==> InMemory(m, c.input)
    ensures |r| == |m|
  {
    if c.counter then Stored(m, c.input, AddCounter(Load(m, c.input), i)) else m
  }

  /** What one block becomes, in terms of the memory as it is now: load, combine, count, transform, combine. */
  ghost function StepOutput(f: Cipher, c: Call, m: seq<byte>, n: nat, t: nat): (y: Block)
    requires Accessible(c, m, n) && t < n
  {
    var x := Load(m, c.In(t));
    match c.mode
    case NoXor => f(x)
    case XorInput => f(XorBytes(x, Load(m, c.Other(t))))
    case XorOutput => XorBytes(f(x), Load(Counted(c, m, 1), c.Other(t)))
  }

  /** One block is counted and stored. */
  ghost function OneStep(f: Cipher, c: Call, m: seq<byte>, n: nat, t: nat): (r: seq<byte>)
    requires Accessible(c, m, n) && t < n
    ensures |r| == |m| && Accessible(c, r, n)
  {
    Stored(Counted(c, m, 1), c.Out(t), StepOutput(f, c, m, n, t))
  }

  /** `i` single blocks from block `t` on: what the one-block loop does, whatever overlaps. */
  ghost function Steps(f: Cipher, c: Call, m: seq<byte>, n: nat, t: nat, i: nat): (r: seq<byte>)
    requires Accessible(c, m, n) && t + i <= n
    ensures |r| == |m| && Accessible(c, r, n)
    decreases i
  {
    if i == 0 then m else OneStep(f, c, Steps(f, c, m, n, t, i - 1), n, t + i - 1)
  }

  /** Input `i` of a batch at block `t`; the inputs of a counter batch are counted from one load. */
  ghost function BatchInput(c: Call, m: seq<byte>, n: nat, t: nat, i: nat): (x: Block)
    requires Accessible(c, m, n) && t + i < n
  {
    if c.counter then AddCounter(Load(m, c.input), i) else Load(m, c.In(t + i))
  }

  /** Output `i` of a batch of `k` blocks: all loads come before all stores, but after the counter is stored. */
  ghost function BatchOutput(f: Cipher, c: Call, m: seq<byte>, n: nat, t: nat, k: nat, i: nat): (y: Block)
    requires Accessible(c, m, n) && t + k <= n && i < k
  {
    var x := BatchInput(c, m, n, t, i);
    match c.mode
    case NoXor => f(x)
    case XorInput => f(XorBytes(x, Load(Counted(c, m, k), c.Other(t + i))))
    case XorOutput => XorBytes(f(x), Load(Counted(c, m, k), c.Other(t + i)))
  }

  ghost function BatchOutputs(f: Cipher, c: Call, m: seq<byte>, n: nat, t: nat, k: nat): (ys: seq<Block>)
    requires Accessible(c, m, n) && t + k <= n
    ensures |ys| == k && forall i: nat :: i < k ==> ys[i] == BatchOutput(f, c, m, n, t, k, i)
  {
    seq(k, i requires 0 <= i < k => BatchOutput(f, c, m, n, t, k, i))
  }

  /** Memory after blocks are stored at the output addresses from block `t` on, in order. */
  ghost function StoreAll(c: Call, m: seq<byte>, n: nat, t: nat, ys: seq<Block>): (r: seq<byte>)
    requires Accessible(c, m, n) && t + |ys| <= n
    ensures |r| == |m| && Accessible(c, r, n)
    decreases |ys|
  {
    if ys == [] then m
    else
      var i := |ys| - 1;
      Stored(StoreAll(c, m, n, t, ys[..i]), c.Out(t + i), ys[i])
  }

  /** One batch of `k` blocks, whatever overlaps. */
  ghost function BatchStep(f: Cipher, c: Call, m: seq<byte>, n: nat, t: nat, k: nat): (r: seq<byte>)
    requires Accessible(c, m, n) && t + k <= n
    ensures |r| == |m| && Accessible(c, r, n)
  {
    StoreAll(c, Counted(c, m, k), n, t, BatchOutputs(f, c, m, n, t, k))
  }

  /** As many batches of `k` blocks as fit, from block `t` on. */
  ghost function BatchRun(f: Cipher, c: Call, m: seq<byte>, n: nat, t: nat, k: nat): (r: seq<byte>)
    requires Accessible(c, m, n) && t <= n && k >= 1
    ensures |r| == |m| && Accessible(c, r, n)
    decreases n - t
  {
    if t + k <= n then BatchRun(f, c, BatchStep(f, c, m, n, t, k), n, t + k, k) else m
  }

  /** The block after those batches. */
  ghost function AfterRun(n: nat, t: nat, k: nat): (t': nat)
    requires t <= n && k >= 1
    ensures t <= t' <= n < t' + k
    decreases n - t
  {
    if t + k <= n then AfterRun(n, t + k, k) else t
  }

  type Size = k: nat | k >= 1 witness 1

  /** Batches of the sizes `ks`, one size after the other, then single blocks. */
  ghost function Scheduled(f: Cipher, c: Call, m: seq<byte>, n: nat, t: nat, ks: seq<Size>): (r: seq<byte>)
    requires Accessible(c, m, n) && t <= n
    ensures |r| == |m| && Accessible(c, r, n)
    decreases |ks|
  {
    if ks == [] then Steps(f, c, m, n, t, n - t)
    else Scheduled(f, c, BatchRun(f, c, m, n, t, ks[0]), n, AfterRun(n, t, ks[0]), ks[1..])
  }

  /**
   No block is written before it is last read: a store never hits the input or exclusive-or block of
   a later step, nor, in counter mode, the counter block.
   */
  ghost predicate ReadsAhead(c: Call, n: nat) {
    && !c.fixed
    && (forall s: nat, t: nat :: s < t < n ==> Apart(c.Out(s), c.In(t)))
    && (c.mode != NoXor ==> forall s: nat, t: nat :: s < t < n ==> Apart(c.Out(s), c.Other(t)))
    && (c.counter ==> forall s: nat :: s < n ==> Apart(c.Out(s), c.input) && (c.mode != NoXor ==> Apart(c.Other(s), c.input)))
  }

  /** What block `t` must become, in terms of the memory before the call. */
  ghost function Value(f: Cipher, c: Call, m: seq<byte>, n: nat, t: nat): (b: Block)
    requires Accessible(c, m, n) && t < n
  {
    var x := Load(m, c.In(t));
    var inBlock := if c.counter then AddCounter(x, t) else x;
    match c.mode
    case NoXor => f(inBlock)
    case XorInput => f(XorBytes(inBlock, Load(m, c.Other(t))))
    case XorOutput => XorBytes(f(inBlock), Load(m, c.Other(t)))
  }

  /** The octets covered by the first `t` output blocks. */
  ghost predicate Written(c: Call, t: nat, j: int) {
    if c.reverse then c.output + 16 - 16 * t <= j < c.output + 16 else c.output <= j < c.output + 16 * t
  }

  /** Memory after the first `t` outputs and `ticks` counts of the counter, with nothing else changed. */
  ghost predicate Progress(f: Cipher, c: Call, m0: seq<byte>, m: seq<byte>, n: nat, t: nat, ticks: nat)
    requires Accessible(c, m0, n) && t <= n
  {
    && |m| == |m0|
    && (forall s: nat :: s < t ==> Load(m, c.Out(s)) == Value(f, c, m0, n, s))
    && (forall j :: 0 <= j < |m| && !Written(c, t, j) && !(c.counter && j == c.input + 15) ==> m[j] == m0[j])
    && (c.counter ==> Load(m, c.input) == AddCounter(Load(m0, c.input), ticks))
  }

  /** The outcome is determined: two memories that both satisfy it are equal. */
  lemma {:induction false} ProgressUnique(f: Cipher, c: Call, m0: seq<byte>, m: seq<byte>, m': seq<byte>, n: nat,
                                          t: nat)
    requires !c.fixed && Accessible(c, m0, n) && t <= n && Progress(f, c, m0, m, n, t, t)
             && Progress(f, c, m0, m', n, t, t)
    ensures m == m'
  {
    hide Value;
    forall j | 0 <= j < |m0| ensures m[j] == m'[j] {
      if Written(c, t, j) {
        var s := BlockOf(c, t, j);
        assert Load(m, c.Out(s)) == Load(m', c.Out(s));
        assert m[j] == Load(m, c.Out(s))[j - c.Out(s)];
        assert m'[j] == Load(m', c.Out(s))[j - c.Out(s)];
      } else if c.counter && j == c.input + 15 {
        assert m[j] == Load(m, c.input)[15] && m'[j] == Load(m', c.input)[15];
      }
    }
  }

  /** The output block an octet belongs to. */
  lemma {:induction false} BlockOf(c: Call, t: nat, j: int) returns (s: nat)
    requires Written(c, t, j) && !c.fixed
    ensures s < t && c.Out(s) <= j < c.Out(s) + 16
  {
    s := if c.reverse then (c.output + 15 - j) / 16 else (j - c.output) / 16;
  }

  /** A block apart from all outputs so far still holds its original contents. */
  lemma {:induction false} Untouched(f: Cipher, c: Call, m0: seq<byte>, m: seq<byte>, n: nat, t: nat, ticks: nat,
                                     p: int)
    requires !c.fixed && Accessible(c, m0, n) && t <= n && Progress(f, c, m0, m, n, t, ticks) && InMemory(m0, p)
    requires forall s: nat :: s < t ==> Apart(c.Out(s), p)
    requires c.counter ==> Apart(p, c.input)
    ensures Load(m, p) == Load(m0, p)
  {
    forall j | p <= j < p + 16 ensures m[j] == m0[j] {
      if Written(c, t, j) {
        var s := BlockOf(c, t, j);
        assert false;
      }
    }
  }

  lemma {:induction false} ReadOther(f: Cipher, c: Call, m0: seq<byte>, m: seq<byte>, n: nat, t: nat, ticks: nat,
                                     i: nat)
    requires Accessible(c, m0, n) && ReadsAhead(c, n) && t <= i < n && Progress(f, c, m0, m, n, t, ticks)
             && c.mode != NoXor
    ensures Load(m, c.Other(i)) == Load(m0, c.Other(i))
  {
    Untouched(f, c, m0, m, n, t, ticks, c.Other(i));
  }

  lemma {:induction false} ReadInput(f: Cipher, c: Call, m0: seq<byte>, m: seq<byte>, n: nat, t: nat, ticks: nat,
                                     i: nat)
    requires Accessible(c, m0, n) && ReadsAhead(c, n) && t <= i < n && Progress(f, c, m0, m, n, t, ticks) && !c.counter
    ensures Load(m, c.In(i)) == Load(m0, c.In(i))
  {
    Untouched(f, c, m0, m, n, t, ticks, c.In(i));
  }

  lemma {:induction false} AddCounterTwice(b: Block, j: nat, k: nat)
    ensures AddCounter(AddCounter(b, j), k) == AddCounter(b, j + k)
  {
  }

  /** A batch routine does to each of its blocks what the one-block routine does. */
  ghost predicate Batched(f: Cipher, batch: seq<Block> -> seq<Block>, k: nat) {
    forall bs: seq<Block> :: |bs| == k ==> |batch(bs)| == k && forall i :: 0 <= i < k ==> batch(bs)[i] == f(bs[i])
  }

  method StoreBlock(mem: array<byte>, p: int, b: Block)
    requires InMemory(mem[..], p)
    modifies mem
    ensures mem[..] == Stored(old(mem[..]), p, b)
  {
    forall j | 0 <= j < 16 {
      mem[p + j] := b[j];
    }
  }

  /** Storing the value of block `t` over memory that has the first `t`. */
  lemma {:induction false} StoreProgress(f: Cipher, c: Call, m0: seq<byte>, m: seq<byte>, m': seq<byte>, n: nat,
                                         t: nat, ticks: nat)
    requires Accessible(c, m0, n) && ReadsAhead(c, n) && t < n && Progress(f, c, m0, m, n, t, ticks)
    requires m' == Stored(m, c.Out(t), Value(f, c, m0, n, t))
    ensures Progress(f, c, m0, m', n, t + 1, ticks)
  {
    hide Value;
    forall s: nat | s < t + 1 ensures Load(m', c.Out(s)) == Value(f, c, m0, n, s) {
      if s < t {
        assert Load(m', c.Out(s)) == Load(m, c.Out(s));
      } else {
        assert Load(m', c.Out(t)) == Value(f, c, m0, n, t);
      }
    }
    if c.counter {
      assert Load(m', c.input) == Load(m, c.input);
    }
  }

  /** Advancing the counter in memory. */
  lemma {:induction false} TickProgress(f: Cipher, c: Call, m0: seq<byte>, m: seq<byte>, m': seq<byte>, n: nat, t: nat,
                                        ticks: nat, k: nat)
    requires Accessible(c, m0, n) && ReadsAhead(c, n) && t <= n && Progress(f, c, m0, m, n, t, ticks) && c.counter
    requires m' == Stored(m, c.input, AddCounter(Load(m, c.input), k))
    ensures Progress(f, c, m0, m', n, t, ticks + k)
  {
    hide Value;
    AddCounterTwice(Load(m0, c.input), ticks, k);
    assert Load(m', c.input) == AddCounter(Load(m, c.input), k);
    forall s: nat | s < t ensures Load(m', c.Out(s)) == Load(m, c.Out(s)) {
      assert Apart(c.Out(s), c.input);
    }
  }

  /** Reads `k` input blocks, stepping the counter in memory if the input is one. */
  method LoadInputs(mem: array<byte>, c: Call, inBlocks: int, k: nat, ghost n: nat, ghost t: nat)
      returns (blocks: seq<Block>)
    requires Accessible(c, mem[..], n) && t + k <= n && k >= 1 && inBlocks == c.In(t)
    modifies mem
    ensures mem[..] == Counted(c, old(mem[..]), k)
    ensures |blocks| == k && forall i: nat :: i < k ==> blocks[i] == BatchInput(c, old(mem[..]), n, t, i)
  {
    var now := mem[..];
    if c.counter {
      var first := Load(now, inBlocks);
      blocks := seq(k, i requires 0 <= i < k => AddCounter(first, i));
      StoreBlock(mem, inBlocks, AddCounter(first, k));
    } else {
      var increment := if c.fixed then 0 else if c.reverse then -16 else 16;
      forall i: nat | i < k ensures inBlocks + i * increment == c.In(t + i) && InMemory(now, c.In(t + i)) {
      }
      blocks := seq(k, i requires 0 <= i < k => Load(now, inBlocks + i * increment));
    }
  }

  /** Combines each block with its exclusive-or block. */
  method XorEach(mem: array<byte>, c: Call, xorBlocks: int, blocks: seq<Block>, ghost n: nat, ghost t: nat)
      returns (r: seq<Block>)
    requires Accessible(c, mem[..], n) && t + |blocks| <= n && c.mode != NoXor && xorBlocks == c.Other(t)
    ensures |r| == |blocks|
    ensures forall i: nat :: i < |blocks| ==> r[i] == XorBytes(blocks[i], Load(mem[..], c.Other(t + i)))
  {
    var now := mem[..];
    forall i: nat | i < |blocks| ensures c.Move(xorBlocks, i) == c.Other(t + i) && InMemory(now, c.Other(t + i)) {
    }
    r := seq(|blocks|, i requires 0 <= i < |blocks| => XorBytes(blocks[i], Load(now, c.Move(xorBlocks, i))));
  }

  method StoreEach(mem: array<byte>, c: Call, outIn: int, blocks: seq<Block>, ghost n: nat, ghost t: nat)
    requires Accessible(c, mem[..], n) && t + |blocks| <= n && (blocks != [] ==> outIn == c.Out(t))
    modifies mem
    ensures mem[..] == StoreAll(c, old(mem[..]), n, t, blocks)
  {
    hide Stored;
    ghost var m := mem[..];
    var i, outBlocks := 0, outIn;
    while i < |blocks|
      invariant 0 <= i <= |blocks| && (i < |blocks| ==> outBlocks == c.Out(t + i))
      invariant mem[..] == StoreAll(c, m, n, t, blocks[..i])
    {
      StoreBlock(mem, outBlocks, blocks[i]);
      assert blocks[..i + 1][..i] == blocks[..i];
      outBlocks := outBlocks + if c.fixed then 0 else if c.reverse then -16 else 16;
      i := i + 1;
    }
    assert blocks[..i] == blocks;
  }

  /** One round of a batch loop: load `k` blocks, transform them together, store them. */
  method ProcessBatch(mem: array<byte>, c: Call, batch: seq<Block> -> seq<Block>, k: nat,
                      inBlocks: int, xorBlocks: int, outBlocks: int, ghost f: Cipher, ghost n: nat, ghost t: nat)
    requires Accessible(c, mem[..], n) && t + k <= n && k >= 1 && Batched(f, batch, k)
    requires inBlocks == c.In(t) && outBlocks == c.Out(t) && (c.mode != NoXor ==> xorBlocks == c.Other(t))
    modifies mem
    ensures mem[..] == BatchStep(f, c, old(mem[..]), n, t, k)
  {
    hide XorBytes, Counted, StoreAll, BatchInput;
    ghost var m := mem[..];
    var blocks := LoadInputs(mem, c, inBlocks, k, n, t);
    if c.mode == XorInput {
      blocks := XorEach(mem, c, xorBlocks, blocks, n, t);
    }
    blocks := batch(blocks);
    if c.mode == XorOutput {
      blocks := XorEach(mem, c, xorBlocks, blocks, n, t);
    }
    assert blocks == BatchOutputs(f, c, m, n, t, k);
    StoreEach(mem, c, outBlocks, blocks, n, t);
  }

  /** One turn of the loop adds one block to the progress. */
  lemma {:induction false} StepProgress(f: Cipher, c: Call, m0: seq<byte>, m: seq<byte>, n: nat, t: nat)
    requires Accessible(c, m0, n) && ReadsAhead(c, n) && t < n && Progress(f, c, m0, m, n, t, t) && Accessible(c, m, n)
    ensures Progress(f, c, m0, OneStep(f, c, m, n, t), n, t + 1, t + 1)
  {
    hide XorBytes, Stored;
    if !c.counter {
      ReadInput(f, c, m0, m, n, t, t, t);
    }
    var m1 := Counted(c, m, 1);
    if c.counter {
      TickProgress(f, c, m0, m, m1, n, t, t, 1);
    }
    if c.mode != NoXor {
      ReadOther(f, c, m0, m, n, t, t, t);
      ReadOther(f, c, m0, m1, n, t, if c.counter then t + 1 else t, t);
    }
    StoreProgress(f, c, m0, m1, OneStep(f, c, m, n, t), n, t, if c.counter then t + 1 else t);
  }

  /** Where no block is written before it is last read, the one-block loop gives every block its value. */
  lemma {:induction false} StepsProgress(f: Cipher, c: Call, m0: seq<byte>, n: nat, t: nat)
    requires Accessible(c, m0, n) && ReadsAhead(c, n) && t <= n
    ensures Progress(f, c, m0, Steps(f, c, m0, n, 0, t), n, t, t)
    decreases t
  {
    hide Progress, ReadsAhead, OneStep;
    if t == 0 {
      NoProgressYet(f, c, m0, n);
    } else {
      StepsProgress(f, c, m0, n, t - 1);
      StepProgress(f, c, m0, Steps(f, c, m0, n, 0, t - 1), n, t - 1);
    }
  }

  /** One turn of the one-block loop. */
  method ProcessOne(mem: array<byte>, c: Call, f: Cipher, inBlocks: int, xorBlocks: int, outBlocks: int, ghost n: nat,
                    ghost t: nat)
    requires Accessible(c, mem[..], n) && t < n
    requires inBlocks == c.In(t) && outBlocks == c.Out(t) && (c.mode != NoXor ==> xorBlocks == c.Other(t))
    modifies mem
    ensures mem[..] == OneStep(f, c, old(mem[..]), n, t)
  {
    hide XorBytes;
    ghost var m := mem[..];
    var block := Load(mem[..], inBlocks);
    if c.mode == XorInput {
      block := XorBytes(block, Load(mem[..], xorBlocks));
    }
    if c.counter {
      var last: nat := mem[inBlocks + 15];
      mem[inBlocks + 15] := (last + 1) % 256;
      assert mem[..] == Counted(c, m, 1);
    }
    block := f(block);
    if c.mode == XorOutput {
      block := XorBytes(block, Load(mem[..], xorBlocks));
    }
    StoreBlock(mem, outBlocks, block);
  }

  /** The one-block loop, over regions that may overlap in any way. */
  method OneBlockLoop(mem: array<byte>, c: Call, f: Cipher, lengthIn: nat, inIn: int, xorIn: int, outIn: int,
                      ghost n: nat, ghost t: nat) returns (length: nat)
    requires Accessible(c, mem[..], n) && t + lengthIn / 16 == n
    requires inIn == c.In(t) && outIn == c.Out(t) && (c.mode != NoXor ==> xorIn == c.Other(t))
    modifies mem
    ensures mem[..] == Steps(f, c, old(mem[..]), n, t, n - t) && length == lengthIn % 16
  {
    hide Accessible, OneStep;
    length := lengthIn;
    var inBlocks, xorBlocks, outBlocks := inIn, xorIn, outIn;
    var step := if c.reverse then -16 else 16;
    ghost var m, i := mem[..], 0;
    while length >= 16
      invariant t + i <= n && t + i + length / 16 == n && length % 16 == lengthIn % 16
      invariant mem[..] == Steps(f, c, m, n, t, i)
      invariant inBlocks == c.In(t + i) && outBlocks == c.Out(t + i)
                && (c.mode != NoXor ==> xorBlocks == c.Other(t + i))
    {
      ProcessOne(mem, c, f, inBlocks, xorBlocks, outBlocks, n, t + i);
      inBlocks := inBlocks + if c.counter || c.fixed then 0 else step;
      xorBlocks := xorBlocks + if c.mode != NoXor then step else 0;
      outBlocks := outBlocks + if c.fixed then 0 else step;
      length, i := length - 16, i + 1;
    }
  }

  /** A batch loop: as many rounds of `k` blocks as fit. */
  method BatchLoop(mem: array<byte>, c: Call, batch: seq<Block> -> seq<Block>, k: nat, lengthIn: nat,
                   inIn: int, xorIn: int, outIn: int, ghost f: Cipher, ghost n: nat, ghost from: nat)
      returns (length: nat, inBlocks: int, xorBlocks: int, outBlocks: int)
    requires Accessible(c, mem[..], n) && from + lengthIn / 16 == n
    requires (k == 2 || k == 4 || k == 6) && Batched(f, batch, k)
    requires inIn == c.In(from) && outIn == c.Out(from) && (c.mode != NoXor ==> xorIn == c.Other(from))
    modifies mem
    ensures mem[..] == BatchRun(f, c, old(mem[..]), n, from, k)
    ensures var t := AfterRun(n, from, k);
            && t + length / 16 == n && length % 16 == lengthIn % 16
            && inBlocks == c.In(t) && outBlocks == c.Out(t) && (c.mode != NoXor ==> xorBlocks == c.Other(t))
  {
    hide Accessible, Batched, BatchStep;
    length, inBlocks, xorBlocks, outBlocks := lengthIn, inIn, xorIn, outIn;
    var step := if c.reverse then -16 * k else 16 * k;
    ghost var m, t := mem[..], from;
    while length >= k * 16
      invariant from <= t <= n && t + length / 16 == n && length % 16 == lengthIn % 16 && Accessible(c, mem[..], n)
      invariant BatchRun(f, c, mem[..], n, t, k) == BatchRun(f, c, m, n, from, k)
                && AfterRun(n, t, k) == AfterRun(n, from, k)
      invariant inBlocks == c.In(t) && outBlocks == c.Out(t) && (c.mode != NoXor ==> xorBlocks == c.Other(t))
    {
      ProcessBatch(mem, c, batch, k, inBlocks, xorBlocks, outBlocks, f, n, t);
      inBlocks := inBlocks + if c.counter || c.fixed then 0 else step;
      xorBlocks := xorBlocks + if c.mode != NoXor then step else 0;
      outBlocks := outBlocks + if c.fixed then 0 else step;
      length, t := length - k * 16, t + k;
    }
  }

  lemma {:induction false} NoProgressYet(f: Cipher, c: Call, m: seq<byte>, n: nat)
    requires Accessible(c, m, n)
    ensures Progress(f, c, m, m, n, 0, 0)
  {
  }

  /**
   `AdvancedProcessBlocks128_4x1_SSE`. Without the parallel flag memory ends as the one-block loop leaves it,
   whatever overlaps; with it, too, as long as no batch disturbs itself.
   */
  method ProcessBlocks4x1(mem: array<byte>, f: Cipher, f4: seq<Block> -> seq<Block>,
                          input: int, other: int, output: int, length: nat,
                          reverse: bool, counter: bool, fixed: bool, mode: XorMode, parallel: bool) returns (left: nat)
    requires length >= 16 && Batched(f, f4, 4)
    requires Accessible(Begin(input, other, output, length, reverse, counter, fixed, mode), mem[..], length / 16)
    modifies mem
    ensures left == length % 16
    ensures var c := Begin(input, other, output, length, reverse, counter, fixed, mode);
            var n, ks := length / 16, if parallel then [4] else [];
            && mem[..] == Scheduled(f, c, old(mem[..]), n, 0, ks)
            && (Undisturbed(c, n, 0, ks) ==> mem[..] == Steps(f, c, old(mem[..]), n, 0, n))
  {
    hide Accessible, Batched, Steps, BatchRun, AfterRun, Undisturbed;
    var c := Begin(input, other, output, length, reverse, counter, fixed, mode);
    ghost var m, n, ks: seq<Size> := mem[..], length / 16, if parallel then [4] else [];
    var rest, inBlocks, xorBlocks, outBlocks := length, c.input, c.other, c.output;
    ghost var t := 0;
    if parallel {
      rest, inBlocks, xorBlocks, outBlocks := BatchLoop(mem, c, f4, 4, rest, inBlocks, xorBlocks, outBlocks, f, n, 0);
      t := AfterRun(n, 0, 4);
      assert ks[1..] == [];
    }
    left := OneBlockLoop(mem, c, f, rest, inBlocks, xorBlocks, outBlocks, n, t);
    if Undisturbed(c, n, 0, ks) {
      ScheduleAgrees(f, c, m, n, 0, ks);
    }
  }

  lemma {:induction false} TwoSizes(f: Cipher, c: Call, m: seq<byte>, n: nat, k: Size, k': Size)
    requires Accessible(c, m, n)
    ensures var t := AfterRun(n, 0, k);
            var t' := AfterRun(n, t, k');
            Scheduled(f, c, m, n, 0, [k, k'])
               == Steps(f, c, BatchRun(f, c, BatchRun(f, c, m, n, 0, k), n, t, k'), n, t', n - t')
  {
    hide Accessible, Steps, BatchRun, AfterRun;
    var ks: seq<Size> := [k'];
    var m' := BatchRun(f, c, m, n, 0, k);
    assert [k, k'][1..] == ks && ks[1..] == [];
    assert Scheduled(f, c, m, n, 0, [k, k']) == Scheduled(f, c, m', n, AfterRun(n, 0, k), ks);
  }

  /** `AdvancedProcessBlocks128_6x2_SSE`: rounds of six, rounds of two, then single blocks. */
  method ProcessBlocks6x2(mem: array<byte>, f: Cipher, f2: seq<Block> -> seq<Block>, f6: seq<Block> -> seq<Block>,
                          input: int, other: int, output: int, length: nat,
                          reverse: bool, counter: bool, fixed: bool, mode: XorMode, parallel: bool) returns (left: nat)
    requires length >= 16 && Batched(f, f2, 2) && Batched(f, f6, 6)
    requires Accessible(Begin(input, other, output, length, reverse, counter, fixed, mode), mem[..], length / 16)
    modifies mem
    ensures left == length % 16
    ensures var c := Begin(input, other, output, length, reverse, counter, fixed, mode);
            var n, ks := length / 16, if parallel then [6, 2] else [];
            && mem[..] == Scheduled(f, c, old(mem[..]), n, 0, ks)
            && (Undisturbed(c, n, 0, ks) ==> mem[..] == Steps(f, c, old(mem[..]), n, 0, n))
  {
    hide Accessible, Batched, Steps, BatchRun, AfterRun, Undisturbed;
    var c := Begin(input, other, output, length, reverse, counter, fixed, mode);
    ghost var m, n, ks: seq<Size> := mem[..], length / 16, if parallel then [6, 2] else [];
    var rest, inBlocks, xorBlocks, outBlocks := length, c.input, c.other, c.output;
    ghost var t := 0;
    if parallel {
      rest, inBlocks, xorBlocks, outBlocks := BatchLoop(mem, c, f6, 6, rest, inBlocks, xorBlocks, outBlocks, f, n, 0);
      t := AfterRun(n, 0, 6);
      rest, inBlocks, xorBlocks, outBlocks := BatchLoop(mem, c, f2, 2, rest, inBlocks, xorBlocks, outBlocks, f, n, t);
      t := AfterRun(n, t, 2);
      TwoSizes(f, c, m, n, 6, 2);
    }
    left := OneBlockLoop(mem, c, f, rest, inBlocks, xorBlocks, outBlocks, n, t);
    if Undisturbed(c, n, 0, ks) {
      ScheduleAgrees(f, c, m, n, 0, ks);
    }
  }

  // ---------- When batches and single blocks agree ----------

  /** Stores before block `u`, from block `t` on, leave the block at `p` alone. */
  ghost predicate Spared(c: Call, t: nat, u: nat, p: int) {
    forall s: nat :: t <= s < u ==> Apart(c.Out(s), p)
  }

  /** Input and exclusive-or block are the same and cancel each other, whatever they hold. */
  predicate Cancels(c: Call, u: nat) {
    c.mode == XorInput && !c.counter && c.In(u) == c.Other(u)
  }

  predicate Holds(p: int, j: int) {
    p <= j < p + 16
  }

  /** Block `u` of a batch of `k` at `t` reads nothing the batch has stored or counted differently by then. */
  ghost predicate ReadsOld(c: Call, t: nat, k: nat, u: nat) {
    && Spared(c, t, u, c.In(u))
    && (c.mode != NoXor ==> Spared(c, t, u, c.Other(u)))
    && (c.counter && (c.mode == XorInput || (c.mode == XorOutput && u < t + k - 1)) ==> !Holds(c.Other(u), c.input + 15))
  }

  /** No block of the batch is disturbed by the batch; with fixed pointers only the last one counts. */
  ghost predicate Agrees(c: Call, t: nat, k: nat) {
    forall u: nat :: t <= u < t + k && (c.fixed ==> u == t + k - 1) ==> Cancels(c, u) || ReadsOld(c, t, k, u)
  }

  /** The same of its first `i` blocks. */
  ghost predicate AgreesBefore(c: Call, t: nat, k: nat, i: nat) {
    if c.fixed then Agrees(c, t, k)
    else forall u: nat :: t <= u < t + i ==> Cancels(c, u) || ReadsOld(c, t, k, u)
  }

  /** No batch of the run disturbs itself. */
  ghost predicate AllAgree(c: Call, n: nat, t: nat, k: nat)
    requires t <= n && k >= 1
    decreases n - t
  {
    t + k <= n ==> Agrees(c, t, k) && AllAgree(c, n, t + k, k)
  }

  /** No batch of the call disturbs itself. */
  ghost predicate Undisturbed(c: Call, n: nat, t: nat, ks: seq<Size>)
    requires t <= n
    decreases |ks|
  {
    ks != [] ==> AllAgree(c, n, t, ks[0]) && Undisturbed(c, n, AfterRun(n, t, ks[0]), ks[1..])
  }

  lemma {:induction false} StepsSplit(f: Cipher, c: Call, m: seq<byte>, n: nat, t: nat, i: nat, j: nat)
    requires Accessible(c, m, n) && t + i + j <= n
    ensures Steps(f, c, Steps(f, c, m, n, t, i), n, t + i, j) == Steps(f, c, m, n, t, i + j)
    decreases j
  {
    hide Accessible, OneStep;
    if j > 0 {
      StepsSplit(f, c, m, n, t, i, j - 1);
    }
  }

  lemma {:induction false} StoresCommute(m: seq<byte>, p: int, b: Block, q: int, b': Block)
    requires InMemory(m, p) && InMemory(m, q) && Apart(p, q)
    ensures Stored(Stored(m, p, b), q, b') == Stored(Stored(m, q, b'), p, b)
  {
  }

  lemma {:induction false} CountedTwice(c: Call, m: seq<byte>, i: nat, j: nat)
    requires c.counter ==> InMemory(m, c.input)
    ensures Counted(c, m, 0) == m && Counted(c, Counted(c, m, i), j) == Counted(c, m, i + j)
  {
    if c.counter {
      var x := Load(m, c.input);
      StoredElsewhere(m, c.input, AddCounter(x, i), c.input);
      AddCounterTwice(x, i, j);
      StoredTwice(m, c.input, AddCounter(x, i), AddCounter(x, i + j));
    }
  }

  /** Only the last octet of the counter changes. */
  lemma {:induction false} CountedElsewhere(c: Call, m: seq<byte>, i: nat, p: int)
    requires (c.counter ==> InMemory(m, c.input)) && InMemory(m, p) && (c.counter ==> !Holds(p, c.input + 15))
    ensures Load(Counted(c, m, i), p) == Load(m, p)
  {
    if c.counter {
      forall j | p <= j < p + 16 ensures Counted(c, m, i)[j] == m[j] {
        if c.input <= j < c.input + 16 {
          assert Counted(c, m, i)[j] == AddCounter(Load(m, c.input), i)[j - c.input];
        }
      }
    }
  }

  lemma {:induction false} StoreAllSpares(c: Call, m: seq<byte>, n: nat, t: nat, ys: seq<Block>, p: int)
    requires Accessible(c, m, n) && t + |ys| <= n && InMemory(m, p) && Spared(c, t, t + |ys|, p)
    ensures Load(StoreAll(c, m, n, t, ys), p) == Load(m, p)
    decreases |ys|
  {
    hide Stored;
    if ys != [] {
      var i := |ys| - 1;
      StoreAllSpares(c, m, n, t, ys[..i], p);
      StoredElsewhere(StoreAll(c, m, n, t, ys[..i]), c.Out(t + i), ys[i], p);
    }
  }

  lemma {:induction false} StoreAllCounts(c: Call, m: seq<byte>, n: nat, t: nat, ys: seq<Block>)
    requires Accessible(c, m, n) && t + |ys| <= n && (c.counter ==> Spared(c, t, t + |ys|, c.input))
    ensures Counted(c, StoreAll(c, m, n, t, ys), 1) == StoreAll(c, Counted(c, m, 1), n, t, ys)
    decreases |ys|
  {
    hide Stored;
    if c.counter && ys != [] {
      var i := |ys| - 1;
      var m' := StoreAll(c, m, n, t, ys[..i]);
      StoreAllCounts(c, m, n, t, ys[..i]);
      StoredElsewhere(m', c.Out(t + i), ys[i], c.input);
      StoresCommute(m', c.Out(t + i), ys[i], c.input, AddCounter(Load(m', c.input), 1));
    }
  }

  /** What a spared block of the loop reads, before and after it counts, is what the batch reads. */
  lemma {:induction false} SameReads(c: Call, m: seq<byte>, n: nat, t: nat, k: nat, zs: seq<Block>)
    requires Accessible(c, m, n) && t + k <= n && |zs| < k && Accessible(c, Counted(c, m, |zs|), n)
    requires ReadsOld(c, t, k, t + |zs|)
    ensures var i, u := |zs|, t + |zs|;
            var m' := StoreAll(c, Counted(c, m, i), n, t, zs);
            && Load(m', c.In(u)) == BatchInput(c, m, n, t, i)
            && (c.mode == XorInput ==> Load(m', c.Other(u)) == Load(Counted(c, m, k), c.Other(u)))
            && (c.mode == XorOutput ==> Load(Counted(c, m', 1), c.Other(u)) == Load(Counted(c, m, k), c.Other(u)))
  {
    hide Stored, StoreAll, Apart;
    var i, u := |zs|, t + |zs|;
    var base := Counted(c, m, i);
    StoreAllSpares(c, base, n, t, zs, c.In(u));
    StoreAllCounts(c, base, n, t, zs);
    CountedTwice(c, m, i, 1);
    if c.counter {
      StoredElsewhere(m, c.input, AddCounter(Load(m, c.input), i), c.input);
    }
    if c.mode != NoXor {
      StoreAllSpares(c, base, n, t, zs, c.Other(u));
      StoreAllSpares(c, Counted(c, m, i + 1), n, t, zs, c.Other(u));
      if c.mode == XorInput || i + 1 < k {
        CountedElsewhere(c, m, i, c.Other(u));
        CountedElsewhere(c, m, i + 1, c.Other(u));
        CountedElsewhere(c, m, k, c.Other(u));
      }
    }
  }

  /** So a block that is not disturbed becomes the same in the loop and in the batch. */
  lemma {:induction false} SameOutput(f: Cipher, c: Call, m: seq<byte>, n: nat, t: nat, k: nat, zs: seq<Block>)
    requires Accessible(c, m, n) && t + k <= n && |zs| < k && Accessible(c, Counted(c, m, |zs|), n)
    requires Cancels(c, t + |zs|) || ReadsOld(c, t, k, t + |zs|)
    ensures StepOutput(f, c, StoreAll(c, Counted(c, m, |zs|), n, t, zs), n, t + |zs|)
            == BatchOutput(f, c, m, n, t, k, |zs|)
  {
    hide Stored, StoreAll, XorBytes, ReadsOld;
    var u := t + |zs|;
    if Cancels(c, u) {
      XorBytesSelf(Load(StoreAll(c, m, n, t, zs), c.In(u)));
      XorBytesSelf(Load(m, c.In(u)));
    } else {
      SameReads(c, m, n, t, k, zs);
    }
  }

  /** The loop over `i` blocks of a batch stores the batch's outputs, as far as they are not stored over again. */
  lemma {:induction false} StepsStore(f: Cipher, c: Call, m: seq<byte>, n: nat, t: nat, k: nat, i: nat)
      returns (zs: seq<Block>)
    requires Accessible(c, m, n) && i <= k && t + k <= n && AgreesBefore(c, t, k, i)
    ensures |zs| == i && Accessible(c, Counted(c, m, i), n)
    ensures Steps(f, c, m, n, t, i) == StoreAll(c, Counted(c, m, i), n, t, zs)
    ensures forall j: nat :: j < i && (c.fixed ==> j == k - 1) ==> zs[j] == BatchOutput(f, c, m, n, t, k, j)
    decreases i
  {
    hide Stored, BatchOutput, StepOutput, ReadsOld, Counted, OneStep, StoreAll, Spared;
    NothingStored(c, m, n, t);
    CountedTwice(c, m, if i == 0 then 0 else i - 1, 1);
    if i == 0 {
      zs := [];
    } else {
      var ys := StepsStore(f, c, m, n, t, k, i - 1);
      zs := ys + [StepOutput(f, c, Steps(f, c, m, n, t, i - 1), n, t + i - 1)];
      CounterSpared(c, t, k, i - 1);
      StoreOne(f, c, Counted(c, m, i - 1), n, t, ys);
      if !c.fixed || i == k {
        SameOutput(f, c, m, n, t, k, ys);
      }
    }
  }

  lemma {:induction false} StoreOne(f: Cipher, c: Call, m: seq<byte>, n: nat, t: nat, ys: seq<Block>)
    requires Accessible(c, m, n) && t + |ys| < n && (c.counter ==> Spared(c, t, t + |ys|, c.input))
    ensures Accessible(c, Counted(c, m, 1), n)
    ensures var m' := StoreAll(c, m, n, t, ys);
            OneStep(f, c, m', n, t + |ys|)
               == StoreAll(c, Counted(c, m, 1), n, t, ys + [StepOutput(f, c, m', n, t + |ys|)])
  {
    hide Stored, StepOutput;
    StoreAllCounts(c, m, n, t, ys);
    var y := StepOutput(f, c, StoreAll(c, m, n, t, ys), n, t + |ys|);
    assert (ys + [y])[..|ys|] == ys;
  }

  lemma {:induction false} CounterSpared(c: Call, t: nat, k: nat, i: nat)
    requires i < k && AgreesBefore(c, t, k, i + 1)
    ensures c.counter ==> Spared(c, t, t + i, c.input)
  {
    if c.counter {
      var u := if c.fixed then t + k - 1 else t + i;
      assert ReadsOld(c, t, k, u);
    }
  }

  lemma {:induction false} NothingStored(c: Call, m: seq<byte>, n: nat, t: nat)
    requires Accessible(c, m, n) && t <= n
    ensures StoreAll(c, m, n, t, []) == m
  {
  }

  lemma {:induction false} LastStays(c: Call, m: seq<byte>, n: nat, t: nat, ys: seq<Block>)
    requires Accessible(c, m, n) && t + |ys| <= n && c.fixed && ys != []
    ensures InMemory(m, c.Out(t)) && StoreAll(c, m, n, t, ys) == Stored(m, c.Out(t), ys[|ys| - 1])
    decreases |ys|
  {
    hide Stored;
    var i := |ys| - 1;
    if i > 0 {
      LastStays(c, m, n, t, ys[..i]);
      StoredTwice(m, c.Out(t), ys[i - 1], ys[i]);
    }
  }

  /** A batch that does not disturb itself leaves what its single blocks would leave, for every cipher and memory. */
  lemma {:induction false} BatchAgrees(f: Cipher, c: Call, m: seq<byte>, n: nat, t: nat, k: nat)
    requires Accessible(c, m, n) && k >= 1 && t + k <= n && Agrees(c, t, k)
    ensures BatchStep(f, c, m, n, t, k) == Steps(f, c, m, n, t, k)
  {
    hide Stored, BatchOutput, Steps, StoreAll, Counted, ReadsOld;
    var zs := StepsStore(f, c, m, n, t, k, k);
    var ys := BatchOutputs(f, c, m, n, t, k);
    if c.fixed {
      LastStays(c, Counted(c, m, k), n, t, zs);
      LastStays(c, Counted(c, m, k), n, t, ys);
    } else {
      assert zs == ys;
    }
  }

  lemma {:induction false} RunAgrees(f: Cipher, c: Call, m: seq<byte>, n: nat, t: nat, k: nat)
    requires Accessible(c, m, n) && k >= 1 && t <= n && AllAgree(c, n, t, k)
    ensures BatchRun(f, c, m, n, t, k) == Steps(f, c, m, n, t, AfterRun(n, t, k) - t)
    decreases n - t
  {
    hide Steps, BatchStep, Agrees, Accessible;
    if t + k <= n {
      BatchAgrees(f, c, m, n, t, k);
      RunAgrees(f, c, BatchStep(f, c, m, n, t, k), n, t + k, k);
      StepsSplit(f, c, m, n, t, k, AfterRun(n, t, k) - t - k);
    } else {
      NoSteps(f, c, m, n, t);
    }
  }

  lemma {:induction false} NoSteps(f: Cipher, c: Call, m: seq<byte>, n: nat, t: nat)
    requires Accessible(c, m, n) && t <= n
    ensures Steps(f, c, m, n, t, 0) == m
  {
  }

  /** A call none of whose batches disturbs itself leaves what the one-block loop would leave. */
  lemma {:induction false} ScheduleAgrees(f: Cipher, c: Call, m: seq<byte>, n: nat, t: nat, ks: seq<Size>)
    requires Accessible(c, m, n) && t <= n && Undisturbed(c, n, t, ks)
    ensures Scheduled(f, c, m, n, t, ks) == Steps(f, c, m, n, t, n - t)
    decreases |ks|
  {
    hide Steps, BatchRun, AllAgree, Accessible, AfterRun;
    if ks != [] {
      var t' := AfterRun(n, t, ks[0]);
      RunAgrees(f, c, m, n, t, ks[0]);
      ScheduleAgrees(f, c, BatchRun(f, c, m, n, t, ks[0]), n, t', ks[1..]);
      StepsSplit(f, c, m, n, t, t' - t, n - t');
    }
  }

  /** Where no block of the whole call is written before it is last read, no batch disturbs itself. */
  lemma {:induction false} AheadAgrees(c: Call, n: nat, t: nat, k: nat)
    requires ReadsAhead(c, n) && t <= n && k >= 1
    ensures AllAgree(c, n, t, k)
    decreases n - t
  {
    if t + k <= n {
      AheadAgrees(c, n, t + k, k);
    }
  }

  lemma {:induction false} AheadUndisturbed(c: Call, n: nat, t: nat, ks: seq<Size>)
    requires ReadsAhead(c, n) && t <= n
    ensures Undisturbed(c, n, t, ks)
    decreases |ks|
  {
    hide ReadsAhead, AllAgree, AfterRun;
    if ks != [] {
      AheadAgrees(c, n, t, ks[0]);
      AheadUndisturbed(c, n, AfterRun(n, t, ks[0]), ks[1..]);
    }
  }

  // ---------- Uses that the condition admits ----------

  /** In place, without exclusive or, in either direction. */
  lemma {:induction false} InPlaceReadsAhead(p: int, other: int, length: nat, reverse: bool)
    requires length >= 16
    ensures ReadsAhead(Begin(p, other, p, length, reverse, false, false, NoXor), length / 16)
  {
  }

  /** Separate regions, in either direction and mode. */
  lemma {:induction false} SeparateReadsAhead(input: int, other: int, output: int, length: nat, reverse: bool,
                                              mode: XorMode)
    requires length >= 16
    requires output + length <= input || input + length <= output
    requires output + length <= other || other + length <= output
    ensures ReadsAhead(Begin(input, other, output, length, reverse, false, false, mode), length / 16)
  {
  }

  /** Counter mode over the text in place, with the counter block outside it. */
  lemma {:induction false} CounterReadsAhead(counter: int, text: int, length: nat)
    requires length >= 16 && (counter + 16 <= text || text + length <= counter)
    ensures ReadsAhead(Begin(counter, text, text, length, false, true, false, XorOutput), length / 16)
  {
  }

  /** CBC decryption in place: output over input, each block combined with the one before it, backwards. */
  lemma {:induction false} ReverseCbcReadsAhead(p: int, length: nat)
    requires length >= 16
    ensures ReadsAhead(Begin(p, p - 16, p, length, true, false, false, XorOutput), length / 16)
  {
  }

  /**
   What in-place CBC decryption leaves: every block is `f` of the old block, combined with the old block before it.
   */
  lemma {:induction false} ReverseCbcResult(f: Cipher, p: int, m0: seq<byte>, n: nat, i: nat)
    requires n >= 1 && i < n && p >= 16 && p + 16 * n <= |m0|
    ensures var c := Begin(p, p - 16, p, 16 * n, true, false, false, XorOutput);
            && Accessible(c, m0, n) && |Steps(f, c, m0, n, 0, n)| == |m0|
            && Load(Steps(f, c, m0, n, 0, n), p + 16 * i)
               == XorBytes(f(Load(m0, p + 16 * i)), Load(m0, p + 16 * i - 16))
  {
    hide Steps, XorBytes;
    var c := Begin(p, p - 16, p, 16 * n, true, false, false, XorOutput);
    ReverseCbcReadsAhead(p, 16 * n);
    StepsProgress(f, c, m0, n, n);
    assert c.Out(n - 1 - i) == p + 16 * i;
    assert Load(Steps(f, c, m0, n, 0, n), c.Out(n - 1 - i)) == Value(f, c, m0, n, n - 1 - i);
  }

  // ---------- One block after the other, each depending on the one before ----------

  /** Octets outside a stored block keep their value. */
  lemma {:induction false} StoredElsewhere(m: seq<byte>, p: int, b: Block, q: int)
    requires InMemory(m, p) && InMemory(m, q)
    ensures Load(Stored(m, p, b), p) == b && (Apart(p, q) ==> Load(Stored(m, p, b), q) == Load(m, q))
  {
  }

  /** With fixed input and output over the same block, the text is chained into it: CBC-MAC. */
  lemma {:induction false} FixedIsChain(f: Cipher, p: nat, text: nat, m0: seq<byte>, n: nat, t: nat)
    requires p + 16 <= |m0| && text + 16 * n <= |m0| && (text + 16 * n <= p || p + 16 <= text) && t <= n
    ensures var c := Call(p, text, p, false, false, true, XorInput);
            && Accessible(c, m0, n)
            && Steps(f, c, m0, n, 0, t) == Stored(m0, p, Chain(f, Load(m0, p), m0[text..text + 16 * t]))
    decreases t
  {
    hide Chain, XorBytes, Stored, OneStep;
    var x := Load(m0, p);
    if t == 0 {
      ChainNone(f, x);
      assert m0[text..text] == [];
      StoredAgain(m0, p);
    } else {
      FixedIsChain(f, p, text, m0, n, t - 1);
      var done, block := m0[text..text + 16 * (t - 1)], Load(m0, text + 16 * (t - 1));
      assert m0[text..text + 16 * t] == done + block;
      ChainSplit(f, x, done, block);
      ChainOne(f, Chain(f, x, done), block);
      FixedStep(f, p, text, m0, n, t - 1, Chain(f, x, done));
    }
  }

  lemma {:induction false} FixedStep(f: Cipher, p: nat, text: nat, m0: seq<byte>, n: nat, t: nat, y: Block)
    requires p + 16 <= |m0| && text + 16 * n <= |m0| && (text + 16 * n <= p || p + 16 <= text) && t < n
    ensures var c := Call(p, text, p, false, false, true, XorInput);
            && Accessible(c, Stored(m0, p, y), n)
            && OneStep(f, c, Stored(m0, p, y), n, t) == Stored(m0, p, f(XorBytes(y, Load(m0, text + 16 * t))))
  {
    hide XorBytes, Stored;
    StoredElsewhere(m0, p, y, text + 16 * t);
    StoredTwice(m0, p, y, f(XorBytes(y, Load(m0, text + 16 * t))));
  }

  lemma {:induction false} StoredAgain(m: seq<byte>, p: int)
    requires InMemory(m, p)
    ensures Stored(m, p, Load(m, p)) == m
  {
  }

  lemma {:induction false} StoredTwice(m: seq<byte>, p: int, b: Block, b': Block)
    requires InMemory(m, p)
    ensures Stored(Stored(m, p, b), p, b') == Stored(m, p, b')
  {
  }

  /** The regions of a CBC encryption: in place, or apart. */
  ghost predicate CbcRegions(p: nat, q: nat, size: nat, n: nat) {
    p + 16 * n + 16 <= size && q + 16 * n + 16 <= size && (p == q || p + 16 * n + 16 <= q || q + 16 * n + 16 <= p)
  }

  /** CBC encryption, forwards: each exclusive-or block is the output just written. Memory after `t` blocks. */
  ghost predicate Encrypted(f: Cipher, p: nat, q: nat, m0: seq<byte>, m: seq<byte>, n: nat, t: nat)
    requires CbcRegions(p, q, |m0|, n) && t <= n
  {
    && |m| == |m0|
    && (forall j :: 0 <= j < |m| && !(q + 16 <= j < q + 16 + 16 * t) ==> m[j] == m0[j])
    && (forall i: nat :: i < t ==> Load(m, q + 16 + 16 * i) == f(XorBytes(Load(m0, p + 16 + 16 * i), Load(m, q + 16 * i))))
  }

  lemma {:induction false} ForwardCbcStep(f: Cipher, p: nat, q: nat, m0: seq<byte>, m: seq<byte>, n: nat, t: nat)
    requires CbcRegions(p, q, |m0|, n) && t < n && Encrypted(f, p, q, m0, m, n, t)
    ensures var b := f(XorBytes(Load(m, p + 16 + 16 * t), Load(m, q + 16 * t)));
            Encrypted(f, p, q, m0, Stored(m, q + 16 + 16 * t, b), n, t + 1)
  {
    hide XorBytes;
    var at := q + 16 + 16 * t;
    assert Load(m, p + 16 + 16 * t) == Load(m0, p + 16 + 16 * t);
    var b := f(XorBytes(Load(m, p + 16 + 16 * t), Load(m, q + 16 * t)));
    var m' := Stored(m, at, b);
    forall i: nat | i < t + 1
      ensures Load(m', q + 16 + 16 * i) == f(XorBytes(Load(m0, p + 16 + 16 * i), Load(m', q + 16 * i)))
    {
      StoredElsewhere(m, at, b, q + 16 * i);
      StoredElsewhere(m, at, b, q + 16 + 16 * i);
    }
  }

  /** Every block becomes the cipher of the old block combined with the new block before it. */
  lemma {:induction false} ForwardCbcResult(f: Cipher, p: nat, q: nat, m0: seq<byte>, n: nat, t: nat)
    requires CbcRegions(p, q, |m0|, n) && t <= n
    ensures var c := Call(p + 16, q, q + 16, false, false, false, XorInput);
            Accessible(c, m0, n) && Encrypted(f, p, q, m0, Steps(f, c, m0, n, 0, t), n, t)
    decreases t
  {
    hide XorBytes, Stored, Encrypted;
    var c := Call(p + 16, q, q + 16, false, false, false, XorInput);
    if t == 0 {
      NothingEncrypted(f, p, q, m0, n);
    } else {
      ForwardCbcResult(f, p, q, m0, n, t - 1);
      ForwardCbcStep(f, p, q, m0, Steps(f, c, m0, n, 0, t - 1), n, t - 1);
    }
  }

  lemma {:induction false} NothingEncrypted(f: Cipher, p: nat, q: nat, m0: seq<byte>, n: nat)
    requires CbcRegions(p, q, |m0|, n)
    ensures Encrypted(f, p, q, m0, m0, n, 0)
  {
  }
}
