/**
 Which overlaps the batches of `adv-simd.h` bear, for calls without a counter whose pointers move: exactly those where
 the output does not run ahead of what is read by less than a batch.
 */
module BlockOverlaps {
  import opened Bytes
  import opened CbcMac
  import opened BlockBatches

  /** How far the output is ahead of the region that starts at `p`, in the direction of the call. */
  function Lead(c: Call, p: int): (d: int) {
    if c.reverse then p - c.output else c.output - p
  }

  /** The output runs ahead of the region, by less than a batch of `k`. */
  predicate Overruns(c: Call, p: int, k: nat) {
    0 < Lead(c, p) < 16 * k
  }

  /** Nothing that is read is overrun, or the two things that are read cancel each other. */
  predicate Clear(c: Call, k: nat) {
    || (c.mode == XorInput && c.input == c.other)
    || (!Overruns(c, c.input, k) && (c.mode != NoXor ==> !Overruns(c, c.other, k)))
  }

  predicate Moving(c: Call) {
    !c.fixed && !c.counter
  }

  // ---------- The closed form of the condition ----------

  /** A region is overrun exactly when some block of a batch reads what an earlier one has stored. */
  lemma {:induction false} OverrunReads(c: Call, p: int, t: nat, k: nat)
    requires Moving(c) && k >= 2
    ensures !Overruns(c, p, k) <==> forall u: nat :: t <= u < t + k ==> Spared(c, t, u, c.Move(p, u))
  {
    if Overruns(c, p, k) {
      var u := t + FirstRead(c, p);
      assert !Apart(c.Out(t), c.Move(p, u));
      assert !Spared(c, t, u, c.Move(p, u));
    }
  }

  /** The first block that reads from the overrun region what has been stored: it reads the first block stored. */
  function FirstRead(c: Call, p: int): (u: nat)
    requires Lead(c, p) > 0
    ensures u >= 1
  {
    if Lead(c, p) < 16 then 1 else Lead(c, p) / 16
  }

  lemma {:induction false} MovingAgrees(c: Call, t: nat, k: nat)
    requires Moving(c) && k >= 2
    ensures Agrees(c, t, k) <==> Clear(c, k)
  {
    hide Overruns, Spared;
    OverrunReads(c, c.input, t, k);
    OverrunReads(c, c.other, t, k);
    if Agrees(c, t, k) && !(c.mode == XorInput && c.input == c.other) {
      forall u: nat | t <= u < t + k
        ensures Spared(c, t, u, c.Move(c.input, u)) && (c.mode != NoXor ==> Spared(c, t, u, c.Move(c.other, u)))
      {
        assert !Cancels(c, u) && (Cancels(c, u) || ReadsOld(c, t, k, u));
      }
    }
  }

  lemma {:induction false} RunIsClear(c: Call, n: nat, t: nat, k: nat)
    requires Moving(c) && k >= 2 && t <= n
    ensures AllAgree(c, n, t, k) <==> (t + k <= n ==> Clear(c, k))
    decreases n - t
  {
    hide Agrees, Clear;
    if t + k <= n {
      MovingAgrees(c, t, k);
      RunIsClear(c, n, t + k, k);
    }
  }

  /** Which is what the two routines ask of such a call; a caller can check it by comparing pointers. */
  lemma {:induction false} CallIsClear(c: Call, n: nat)
    requires Moving(c)
    ensures Undisturbed(c, n, 0, [4]) <==> (n >= 4 ==> Clear(c, 4))
    ensures Undisturbed(c, n, 0, [6, 2]) <==> if n >= 6 then Clear(c, 6) else n >= 2 ==> Clear(c, 2)
  {
    hide AllAgree, AfterRun;
    RunIsClear(c, n, 0, 4);
    RunIsClear(c, n, 0, 6);
    RunIsClear(c, n, AfterRun(n, 0, 6), 2);
    ShortRun(n, 6);
    var ks: seq<Size> := [2];
    assert [6, 2][1..] == ks && ks[1..] == [];
    assert Undisturbed(c, n, AfterRun(n, 0, 6), ks) <==> AllAgree(c, n, AfterRun(n, 0, 6), 2);
  }

  lemma {:induction false} ShortRun(n: nat, k: nat)
    requires k >= 1
    ensures n < k ==> AfterRun(n, 0, k) == 0
  {
  }

  // ---------- Where it fails, the results differ ----------

  /** The whole of the memory holds zeros, and a block of zeros becomes ones, any other twos. */
  function Marks(b: Block): (r: Block) {
    if b == Zeros(16) then Filled(1) else Filled(2)
  }

  function Filled(v: byte): (b: Block) {
    seq(16, i => v)
  }

  lemma {:induction false} ZeroOutput(c: Call, size: nat, n: nat, k: nat, i: nat)
    requires Moving(c) && Accessible(c, Zeros(size), n) && i < k <= n
    ensures BatchOutput(Marks, c, Zeros(size), n, 0, k, i) == Filled(1)
  {
    hide XorBytes;
    var m := Zeros(size);
    assert Load(m, c.In(i)) == Zeros(16);
    if c.mode != NoXor {
      assert Load(m, c.Other(i)) == Zeros(16);
      XorBytesZeros(Zeros(16));
      XorBytesZeros(Filled(1));
    }
  }

  /** Ones where the first outputs are, zeros elsewhere. */
  lemma {:induction false} OnesStored(c: Call, size: nat, n: nat, ys: seq<Block>, j: nat)
    requires Moving(c) && Accessible(c, Zeros(size), n) && |ys| <= n && j < size
    requires forall i: nat :: i < |ys| ==> ys[i] == Filled(1)
    ensures StoreAll(c, Zeros(size), n, 0, ys)[j] == if Written(c, |ys|, j) then 1 else 0
    decreases |ys|
  {
    if ys != [] {
      OnesStored(c, size, n, ys[..|ys| - 1], j);
    }
  }

  /**
   Two different windows of 16 octets, one of which at least starts to reach the stored blocks, see them differently.
   */
  lemma {:induction false} WindowsDiffer(c: Call, u: nat, p: int, q: int) returns (i: nat)
    requires Moving(c) && p != q && u >= 1 && (Reaches(c, u, p) || Reaches(c, u, q))
    requires (Reaches(c, u, p) || Spared(c, 0, u, p)) && (Reaches(c, u, q) || Spared(c, 0, u, q))
    ensures i < 16 && Written(c, u, p + i) != Written(c, u, q + i)
  {
    if Reaches(c, u, p) && Reaches(c, u, q) {
      var a, b := if p < q then p else q, if p < q then q else p;
      i := if b <= c.output && !(c.reverse && u > 1) then c.output - b
           else if a >= c.output then c.output + 15 - a
           else 0;
    } else if Reaches(c, u, p) {
      i := Reached(c, u, p);
      NothingReached(c, u, q, i);
    } else {
      i := Reached(c, u, q);
      NothingReached(c, u, p, i);
    }
  }

  /** A window that reaches stored blocks for the first time: of several, only the first. */
  predicate Reaches(c: Call, u: nat, p: int) {
    && -16 < p - c.output < 16
    && (u > 1 ==> if c.reverse then p >= c.output else p <= c.output)
  }

  lemma {:induction false} Reached(c: Call, u: nat, p: int) returns (i: nat)
    requires Moving(c) && u >= 1 && Reaches(c, u, p)
    ensures i < 16 && Written(c, u, p + i)
  {
    i := if p <= c.output then c.output - p else c.output + 15 - p;
  }

  lemma {:induction false} NothingReached(c: Call, u: nat, p: int, i: nat)
    requires Moving(c) && Spared(c, 0, u, p) && i < 16
    ensures !Written(c, u, p + i)
  {
    if Written(c, u, p + i) {
      var s := BlockOf(c, u, p + i);
      assert false;
    }
  }

  /** One of the two regions that are read is overrun, and block `u` is the first to notice. */
  ghost predicate FirstNotices(c: Call, u: nat) {
    && u >= 1 && Agrees(c, 0, u)
    && (Reaches(c, u, c.In(u)) || Spared(c, 0, u, c.In(u)))
    && (c.mode != NoXor ==> Reaches(c, u, c.Other(u)) || Spared(c, 0, u, c.Other(u)))
    && (Reaches(c, u, c.In(u)) || (c.mode != NoXor && Reaches(c, u, c.Other(u))))
    && (c.mode == XorInput ==> c.input != c.other)
  }

  lemma {:induction false} SomeNotices(c: Call, k: nat) returns (u: nat)
    requires Moving(c) && k >= 2 && !Clear(c, k)
    ensures u < k && FirstNotices(c, u)
  {
    var d, d' := if Overruns(c, c.input, k) then FirstRead(c, c.input) else k, k;
    if c.mode != NoXor && Overruns(c, c.other, k) {
      d' := FirstRead(c, c.other);
    }
    u := if d < d' then d else d';
    RegionNotices(c, c.input, k, u);
    if c.mode != NoXor {
      RegionNotices(c, c.other, k, u);
    }
    if u >= 2 {
      MovingAgrees(c, 0, u);
    }
  }

  lemma {:induction false} RegionNotices(c: Call, p: int, k: nat, u: nat)
    requires Moving(c) && 1 <= u < k && (Overruns(c, p, k) ==> u <= FirstRead(c, p))
    ensures if Overruns(c, p, k)
            && u == FirstRead(c, p) then Reaches(c, u, c.Move(p, u)) else Spared(c, 0, u, c.Move(p, u))
  {
  }

  /** Memory before that block: ones where it has been written, zeros elsewhere. */
  lemma {:induction false} BeforeNotice(c: Call, size: nat, n: nat, u: nat, j: nat)
    requires Moving(c) && Accessible(c, Zeros(size), n) && u < n && FirstNotices(c, u) && j < size
    ensures Steps(Marks, c, Zeros(size), n, 0, u)[j] == if Written(c, u, j) then 1 else 0
  {
    hide Steps, StoreAll, BatchOutput, Written, Agrees, Reaches, Spared;
    BatchAgrees(Marks, c, Zeros(size), n, 0, u);
    var ys := BatchOutputs(Marks, c, Zeros(size), n, 0, u);
    forall i: nat | i < u ensures ys[i] == Filled(1) {
      ZeroOutput(c, size, n, u, i);
    }
    OnesStored(c, size, n, ys, j);
  }

  /** What it reads there. */
  lemma {:induction false} ReadAtNotice(c: Call, size: nat, n: nat, u: nat, p: int)
    requires Moving(c) && Accessible(c, Zeros(size), n) && u < n && FirstNotices(c, u) && InMemory(Zeros(size), p)
    ensures forall i: nat :: i < 16 ==> Load(Steps(Marks, c, Zeros(size), n, 0, u), p)[i] == if Written(c, u, p + i) then 1 else 0
  {
    hide Steps, Written, FirstNotices;
    forall i: nat | i < 16
      ensures Load(Steps(Marks, c, Zeros(size), n, 0, u), p)[i] == if Written(c, u, p + i) then 1 else 0
    {
      BeforeNotice(c, size, n, u, p + i);
    }
  }

  lemma {:induction false} SmallXors()
    ensures XorByte(0, 0) == 0 && XorByte(0, 1) == 1 && XorByte(1, 0) == 1 && XorByte(1, 1) == 0
    ensures XorByte(2, 0) == 2 && XorByte(2, 1) == 3
  {
  }

  /** So it becomes something else than ones. */
  lemma {:induction false} OtherOutput(c: Call, size: nat, n: nat, u: nat)
    requires Moving(c) && Accessible(c, Zeros(size), n) && u < n && FirstNotices(c, u)
    ensures StepOutput(Marks, c, Steps(Marks, c, Zeros(size), n, 0, u), n, u) != Filled(1)
  {
    hide Steps, Written, Agrees, XorByte;
    var m := Steps(Marks, c, Zeros(size), n, 0, u);
    var y := StepOutput(Marks, c, m, n, u);
    ReadAtNotice(c, size, n, u, c.In(u));
    SmallXors();
    if c.mode == XorInput {
      ReadAtNotice(c, size, n, u, c.Other(u));
      var i := WindowsDiffer(c, u, c.In(u), c.Other(u));
      assert XorBytes(Load(m, c.In(u)), Load(m, c.Other(u)))[i] == 1;
      assert y[0] == 2;
    } else if Reaches(c, u, c.In(u)) {
      var i := Reached(c, u, c.In(u));
      assert Load(m, c.In(u))[i] == 1;
      if c.mode == XorOutput {
        ReadAtNotice(c, size, n, u, c.Other(u));
        assert y[0] >= 2;
      } else {
        assert y[0] == 2;
      }
    } else {
      ReadAtNotice(c, size, n, u, c.Other(u));
      forall i: nat | i < 16 ensures Load(m, c.In(u))[i] == 0 {
        NothingReached(c, u, c.In(u), i);
      }
      assert Load(m, c.In(u)) == Zeros(16);
      var i := Reached(c, u, c.Other(u));
      assert y[i] == 0;
    }
  }

  // ---------- What is written stays ----------

  lemma {:induction false} StepsKeep(f: Cipher, c: Call, m: seq<byte>, n: nat, t: nat, i: nat, u: nat)
    requires Moving(c) && Accessible(c, m, n) && u < t && t + i <= n
    ensures Load(Steps(f, c, m, n, t, i), c.Out(u)) == Load(m, c.Out(u))
    decreases i
  {
    hide Stored, StepOutput;
    if i > 0 {
      StepsKeep(f, c, m, n, t, i - 1, u);
      var m' := Steps(f, c, m, n, t, i - 1);
      StoredElsewhere(m', c.Out(t + i - 1), StepOutput(f, c, m', n, t + i - 1), c.Out(u));
    }
  }

  lemma {:induction false} OneStepStores(f: Cipher, c: Call, m: seq<byte>, n: nat, u: nat)
    requires Moving(c) && Accessible(c, m, n) && u < n
    ensures Load(OneStep(f, c, m, n, u), c.Out(u)) == StepOutput(f, c, m, n, u)
  {
    hide Stored, StepOutput;
    StoredElsewhere(m, c.Out(u), StepOutput(f, c, m, n, u), c.Out(u));
  }

  /** After the whole loop, block `u` still is what it became in its step. */
  lemma {:induction false} LoopLeaves(f: Cipher, c: Call, m: seq<byte>, n: nat, u: nat)
    requires Moving(c) && Accessible(c, m, n) && u < n
    ensures Load(Steps(f, c, m, n, 0, n), c.Out(u)) == StepOutput(f, c, Steps(f, c, m, n, 0, u), n, u)
  {
    hide StepOutput, OneStep, Stored;
    var before, after := Steps(f, c, m, n, 0, u), Steps(f, c, m, n, 0, u + 1);
    assert after == OneStep(f, c, before, n, u);
    OneStepStores(f, c, before, n, u);
    StepsSplit(f, c, m, n, 0, u + 1, n - u - 1);
    StepsKeep(f, c, after, n, u + 1, n - u - 1, u);
  }

  lemma {:induction false} StoreAllHas(c: Call, m: seq<byte>, n: nat, t: nat, ys: seq<Block>, i: nat)
    requires !c.fixed && Accessible(c, m, n) && t + |ys| <= n && i < |ys|
    ensures Load(StoreAll(c, m, n, t, ys), c.Out(t + i)) == ys[i]
    decreases |ys|
  {
    hide Stored;
    var last := |ys| - 1;
    StoredElsewhere(StoreAll(c, m, n, t, ys[..last]), c.Out(t + last), ys[last], c.Out(t + i));
    if i < last {
      StoreAllHas(c, m, n, t, ys[..last], i);
    }
  }

  lemma {:induction false} RunKeeps(f: Cipher, c: Call, m: seq<byte>, n: nat, t: nat, k: nat, u: nat)
    requires Moving(c) && Accessible(c, m, n) && u < t <= n && k >= 1
    ensures Load(BatchRun(f, c, m, n, t, k), c.Out(u)) == Load(m, c.Out(u))
    decreases n - t
  {
    hide StoreAll, BatchOutput;
    if t + k <= n {
      StoreAllSpares(c, m, n, t, BatchOutputs(f, c, m, n, t, k), c.Out(u));
      RunKeeps(f, c, BatchStep(f, c, m, n, t, k), n, t + k, k, u);
    }
  }

  lemma {:induction false} ScheduleKeeps(f: Cipher, c: Call, m: seq<byte>, n: nat, t: nat, ks: seq<Size>, u: nat)
    requires Moving(c) && Accessible(c, m, n) && u < t <= n
    ensures Load(Scheduled(f, c, m, n, t, ks), c.Out(u)) == Load(m, c.Out(u))
    decreases |ks|
  {
    hide BatchRun, Steps;
    if ks == [] {
      StepsKeep(f, c, m, n, t, n - t, u);
    } else {
      RunKeeps(f, c, m, n, t, ks[0], u);
      ScheduleKeeps(f, c, BatchRun(f, c, m, n, t, ks[0]), n, AfterRun(n, t, ks[0]), ks[1..], u);
    }
  }

  /** After the whole call, block `u` of the first batch still is what the batch made of it. */
  lemma {:induction false} BatchesLeave(f: Cipher, c: Call, m: seq<byte>, n: nat, ks: seq<Size>, u: nat)
    requires Moving(c) && Accessible(c, m, n) && ks != [] && u < ks[0] <= n
    ensures Load(Scheduled(f, c, m, n, 0, ks), c.Out(u)) == BatchOutput(f, c, m, n, 0, ks[0], u)
  {
    hide StoreAll, BatchOutput;
    var k := ks[0];
    var m' := BatchStep(f, c, m, n, 0, k);
    StoreAllHas(c, m, n, 0, BatchOutputs(f, c, m, n, 0, k), u);
    RunKeeps(f, c, m', n, k, k, u);
    ScheduleKeeps(f, c, BatchRun(f, c, m, n, 0, k), n, AfterRun(n, 0, k), ks[1..], u);
  }

  /** Over zeros, a call that is not clear ends differently when it is batched. */
  lemma {:induction false} ResultsDiffer(c: Call, size: nat, n: nat, ks: seq<Size>)
    requires Moving(c) && Accessible(c, Zeros(size), n) && ks != [] && 2 <= ks[0] <= n && !Clear(c, ks[0])
    ensures Scheduled(Marks, c, Zeros(size), n, 0, ks) != Steps(Marks, c, Zeros(size), n, 0, n)
  {
    hide Scheduled, Steps, Clear, StepOutput, BatchOutput, FirstNotices;
    var u := SomeNotices(c, ks[0]);
    OtherOutput(c, size, n, u);
    LoopLeaves(Marks, c, Zeros(size), n, u);
    BatchesLeave(Marks, c, Zeros(size), n, ks, u);
    ZeroOutput(c, size, n, ks[0], u);
  }

  ghost predicate AgreesOver(f: Cipher, c: Call, m: seq<byte>, n: nat, ks: seq<Size>) {
    Accessible(c, m, n) && Scheduled(f, c, m, n, 0, ks) == Steps(f, c, m, n, 0, n)
  }

  /** Batched and one-block results are the same, whatever the cipher and the memory. */
  ghost predicate AlwaysAgrees(c: Call, size: nat, n: nat, ks: seq<Size>) {
    forall f: Cipher, m: seq<byte> :: |m| == size ==> AgreesOver(f, c, m, n, ks)
  }

  /** The batches of four are right exactly when nothing read is overrun by less than four blocks. */
  lemma {:induction false} Exact4x1(c: Call, size: nat, n: nat)
    requires Moving(c) && Accessible(c, Zeros(size), n)
    ensures AlwaysAgrees(c, size, n, [4]) <==> (n >= 4 ==> Clear(c, 4))
  {
    hide Scheduled, Steps, Clear, Undisturbed;
    CallIsClear(c, n);
    if n >= 4 ==> Clear(c, 4) {
      AgreesAlways(c, size, n, [4]);
    } else {
      ResultsDiffer(c, size, n, [4]);
      assert |Zeros(size)| == size && !AgreesOver(Marks, c, Zeros(size), n, [4]);
    }
  }

  lemma {:induction false} AgreesAlways(c: Call, size: nat, n: nat, ks: seq<Size>)
    requires Accessible(c, Zeros(size), n) && Undisturbed(c, n, 0, ks)
    ensures AlwaysAgrees(c, size, n, ks)
  {
    hide Scheduled, Steps, Undisturbed;
    forall f: Cipher, m: seq<byte> | |m| == size ensures AgreesOver(f, c, m, n, ks) {
      assert Accessible(c, m, n);
      ScheduleAgrees(f, c, m, n, 0, ks);
    }
  }

  /** The batches of six and two are right exactly when nothing read is overrun by less than the first batch. */
  lemma {:induction false} Exact6x2(c: Call, size: nat, n: nat)
    requires Moving(c) && Accessible(c, Zeros(size), n)
    ensures AlwaysAgrees(c, size, n, [6, 2]) <==> if n >= 6 then Clear(c, 6) else n >= 2 ==> Clear(c, 2)
  {
    hide Steps, Clear, Undisturbed;
    CallIsClear(c, n);
    if if n >= 6 then Clear(c, 6) else n >= 2 ==> Clear(c, 2) {
      AgreesAlways(c, size, n, [6, 2]);
    } else if n >= 6 {
      ResultsDiffer(c, size, n, [6, 2]);
      assert |Zeros(size)| == size && !AgreesOver(Marks, c, Zeros(size), n, [6, 2]);
    } else {
      ResultsDiffer(c, size, n, [2]);
      TooShort(Marks, c, Zeros(size), n);
      assert |Zeros(size)| == size && !AgreesOver(Marks, c, Zeros(size), n, [6, 2]);
    }
  }

  lemma {:induction false} TooShort(f: Cipher, c: Call, m: seq<byte>, n: nat)
    requires Accessible(c, m, n) && n < 6
    ensures Scheduled(f, c, m, n, 0, [6, 2]) == Scheduled(f, c, m, n, 0, [2])
  {
    var ks: seq<Size> := [2];
    assert [6, 2][1..] == ks;
  }

  /** CBC decryption in place would go wrong forwards, where each block is combined with the output just written. */
  lemma {:induction false} ForwardCbcClashes(p: nat, length: nat, size: nat)
    requires p >= 16 && length >= 64 && p + length <= size
    ensures var c := Begin(p, p - 16, p, length, false, false, false, XorOutput);
            var n := length / 16;
            && Accessible(c, Zeros(size), n)
            && Scheduled(Marks, c, Zeros(size), n, 0, [4]) != Steps(Marks, c, Zeros(size), n, 0, n)
  {
    ResultsDiffer(Begin(p, p - 16, p, length, false, false, false, XorOutput), size, length / 16, [4]);
  }

  /** An output four blocks ahead of the input is far enough for batches of four, though later batches read it. */
  lemma {:induction false} FarEnough(p: nat, length: nat)
    requires length >= 128
    ensures var c := Begin(p, 0, p + 64, length, false, false, false, NoXor);
            Undisturbed(c, length / 16, 0, [4]) && !ReadsAhead(c, length / 16)
  {
    var c := Begin(p, 0, p + 64, length, false, false, false, NoXor);
    CallIsClear(c, length / 16);
    assert !Apart(c.Out(0), c.In(4));
  }
}
