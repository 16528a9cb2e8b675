/** The bucket method of `AbstractGroup::SimultaneousMultiply`. */
module ScalarMultiplication {
  import opened Numbers
  import opened Groups
  import opened Windows

  ghost function Sum(c: seq<int>): (r: int) {
    if c == [] then 0 else c[0] + Sum(c[1..])
  }

  /** The sum of all suffix sums. */
  ghost function SuffixSums(c: seq<int>): (r: int) {
    if c == [] then 0 else Sum(c) + SuffixSums(c[1..])
  }

  /** The sum of `(2j + 1) * c[j]`. */
  ghost function OddSum(c: seq<int>): (r: int) {
    if c == [] then 0 else c[0] + OddSum(c[1..]) + 2 * Sum(c[1..])
  }

  ghost predicate NonNegative(c: seq<int>) {
    forall j :: 0 <= j < |c| ==> c[j] >= 0
  }

  /** Coefficients that may be added up: all non-negative, unless inverses exist. */
  ghost predicate Addable<T(!new)>(g: Group<T>, c: seq<int>) {
    NonNegative(c) || g.inversionIsFast
  }

  /** Every bucket holds the stated multiple of the base. */
  ghost predicate Holds<T(!new)>(g: Group<T>, base: T, bucket: seq<T>, c: seq<int>) {
    && |bucket| == |c|
    && Addable(g, c)
    && forall j :: 0 <= j < |c| ==> bucket[j] == Times(g, base, c[j])
  }

  lemma {:induction false} SumUpdate(c: seq<int>, j: nat, d: int)
    requires j < |c|
    ensures Sum(c[j := c[j] + d]) == Sum(c) + d
  {
    var c' := c[j := c[j] + d];
    if j > 0 {
      SumUpdate(c[1..], j - 1, d);
      assert c'[1..] == c[1..][j - 1 := c[1..][j - 1] + d];
    } else {
      assert c'[1..] == c[1..];
    }
  }

  lemma {:induction false} OddSumUpdate(c: seq<int>, j: nat, d: int)
    requires j < |c|
    ensures OddSum(c[j := c[j] + d]) == OddSum(c) + (2 * j + 1) * d
  {
    var c' := c[j := c[j] + d];
    if j > 0 {
      SumUpdate(c[1..], j - 1, d);
      OddSumUpdate(c[1..], j - 1, d);
      assert c'[1..] == c[1..][j - 1 := c[1..][j - 1] + d];
      assert (2 * j + 1) * d == (2 * (j - 1) + 1) * d + 2 * d;
    } else {
      assert c'[1..] == c[1..];
    }
  }

  /** The suffix-sum pass computes the odd-weighted sum. */
  lemma {:induction false} OddSumBySuffixSums(c: seq<int>)
    requires c != []
    ensures OddSum(c) == Sum(c) + 2 * SuffixSums(c[1..])
  {
    if |c| > 1 {
      OddSumBySuffixSums(c[1..]);
    } else {
      assert c[1..] == [];
    }
  }

  lemma {:induction false} SumsNonNegative(c: seq<int>)
    requires NonNegative(c)
    ensures Sum(c) >= 0 && SuffixSums(c) >= 0
  {
    if c != [] {
      SumsNonNegative(c[1..]);
    }
  }

  lemma {:induction false} ZeroSums(c: seq<int>)
    requires forall j :: 0 <= j < |c| ==> c[j] == 0
    ensures Sum(c) == 0 && OddSum(c) == 0
  {
    if c != [] {
      ZeroSums(c[1..]);
    }
  }

  lemma {:induction false} ShlScaled(a: int, v: int, k: nat)
    ensures Shl(a * v, k) == a * Shl(v, k)
  {
    if k > 0 {
      ShlScaled(a, v, k - 1);
      MulAssoc(2, a, Shl(v, k - 1));
    }
  }

  /** One window's contribution: its digit, at its position, moves from the exponent into a bucket. */
  lemma {:induction false} DigitMoves(c: seq<int>, window: nat, negate: bool, position: nat)
    requires window % 2 == 1 && window / 2 < |c|
    ensures var d := if negate then 0 - Shl(1, position) else Shl(1, position);
            OddSum(c[window / 2 := c[window / 2] + d])
               == OddSum(c) + Shl(if negate then 0 - window else window, position)
  {
    hide Shl, OddSum;
    var s := if negate then -1 else 1;
    var d := if negate then 0 - Shl(1, position) else Shl(1, position);
    OddSumUpdate(c, window / 2, d);
    ShlScaled(-1, 1, position);
    ShlScaled(window, s, position);
    assert d == Shl(s, position);
    assert window == 2 * (window / 2) + 1;
  }

  /** The state of one exponent: bucket contents plus the windows still to come make the exponent. */
  ghost predicate Accounted<T(!new)>(g: Group<T>, base: T, e: nat, s: WindowSlider, bucket: seq<T>, c: seq<int>)
    reads s
  {
    && s.Valid() && !s.firstTime && (s.fastNegate <==> g.inversionIsFast)
    && |bucket| == Shl(1, s.windowSize - 1)
    && Holds(g, base, bucket, c)
    && OddSum(c) + s.Remaining() == e
  }

  method ConsumeWindow<T(!new)>(g: Group<T>, h: T, s: WindowSlider, bucket: seq<T>,
                                ghost base: T, ghost e: nat, ghost c: seq<int>)
      returns (bucket': seq<T>, ghost c': seq<int>)
    requires IsScalable(g)
    requires Accounted(g, base, e, s, bucket, c) && !s.finished
    requires h == Times(g, base, Shl(1, s.windowBegin))
    modifies s
    ensures Accounted(g, base, e, s, bucket', c')
    ensures !s.finished ==> s.windowBegin > old(s.windowBegin)
  {
    hide Shl, OddSum, Times, IsMonoid, HasInverses;
    ghost var d := if s.negateNext then 0 - Shl(1, s.windowBegin) else Shl(1, s.windowBegin);
    var j := s.expWindow / 2;
    BucketInRange(s.expWindow, s.windowSize);
    if s.negateNext {
      TimesNegate(g, base, Shl(1, s.windowBegin));
      bucket' := bucket[j := g.add(bucket[j], g.inverse(h))];
    } else {
      bucket' := bucket[j := g.add(bucket[j], h)];
    }
    TimesAdd(g, base, c[j], d);
    c' := c[j := c[j] + d];
    DigitMoves(c, s.expWindow, s.negateNext, s.windowBegin);
    s.FindNextWindow();
  }

  lemma {:induction false} BucketInRange(window: nat, w: nat)
    requires w >= 1 && window < Shl(1, w)
    ensures window / 2 < Shl(1, w - 1)
  {
  }

  /** The final pass over one exponent's buckets. */
  method Collect<T(!new)>(g: Group<T>, bucketIn: seq<T>, ghost base: T, ghost c: seq<int>) returns (r: T)
    requires IsScalable(g) && Holds(g, base, bucketIn, c) && |c| >= 1
    ensures r == Times(g, base, OddSum(c))
  {
    hide OddSum, Times, IsScalable, Sum, SuffixSums, Addable;
    var bucket := bucketIn;
    var n := |bucket|;
    r := bucket[n - 1];
    SingleSuffix(c);
    if n > 1 {
      var j := n - 2;
      while j >= 1
        invariant 0 <= j <= n - 2 && |bucket| == n
        invariant forall k :: 0 <= k <= j ==> bucket[k] == bucketIn[k]
        invariant bucket[j + 1] == Times(g, base, Sum(c[j + 1..]))
        invariant r == Times(g, base, SuffixSums(c[j + 1..]))
      {
        SuffixStep(g, base, c, j);
        bucket := bucket[j := g.add(bucket[j], bucket[j + 1])];
        r := g.add(r, bucket[j]);
        j := j - 1;
      }
      SuffixStep(g, base, c, 0);
      bucket := bucket[0 := g.add(bucket[0], bucket[1])];
      LastStep(g, base, c);
      r := g.add(g.Double(r), bucket[0]);
    }
  }

  lemma {:induction false} SingleSuffix(c: seq<int>)
    requires |c| >= 1
    ensures var last := c[|c| - 1..]; Sum(last) == SuffixSums(last) == OddSum(last) == c[|c| - 1]
  {
    var last := c[|c| - 1..];
    assert last == [c[|c| - 1]] && last[1..] == [];
  }

  lemma {:induction false} SuffixStep<T(!new)>(g: Group<T>, base: T, c: seq<int>, j: nat)
    requires IsScalable(g) && Addable(g, c) && j + 1 < |c|
    ensures g.add(Times(g, base, c[j]), Times(g, base, Sum(c[j + 1..]))) == Times(g, base, Sum(c[j..]))
    ensures g.add(Times(g, base, SuffixSums(c[j + 1..])), Times(g, base, Sum(c[j..])))
            == Times(g, base, SuffixSums(c[j..]))
  {
    hide Times, IsMonoid, HasInverses;
    assert c[j..][1..] == c[j + 1..];
    if NonNegative(c) {
      SumsNonNegative(c[j..]);
      SumsNonNegative(c[j + 1..]);
    }
    TimesAdd(g, base, c[j], Sum(c[j + 1..]));
    TimesAdd(g, base, SuffixSums(c[j + 1..]), Sum(c[j..]));
  }

  lemma {:induction false} LastStep<T(!new)>(g: Group<T>, base: T, c: seq<int>)
    requires IsScalable(g) && Addable(g, c) && |c| > 1
    ensures var r := Times(g, base, SuffixSums(c[1..]));
            g.add(g.Double(r), Times(g, base, Sum(c[0..]))) == Times(g, base, OddSum(c))
  {
    hide Times, IsMonoid, HasInverses;
    assert c[0..] == c;
    if NonNegative(c) {
      SumsNonNegative(c);
      SumsNonNegative(c[1..]);
    }
    var s := SuffixSums(c[1..]);
    OddSumBySuffixSums(c);
    TimesAdd(g, base, s, s);
    TimesAdd(g, base, 2 * s, Sum(c));
  }

  ghost function Total(exps: seq<nat>): (r: nat)
    ensures forall i :: 0 <= i < |exps| ==> exps[i] <= r
  {
    if exps == [] then 0 else exps[0] + Total(exps[1..])
  }

  lemma {:induction false} BelowShl(n: nat)
    ensures n < Shl(1, n)
  {
    if n > 0 {
      BelowShl(n - 1);
    }
  }

  /** A slider on its first window and its empty buckets. */
  method Start<T(!new)>(g: Group<T>, e: nat, ghost base: T, ghost limit: nat)
      returns (s: WindowSlider, bucket: seq<T>, ghost c: seq<int>)
    requires IsScalable(g) && e <= Shl(1, limit)
    ensures fresh(s) && s.limit == limit && Accounted(g, base, e, s, bucket, c)
  {
    s := new WindowSlider(e, g.inversionIsFast, 0, limit);
    s.FindNextWindow();
    bucket := seq(Shl(1, s.windowSize - 1), j => g.identity);
    c := seq(Shl(1, s.windowSize - 1), j => 0);
    ZeroSums(c);
  }

  /** All exponents accounted for, by distinct sliders that stay within `limit`. */
  ghost predicate AllAccounted<T(!new)>(g: Group<T>, base: T, exps: seq<nat>, limit: nat,
                                        sliders: seq<WindowSlider>, buckets: seq<seq<T>>, cs: seq<seq<int>>)
    reads sliders
  {
    && |exps| == |sliders| == |buckets| == |cs|
    && (forall i, k :: 0 <= i < k < |sliders| ==> sliders[i] != sliders[k])
    && (forall i :: 0 <= i < |exps| ==>
          sliders[i].limit == limit && Accounted(g, base, exps[i], sliders[i], buckets[i], cs[i]))
  }

  method StartAll<T(!new)>(g: Group<T>, exps: seq<nat>, ghost base: T)
      returns (sliders: seq<WindowSlider>, buckets: seq<seq<T>>, ghost cs: seq<seq<int>>)
    requires IsScalable(g)
    ensures AllAccounted(g, base, exps, Total(exps), sliders, buckets, cs) && fresh(sliders)
  {
    hide IsScalable, Accounted, Total;
    sliders, buckets, cs := [], [], [];
    var i := 0;
    while i < |exps|
      invariant 0 <= i <= |exps| && fresh(sliders)
      invariant AllAccounted(g, base, exps[..i], Total(exps), sliders, buckets, cs)
    {
      BelowShl(Total(exps));
      var s, bucket, c := Start(g, exps[i], base, Total(exps));
      sliders, buckets, cs := sliders + [s], buckets + [bucket], cs + [c];
      i := i + 1;
    }
    assert exps[..i] == exps;
  }

  /** One round of the main loop: every window that begins at `position` goes into its bucket. */
  method Sweep<T(!new)>(g: Group<T>, h: T, position: nat, sliders: seq<WindowSlider>, bucketsIn: seq<seq<T>>,
                        ghost base: T, ghost exps: seq<nat>, ghost limit: nat, ghost csIn: seq<seq<int>>)
      returns (notDone: bool, buckets: seq<seq<T>>, ghost cs: seq<seq<int>>)
    requires IsScalable(g) && h == Times(g, base, Shl(1, position))
    requires AllAccounted(g, base, exps, limit, sliders, bucketsIn, csIn)
    requires forall i :: 0 <= i < |exps| && !sliders[i].finished ==> sliders[i].windowBegin >= position
    modifies sliders
    ensures AllAccounted(g, base, exps, limit, sliders, buckets, cs)
    ensures forall i :: 0 <= i < |exps| && !sliders[i].finished ==> sliders[i].windowBegin > position
    ensures notDone <==> exists i :: 0 <= i < |exps| && !sliders[i].finished
  {
    hide IsScalable, Times, Shl, Accounted;
    buckets, cs, notDone := bucketsIn, csIn, false;
    var i := 0;
    while i < |sliders|
      invariant 0 <= i <= |sliders|
      invariant AllAccounted(g, base, exps, limit, sliders, buckets, cs)
      invariant forall k :: 0 <= k < |exps| && !sliders[k].finished ==> sliders[k].windowBegin >= position
      invariant forall k :: 0 <= k < i && !sliders[k].finished ==> sliders[k].windowBegin > position
      invariant notDone <==> exists k :: 0 <= k < i && !sliders[k].finished
    {
      if !sliders[i].finished && position == sliders[i].windowBegin {
        var bucket; ghost var c;
        bucket, c := ConsumeWindow(g, h, sliders[i], buckets[i], base, exps[i], cs[i]);
        buckets, cs := buckets[i := bucket], cs[i := c];
      }
      notDone := notDone || !sliders[i].finished;
      i := i + 1;
    }
  }

  method CollectAll<T(!new)>(g: Group<T>, sliders: seq<WindowSlider>, buckets: seq<seq<T>>,
                             ghost base: T, ghost exps: seq<nat>, ghost limit: nat, ghost cs: seq<seq<int>>)
      returns (results: seq<T>)
    requires IsScalable(g) && AllAccounted(g, base, exps, limit, sliders, buckets, cs)
    requires forall i :: 0 <= i < |exps| ==> sliders[i].finished
    ensures |results| == |exps|
    ensures forall i :: 0 <= i < |exps| ==> results[i] == Times(g, base, exps[i])
  {
    hide IsScalable, Times, OddSum;
    results := [];
    while |results| < |buckets|
      invariant |results| <= |buckets|
      invariant forall k :: 0 <= k < |results| ==> results[k] == Times(g, base, exps[k])
    {
      var i := |results|;
      assert Accounted(g, base, exps[i], sliders[i], buckets[i], cs[i]);
      var r := Collect(g, buckets[i], base, cs[i]);
      results := results + [r];
    }
  }

  /**
   The product of one base and many exponents. Inverses are used only when the group says they are
   fast; otherwise an associative operation with an identity is enough.
   */
  method SimultaneousMultiply<T(!new)>(g: Group<T>, base: T, exps: seq<nat>) returns (results: seq<T>)
    requires IsScalable(g)
    ensures |results| == |exps|
    ensures forall i :: 0 <= i < |exps| ==> results[i] == Times(g, base, exps[i])
  {
    hide IsScalable, Times, Shl, OddSum, Total;
    ghost var limit := Total(exps);
    var sliders, buckets; ghost var cs;
    sliders, buckets, cs := StartAll(g, exps, base);
    var position, h, notDone := 0, base, true;
    BaseTimesOne(g, base);
    while notDone
      invariant AllAccounted(g, base, exps, limit, sliders, buckets, cs) && fresh(sliders)
      invariant h == Times(g, base, Shl(1, position))
      invariant position <= limit + 1
      invariant notDone ==> forall i :: 0 <= i < |exps| && !sliders[i].finished ==> sliders[i].windowBegin >= position
      invariant !notDone ==> forall i :: 0 <= i < |exps| ==> sliders[i].finished
      decreases notDone, limit + 1 - position
    {
      notDone, buckets, cs := Sweep(g, h, position, sliders, buckets, base, exps, limit, cs);
      if notDone {
        DoubleStep(g, base, position);
        h := g.Double(h);
        position := position + 1;
      }
    }
    results := CollectAll(g, sliders, buckets, base, exps, limit, cs);
  }

  lemma {:induction false} BaseTimesOne<T(!new)>(g: Group<T>, base: T)
    requires IsScalable(g)
    ensures base == Times(g, base, Shl(1, 0))
  {
    TimesOne(g, base);
  }

  lemma {:induction false} DoubleStep<T(!new)>(g: Group<T>, base: T, position: nat)
    requires IsScalable(g)
    ensures g.Double(Times(g, base, Shl(1, position))) == Times(g, base, Shl(1, position + 1))
  {
    TimesAdd(g, base, Shl(1, position), Shl(1, position));
  }

  /** `ScalarMultiply` is the case of one exponent. */
  method ScalarMultiply<T(!new)>(g: Group<T>, base: T, exponent: nat) returns (result: T)
    requires IsScalable(g)
    ensures result == Times(g, base, exponent)
  {
    var results := SimultaneousMultiply(g, base, [exponent]);
    result := results[0];
  }
}
