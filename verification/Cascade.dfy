/** Two-base scalar multiplication: `AbstractGroup::CascadeScalarMultiply`. */
module Cascade {
  import opened Numbers
  import opened Groups
  import opened Options
  import opened CascadeTable

  /** `Integer::GetBit` and `Integer::BitCount` look at the magnitude only. */
  function Magnitude(e: int): (r: nat) {
    if e < 0 then -e else e
  }

  function Bit(e: nat, i: nat): (r: nat)
    ensures r <= 1
  {
    if GetBit(e, i) then 1 else 0
  }

  lemma {:induction false} CombineDouble<T(!new)>(g: Group<T>, x: T, y: T, a: nat, b: nat)
    requires IsMonoid(g) && IsCommutative(g)
    ensures g.Double(Combine(g, x, y, a, b)) == Combine(g, x, y, 2 * a, 2 * b)
  {
    CombineAdd(g, x, y, a, b, a, b);
  }

  /** The loops that double the result a given number of times. */
  method Doublings<T(!new)>(g: Group<T>, r: T, count: nat, ghost x: T, ghost y: T, ghost a: nat, ghost b: nat)
      returns (result: T)
    requires IsMonoid(g) && IsCommutative(g) && r == Combine(g, x, y, a, b)
    ensures result == Combine(g, x, y, Shl(a, count), Shl(b, count))
  {
    hide IsMonoid, IsCommutative, Combine;
    result := r;
    var squares: nat := count;
    while squares > 0
      invariant squares <= count
      invariant result == Combine(g, x, y, Shl(a, count - squares), Shl(b, count - squares))
    {
      CombineDouble(g, x, y, Shl(a, count - squares), Shl(b, count - squares));
      result := g.Double(result);
      squares := squares - 1;
    }
  }

  /** Common factors of two move from before the addition to after it; `before` never underflows. */
  method StripZeros(power1: nat, power2: nat, squares: nat, ghost width: nat)
      returns (p1: nat, p2: nat, before: nat, after: nat)
    requires power1 < Shl(1, width) && power2 < Shl(1, width) && width <= squares + 1
    ensures power1 == Shl(p1, after) && power2 == Shl(p2, after) && before + after == squares
    ensures p1 <= power1 && p2 <= power2
    ensures power1 > 0 || power2 > 0 ==> p1 % 2 == 1 || p2 % 2 == 1
    ensures power1 == power2 == 0 ==> p1 == p2 == after == 0
  {
    hide Shl;
    p1, p2, before, after := power1, power2, squares, 0;
    ShlNone(power1);
    ShlNone(power2);
    while (p1 > 0 || p2 > 0) && p1 % 2 == 0 && p2 % 2 == 0
      invariant power1 == Shl(p1, after) && power2 == Shl(p2, after) && before + after == squares
      invariant p1 <= power1 && p2 <= power2
      invariant power1 > 0 || power2 > 0 ==> p1 > 0 || p2 > 0
      invariant power1 == power2 == 0 ==> after == 0
      decreases p1 + p2
    {
      SquaresRemain(p1, after, width);
      SquaresRemain(p2, after, width);
      ShlDouble(p1 / 2, after);
      ShlDouble(p2 / 2, after);
      p1, p2, before, after := p1 / 2, p2 / 2, before - 1, after + 1;
    }
  }

  lemma {:induction false} SquaresRemain(p: nat, after: nat, width: nat)
    requires Shl(p, after) < Shl(1, width)
    ensures p >= 2 ==> after + 1 < width
  {
    hide Shl;
    if p >= 2 {
      ShlMonotone(2, p, after);
      ShlDouble(1, after);
      ShlOneMonotone(width, after + 1);
    }
  }

  /** The bits of `e` down to `i`, once those down to `prev` are in the result and the rest is pending. */
  ghost predicate Pending(e: nat, i: nat, prev: nat, firstTime: bool, power: nat) {
    && i <= (if firstTime then prev + 1 else prev)
    && (firstTime ==> power == Shr(e, i) && power < Shl(1, prev + 1 - i))
    && (!firstTime ==> Shr(e, i) == Shl(Shr(e, prev), prev - i) + power && power < Shl(1, prev - i))
  }

  lemma {:induction false} TakeBit(e: nat, i: nat, prev: nat, firstTime: bool, power: nat)
    requires Pending(e, i + 1, prev, firstTime, power)
    ensures Pending(e, i, prev, firstTime, 2 * power + Bit(e, i))
  {
    assert Shr(e, i) == 2 * Shr(e, i + 1) + Bit(e, i);
    assert Shl(1, prev + 1 - i) == 2 * Shl(1, prev + 1 - (i + 1));
  }

  lemma {:induction false} NoBitsYet(e: nat, len: nat)
    requires len >= 1 && e < Shl(1, len)
    ensures Pending(e, len, len - 1, true, 0)
  {
    ShrBelow(e, 1, len);
  }

  /** One flush: the pending bits of both exponents enter the result. */
  method Flush<T(!new)>(g: Group<T>, table: seq<Option<T>>, w: nat, prior: Option<T>, i: nat, prev: nat, power1: nat,
                 power2: nat,
                        ghost x: T, ghost y: T, ghost e1: nat, ghost e2: nat)
      returns (result: T)
    requires IsMonoid(g) && IsCommutative(g) && Complete(g, x, y, w, table) && InRange(w, power1, power2)
    requires i <= prev && Pending(e1, i, prev, prior.None?, power1) && Pending(e2, i, prev, prior.None?, power2)
    requires prior.None? ==> power1 > 0 || power2 > 0
    requires prior.Some? ==> prior.value == Combine(g, x, y, Shr(e1, prev), Shr(e2, prev))
    ensures result == Combine(g, x, y, Shr(e1, i), Shr(e2, i))
  {
    hide IsMonoid, IsCommutative, Combine, Shl, Shr;
    var p1, p2, before, after := StripZeros(power1, power2, prev - i, if prior.None? then prev + 1 - i else prev - i);
    if prior.None? {
      assert Filled(g, x, y, w, table, p1, p2);
      result := table[Slot(w, p1, p2)].value;
      result := Doublings(g, result, after, x, y, p1, p2);
    } else {
      ghost var a, b := Shr(e1, prev), Shr(e2, prev);
      result := Doublings(g, prior.value, before, x, y, a, b);
      if power1 > 0 || power2 > 0 {
        assert Filled(g, x, y, w, table, p1, p2);
        CombineAdd(g, x, y, Shl(a, before), Shl(b, before), p1, p2);
        result := g.add(result, table[Slot(w, p1, p2)].value);
      }
      result := Doublings(g, result, after, x, y, Shl(a, before) + p1, Shl(b, before) + p2);
      FlushedBits(a, before, p1, after);
      FlushedBits(b, before, p2, after);
    }
  }

  lemma {:induction false} FlushedBits(a: nat, before: nat, p: nat, after: nat)
    ensures Shl(Shl(a, before) + p, after) == Shl(a, before + after) + Shl(p, after)
  {
    hide Shl;
    ShlAdd(Shl(a, before), p, after);
    ShlShl(a, before, after);
  }

  /** The window width the source picks for a given exponent length. */
  function WindowWidth(expLen: nat): (w: nat)
    ensures 1 <= w <= 3
  {
    if expLen <= 46 then 1 else if expLen <= 260 then 2 else 3
  }

  /** `|e1| * x + |e2| * y`, in any commutative group: for non-negative exponents, `e1 * x + e2 * y`. */
  method CascadeScalarMultiply<T(!new)>(g: Group<T>, x: T, exp1: int, y: T, exp2: int) returns (result: T)
    requires IsMonoid(g) && IsCommutative(g)
    ensures result == Combine(g, x, y, Magnitude(exp1), Magnitude(exp2))
  {
    hide IsMonoid, IsCommutative, Combine, Complete, Shl;
    var e1, e2 := Magnitude(exp1), Magnitude(exp2);
    var expLen := ExponentLength(e1, e2);
    if expLen == 0 {
      NothingToAdd(g, x, y);
      return g.identity;
    }
    var w := WindowWidth(expLen);
    var table := BuildTable(g, x, y, w);
    result := Evaluate(g, table, w, e1, e2, expLen, x, y);
  }

  function ExponentLength(e1: nat, e2: nat): (r: nat)
    ensures e1 < Shl(1, r) && e2 < Shl(1, r)
    ensures r == 0 ==> e1 == e2 == 0
    ensures r > 0 ==> Shl(1, r - 1) <= e1 || Shl(1, r - 1) <= e2
  {
    var r := if BitCount(e1) > BitCount(e2) then BitCount(e1) else BitCount(e2);
    ShlOneMonotone(BitCount(e1), r);
    ShlOneMonotone(BitCount(e2), r);
    r
  }

  lemma {:induction false} NothingToAdd<T(!new)>(g: Group<T>, x: T, y: T)
    requires IsMonoid(g)
    ensures Combine(g, x, y, 0, 0) == g.identity
  {
  }

  /** The main loop, from the top bit of the longer exponent down to bit 0. */
  method Evaluate<T(!new)>(g: Group<T>, table: seq<Option<T>>, w: nat, e1: nat, e2: nat, expLen: nat, ghost x: T,
                    ghost y: T)
      returns (result: T)
    requires IsMonoid(g) && IsCommutative(g) && w >= 1 && Complete(g, x, y, w, table)
    requires expLen >= 1 && e1 < Shl(1, expLen) && e2 < Shl(1, expLen)
    requires Shl(1, expLen - 1) <= e1 || Shl(1, expLen - 1) <= e2
    ensures result == Combine(g, x, y, e1, e2)
  {
    hide IsMonoid, IsCommutative, Combine, Complete, Shl, Shr, Pending, Bit;
    var power1: nat, power2: nat, prev: nat := 0, 0, expLen - 1;
    var partial: Option<T> := None;   // `None` while `firstTime`
    NoBitsYet(e1, expLen);
    NoBitsYet(e2, expLen);
    var i := expLen;
    while i > 0
      invariant if partial.Some? then i <= prev else prev == expLen - 1
      invariant prev < expLen && (i == expLen ==> partial.None? && prev == expLen - 1)
      invariant 2 * power1 < Shl(1, w) && 2 * power2 < Shl(1, w)
      invariant Pending(e1, i, prev, partial.None?, power1) && Pending(e2, i, prev, partial.None?, power2)
      invariant partial.None? && i < expLen ==> i > 0 && (power1 > 0 || power2 > 0)
      invariant partial.Some? ==> partial.value == Combine(g, x, y, Shr(e1, prev), Shr(e2, prev))
      invariant i == 0 ==> prev == 0
      decreases i
    {
      if i == expLen {
        TopBitSet(e1, e2, expLen - 1);
      }
      i := i - 1;
      TakeBit(e1, i, prev, partial.None?, power1);
      TakeBit(e2, i, prev, partial.None?, power2);
      power1, power2 := 2 * power1 + Bit(e1, i), 2 * power2 + Bit(e2, i);
      EvenSize(w);
      if i == 0 || 2 * power1 >= Shl(1, w) || 2 * power2 >= Shl(1, w) {
        result := Flush(g, table, w, partial, i, prev, power1, power2, x, y, e1, e2);
        partial, prev, power1, power2 := Some(result), i, 0, 0;
        NothingPending(e1, i);
        NothingPending(e2, i);
      }
    }
    ShrZero(e1);
    ShrZero(e2);
    result := partial.value;
  }

  lemma {:induction false} EvenSize(w: nat)
    requires w >= 1
    ensures Shl(1, w) >= 2 && Shl(1, w) % 2 == 0
  {
    ShlEven(1, w);
  }

  lemma {:induction false} NothingPending(e: nat, i: nat)
    ensures Pending(e, i, i, false, 0)
  {
  }

  lemma {:induction false} TopBitSet(e1: nat, e2: nat, top: nat)
    requires Shl(1, top) <= e1 < Shl(1, top + 1) || Shl(1, top) <= e2 < Shl(1, top + 1)
    ensures Bit(e1, top) == 1 || Bit(e2, top) == 1
  {
    ShrBelow(e1, 1, top);
    ShrBelow(e2, 1, top);
    ShrBelow(e1, 1, top + 1);
    ShrBelow(e2, 1, top + 1);
  }
}
