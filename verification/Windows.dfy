/** The signed odd-digit recoding of an exponent: `WindowSlider` of `algebra.cpp`. */
module Windows {
  import opened Numbers

  /** The machine word of `Integer`; any positive width would do. */
  const WORD_BITS: nat := 64

  function WordCount(n: nat): (r: nat)
    ensures n < Shl(1, r * WORD_BITS)
  {
    var r := (BitCount(n) + WORD_BITS - 1) / WORD_BITS;
    ShlOneMonotone(BitCount(n), r * WORD_BITS);
    r
  }

  /** The loop of `FindNextWindow`: the next set bit at or above `start`, if the exponent has one. */
  method SkipZeroBits(exp: nat, start: nat) returns (skipCount: nat, exhausted: bool)
    ensures skipCount >= start
    ensures exhausted ==> Shr(exp, start) == 0
    ensures !exhausted ==> GetBit(exp, skipCount) && Shr(exp, start) == Shl(Shr(exp, skipCount), skipCount - start)
  {
    hide Shl, Shr, GetBit;
    var expLen := WordCount(exp) * WORD_BITS;
    skipCount, exhausted := start, false;
    NothingSkipped(exp, start);
    while !GetBit(exp, skipCount)
      invariant skipCount >= start
      invariant Shr(exp, start) == Shl(Shr(exp, skipCount), skipCount - start)
      decreases expLen - skipCount
    {
      if skipCount >= expLen {
        ShlOneMonotone(expLen, skipCount);
        ShrBelow(exp, 1, skipCount);
        ShlZero(skipCount - start);
        return skipCount, true;
      }
      ZeroSkipped(exp, start, skipCount);
      skipCount := skipCount + 1;
    }
  }

  lemma {:induction false} NothingSkipped(exp: nat, start: nat)
    ensures Shr(exp, start) == Shl(Shr(exp, start), 0)
  {
  }

  lemma {:induction false} ZeroSkipped(exp: nat, start: nat, skip: nat)
    requires skip >= start && !GetBit(exp, skip) && Shr(exp, start) == Shl(Shr(exp, skip), skip - start)
    ensures Shr(exp, start) == Shl(Shr(exp, skip + 1), skip + 1 - start)
  {
    assert Shr(exp, skip) == 2 * Shr(exp, skip + 1);
    ShlDouble(Shr(exp, skip + 1), skip - start);
  }

  class WindowSlider {
    var exp: nat
    var windowSize: nat
    var windowBegin: nat
    var expWindow: nat
    var fastNegate: bool
    var negateNext: bool
    var firstTime: bool
    var finished: bool
    ghost const limit: nat   // the part of the exponent still to be handled never exceeds 2^limit

    /** The signed digit of the current window. */
    ghost function Digit(): (d: int)
      reads this
    {
      if negateNext then 0 - expWindow else expWindow
    }

    /** What the digits after the current window add up to. */
    ghost function Beyond(): (v: int)
      reads this
    {
      if firstTime then exp
      else if finished then 0
      else Shl(Shr(exp, windowSize), windowSize + windowBegin)
    }

    /** What the digits still to come add up to, current window included. */
    ghost function Remaining(): (v: int)
      reads this
    {
      if firstTime || finished then Beyond()
      else Shl(Digit(), windowBegin) + Beyond()
    }

    ghost predicate Valid()
      reads this
    {
      && windowSize >= 1
      && (firstTime ==> !finished && windowBegin == 0)
      && (negateNext ==> fastNegate)
      && 0 <= Beyond() <= Shl(1, limit)
      && (!firstTime && !finished ==>
            && expWindow % 2 == 1
            && expWindow < Shl(1, windowSize)
            && windowBegin <= limit)
    }

    constructor (expIn: nat, fastNegate: bool, windowSizeIn: nat, ghost limit: nat)
      requires expIn <= Shl(1, limit)
      ensures Valid() && firstTime && this.fastNegate == fastNegate && this.limit == limit
      ensures Remaining() == expIn
    {
      exp, windowBegin, expWindow := expIn, 0, 0;
      this.fastNegate, negateNext, firstTime, finished := fastNegate, false, true, false;
      if windowSizeIn == 0 {
        var expLen := BitCount(expIn);
        windowSize := if expLen <= 17 then 1 else if expLen <= 24 then 2 else if expLen <= 70 then 3
                      else if expLen <= 197 then 4 else if expLen <= 539 then 5 else if expLen <= 1434 then 6 else 7;
      } else {
        windowSize := windowSizeIn;
      }
      this.limit := limit;
    }

    /** Consumes the current digit and moves to the next odd window, or finishes. */
    method FindNextWindow()
      requires Valid() && !finished
      modifies this
      ensures Valid() && !firstTime
      ensures Remaining() == old(Beyond())
      ensures !finished ==> windowBegin >= old(windowBegin) + if old(firstTime) then 0 else windowSize
      ensures windowSize == old(windowSize) && fastNegate == old(fastNegate)
    {
      hide Low, Shr, Shl;
      ghost var start := if firstTime then 0 else windowSize;
      BeyondFrom(start);
      var skipCount, exhausted := SkipZeroBits(exp, if firstTime then 0 else windowSize);
      firstTime := false;
      if exhausted {
        ShlZero(start + windowBegin);
        finished := true;
        return;
      }
      BeyondShifted(exp, skipCount, start, windowBegin);
      exp := Shr(exp, skipCount);
      windowBegin := windowBegin + skipCount;
      TakeWindow();
    }

    lemma {:induction false} BeyondFrom(start: nat)
      requires Valid() && !finished && start == if firstTime then 0 else windowSize
      ensures Beyond() == Shl(Shr(exp, start), start + windowBegin)
    {
      ShrZero(exp);
    }

    /** The window at the bottom of `exp`, made negative if that is fast and the next bit is set. */
    method TakeWindow()
      requires !firstTime && !finished && windowSize >= 1 && exp % 2 == 1 && Shl(exp, windowBegin) <= Shl(1, limit)
      modifies this`exp, this`expWindow, this`negateNext
      ensures Valid() && Remaining() == Shl(old(exp), windowBegin)
    {
      hide Low, GetBit, Shr, Shl, Valid, Remaining;
      ghost var value := exp;
      expWindow := Low(exp, windowSize);
      if fastNegate && GetBit(exp, windowSize) {
        negateNext := true;
        expWindow := Shl(1, windowSize) - expWindow;
        exp := exp + Shl(1, windowSize);
      } else {
        negateNext := false;
      }
      WindowReady(value);
    }

    lemma {:induction false} WindowReady(value: nat)
      requires !firstTime && !finished && windowSize >= 1 && (negateNext ==> fastNegate && GetBit(value, windowSize))
      requires value % 2 == 1 && Shl(value, windowBegin) <= Shl(1, limit)
      requires exp == if negateNext then value + Shl(1, windowSize) else value
      requires expWindow == if negateNext then Shl(1, windowSize) - Low(value, windowSize) else Low(value, windowSize)
      ensures Valid() && Remaining() == Shl(value, windowBegin)
    {
      hide Shl, Shr, Low;
      LowIsOdd(value, windowSize);
      if negateNext {
        NegativeWindow(value, windowSize, windowBegin, limit);
        assert Digit() == Low(value, windowSize) - Shl(1, windowSize);
      } else {
        PositiveWindow(value, windowSize, windowBegin, limit);
      }
    }
  }

  lemma {:induction false} BeyondShifted(exp: nat, skipCount: nat, start: nat, begin: nat)
    requires start <= skipCount && Shr(exp, start) == Shl(Shr(exp, skipCount), skipCount - start)
    ensures Shl(Shr(exp, start), start + begin) == Shl(Shr(exp, skipCount), begin + skipCount)
  {
    ShlShl(Shr(exp, skipCount), skipCount - start, start + begin);
  }

  lemma {:induction false} LowIsOdd(n: nat, w: nat)
    requires w >= 1 && n % 2 == 1
    ensures Low(n, w) % 2 == 1 && Shl(1, w) % 2 == 0
  {
    hide Shl, Shr, Low;
    ShlEven(1, w);
    ShlEven(Shr(n, w), w);
  }

  /** Cutting a window off a value, with or without borrowing from the next one. */
  lemma {:induction false} WindowSplit(low: nat, rest: nat, carry: nat, w: nat, begin: nat)
    ensures Shl(low - Shl(carry, w), begin) + Shl(rest + carry, w + begin) == Shl(Shl(rest, w) + low, begin)
  {
    hide Shl;
    ShlShl(rest + carry, w, begin);
    ShlAdd(rest, carry, w);
    ShlAdd(low - Shl(carry, w), Shl(rest + carry, w), begin);
  }

  lemma {:induction false} PositiveWindow(value: nat, w: nat, begin: nat, limit: nat)
    requires value % 2 == 1 && Shl(value, begin) <= Shl(1, limit)
    ensures Shl(Low(value, w), begin) + Shl(Shr(value, w), w + begin) == Shl(value, begin)
    ensures 0 <= Shl(Shr(value, w), w + begin) <= Shl(1, limit)
    ensures begin <= limit
  {
    hide Shl, Shr, Low;
    ShlZero(w);
    WindowSplit(Low(value, w), Shr(value, w), 0, w, begin);
    ShlMonotone(1, value, begin);
    ShlOneMonotone(begin, limit);
    ShlMonotone(0, Low(value, w), begin);
    ShlZero(begin);
  }

  lemma {:induction false} NegativeWindow(value: nat, w: nat, begin: nat, limit: nat)
    requires w >= 1 && value % 2 == 1 && GetBit(value, w) && Shl(value, begin) <= Shl(1, limit)
    ensures Shl(Low(value, w) - Shl(1, w), begin) + Shl(Shr(value + Shl(1, w), w), w + begin) == Shl(value, begin)
    ensures 0 <= Shl(Shr(value + Shl(1, w), w), w + begin) <= Shl(1, limit)
    ensures begin <= limit
  {
    hide Shl, Shr, Low;
    ShrAdd(value, 1, w);
    WindowSplit(Low(value, w), Shr(value, w), 1, w, begin);
    ShlMonotone(1, value, begin);
    ShlOneMonotone(begin, limit);
    CarryStaysBelow(value, w, begin, limit);
  }

  /** A negative digit adds one to the next window, but never pushes it past the limit. */
  lemma {:induction false} CarryStaysBelow(value: nat, w: nat, begin: nat, limit: nat)
    requires w >= 1 && value % 2 == 1 && GetBit(value, w)
    requires Shl(value, begin) <= Shl(1, limit)
    ensures Shl(Shr(value, w) + 1, w + begin) <= Shl(1, limit)
  {
    hide Shl, Shr, Low;
    ShrBelow(value, 1, w);
    ShlMonotone(Shl(1, w), value, begin);
    ShlShl(1, w, begin);
    ShlOneMonotone(w + begin, limit);
    var k := Shl(1, limit - w - begin);
    ShlShl(1, limit - w - begin, w + begin);
    ShlShl(k, w, begin);
    ShlMonotone(value, Shl(k, w), begin);
    ShlEven(k, w);
    ShrBelow(value, k, w);
    ShlMonotone(Shr(value, w) + 1, k, w + begin);
  }
}
