/**
 Shifts and bits of `Integer` values. The shifts are defined one bit at a time, so that facts
 about them are linear; `ShlIsTimes` says what a left shift is in closed form.
 */
module Numbers {
  const TWO_TO_THE_64: nat := 0x1_0000_0000_0000_0000


  /** `v << k`. */
  function Shl(v: int, k: nat): (r: int)
    ensures v >= 0 ==> r >= v
    ensures v >= 1 ==> r >= 1
  {
    if k == 0 then v else 2 * Shl(v, k - 1)
  }

  /** `n >> k`. */
  function Shr(n: nat, k: nat): (r: nat)
    ensures r <= n
  {
    if k == 0 then n else Shr(n, k - 1) / 2
  }

  /** The low `k` bits of `n`. */
  function Low(n: nat, k: nat): (r: nat)
    ensures n == Shl(Shr(n, k), k) + r
    ensures r < Shl(1, k)
  {
    if k == 0 then 0
    else
      LowStep(Shr(n, k - 1), k - 1);
      Low(n, k - 1) + Shl(Shr(n, k - 1) % 2, k - 1)
  }

  lemma {:induction false} LowStep(m: nat, k: nat)
    ensures Shl(m, k) == Shl(m / 2, k + 1) + Shl(m % 2, k) && 0 <= Shl(m % 2, k) <= Shl(1, k)
  {
    hide Shl;
    ShlAdd(2 * (m / 2), m % 2, k);
    ShlDouble(m / 2, k);
    ShlMonotone(m % 2, 1, k);
    ShlMonotone(0, m % 2, k);
    ShlZero(k);
  }

  predicate GetBit(n: nat, k: nat) {
    Shr(n, k) % 2 == 1
  }

  function BitCount(n: nat): (r: nat)
    ensures n < Shl(1, r)
    ensures n > 0 ==> r > 0 && Shl(1, r - 1) <= n
  {
    if n == 0 then 0 else 1 + BitCount(n / 2)
  }

  lemma {:induction false} ShlNone(v: int)
    ensures Shl(v, 0) == v
  {
  }

  lemma {:induction false} ShlZero(k: nat)
    ensures Shl(0, k) == 0
  {
    if k > 0 {
      ShlZero(k - 1);
    }
  }

  lemma {:induction false} ShlEven(v: int, k: nat)
    requires k >= 1
    ensures Shl(v, k) % 2 == 0
  {
    var half := Shl(v, k - 1);
    assert Shl(v, k) == 2 * half;
    hide Shl;
  }

  lemma {:induction false} ShrZero(n: nat)
    ensures Shr(n, 0) == n
  {
  }

  lemma {:induction false} ShlAdd(a: int, b: int, k: nat)
    ensures Shl(a + b, k) == Shl(a, k) + Shl(b, k)
  {
    if k > 0 {
      ShlAdd(a, b, k - 1);
    }
  }

  lemma {:induction false} ShlDouble(v: int, k: nat)
    ensures Shl(2 * v, k) == Shl(v, k + 1)
  {
    if k > 0 {
      ShlDouble(v, k - 1);
    }
  }

  lemma {:induction false} ShlShl(v: int, j: nat, k: nat)
    ensures Shl(Shl(v, j), k) == Shl(v, j + k)
  {
    if k > 0 {
      ShlShl(v, j, k - 1);
    }
  }

  lemma {:induction false} ShlMonotone(a: int, b: int, k: nat)
    ensures a <= b <==> Shl(a, k) <= Shl(b, k)
  {
    if k > 0 {
      ShlMonotone(a, b, k - 1);
    }
  }

  /** Powers of two grow strictly. */
  lemma {:induction false} ShlOneMonotone(j: nat, k: nat)
    ensures j <= k <==> Shl(1, j) <= Shl(1, k)
  {
    if j <= k {
      ShlShl(1, k - j, j);
      ShlMonotone(1, Shl(1, k - j), j);
    } else {
      ShlShl(1, j - k - 1, k + 1);
      ShlMonotone(1, Shl(1, j - k - 1), k + 1);
    }
  }

  lemma {:induction false} ShrAdd(n: nat, a: nat, k: nat)
    ensures Shr(n + Shl(a, k), k) == Shr(n, k) + a
    decreases k
  {
    if k > 0 {
      ShlDouble(a, k - 1);
      ShrAdd(n, 2 * a, k - 1);
    }
  }

  lemma {:induction false} ShrBelow(n: nat, a: nat, k: nat)
    ensures n < Shl(a, k) <==> Shr(n, k) < a
  {
    var low := Low(n, k);
    ShlMonotone(a, Shr(n, k), k);
    ShlMonotone(Shr(n, k) + 1, a, k);
    ShlAdd(Shr(n, k), 1, k);
  }

  lemma {:induction false} ShlIsTimes(v: int, k: nat)
    ensures Shl(v, k) == v * Shl(1, k)
  {
    if k > 0 {
      ShlIsTimes(v, k - 1);
      MulAssoc(2, v, Shl(1, k - 1));
    }
  }

  lemma {:induction false} MulAssoc(a: int, b: int, c: int)
    ensures a * b * c == a * (b * c) == b * (a * c)
  {
  }

  lemma {:induction false} OneLess(n: nat, size: nat)
    requires n >= 1
    ensures n * size - size == (n - 1) * size
  {
  }

  lemma {:induction false} BitAndRest(bit: nat, rest: nat)
    requires bit < 2
    ensures (bit + 2 * rest) % 2 == bit && (bit + 2 * rest) / 2 == rest
  {
  }

  lemma {:induction false} MulAtLeast(k: int, d: int)
    requires k >= 1 && d > 0
    ensures k * d >= d
  {
    assert k * d == d + (k - 1) * d;
  }

  /** Quotient and remainder are determined by their defining equation. */
  lemma {:induction false} DivUnique(a: int, d: int, q: int, r: int)
    requires d > 0 && 0 <= r < d && a == q * d + r
    ensures a / d == q && a % d == r
  {
    var q' := a / d;
    var r' := a % d;
    assert a == q' * d + r';
    assert q * d - q' * d == r' - r;
    if q > q' {
      MulAtLeast(q - q', d);
      assert false;
    } else if q < q' {
      MulAtLeast(q' - q, d);
      assert false;
    }
  }
}
