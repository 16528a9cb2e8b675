/**
 Euclid's algorithm in `algebra.cpp`, over the integers: `AbstractEuclideanDomain::Gcd` and
 `QuotientRing::MultiplicativeInverse`. `Integer::Divide` rounds so that the remainder is never
 negative, which is what Dafny's `/` and `%` do.
 */
module QuotientRing {
  import opened Numbers

  ghost predicate Divides(d: int, n: int) {
    exists k :: n == k * d
  }

  ghost predicate Coprime(a: int, m: int) {
    forall d :: d >= 1 && Divides(d, a) && Divides(d, m) ==> d == 1
  }

  function Abs(a: int): (r: nat) {
    if a < 0 then -a else a
  }

  /** The bookkeeping of both algorithms: each remainder is a combination of the inputs, and back. */
  datatype Bezout = Bezout(u0: int, w0: int, u1: int, w1: int, p0: int, p1: int, q0: int, q1: int)

  ghost predicate Tracks(t: Bezout, a: int, m: int, g0: int, g1: int) {
    && g0 == t.u0 * a + t.w0 * m && g1 == t.u1 * a + t.w1 * m
    && a == t.p0 * g0 + t.p1 * g1 && m == t.q0 * g0 + t.q1 * g1
  }

  ghost function Next(t: Bezout, y: int): (r: Bezout) {
    Bezout(t.u1, t.w1, t.u0 - t.u1 * y, t.w0 - t.w1 * y, t.p0 * y + t.p1, t.p0, t.q0 * y + t.q1, t.q0)
  }

  lemma {:induction false} DivisionStep(t: Bezout, a: int, m: int, g0: int, g1: int, y: int, g2: int)
    requires Tracks(t, a, m, g0, g1) && g0 == y * g1 + g2
    ensures Tracks(Next(t, y), a, m, g1, g2)
  {
    CombinationStep(t.u0, t.w0, t.u1, t.w1, a, m, y);
    BackStep(t.p0, t.p1, y, g1, g2);
    BackStep(t.q0, t.q1, y, g1, g2);
  }

  lemma {:induction false} CombinationStep(u0: int, w0: int, u1: int, w1: int, a: int, m: int, y: int)
    ensures (u0 * a + w0 * m) - y * (u1 * a + w1 * m) == (u0 - u1 * y) * a + (w0 - w1 * y) * m
  {
    assert y * (u1 * a + w1 * m) == (u1 * y) * a + (w1 * y) * m;
  }

  lemma {:induction false} BackStep(p0: int, p1: int, y: int, g1: int, g2: int)
    ensures p0 * (y * g1 + g2) + p1 * g1 == (p0 * y + p1) * g1 + p0 * g2
  {
    assert p0 * (y * g1 + g2) == (p0 * y) * g1 + p0 * g2;
  }

  /** When the second remainder is zero, the first is a greatest common divisor. */
  lemma {:induction false} LastRemainder(t: Bezout, a: int, m: int, g0: int)
    requires Tracks(t, a, m, g0, 0)
    ensures Divides(g0, a) && Divides(g0, m)
    ensures forall d :: Divides(d, a) && Divides(d, m) ==> Divides(d, g0)
  {
    forall d | Divides(d, a) && Divides(d, m) ensures Divides(d, g0) {
      var k :| a == k * d;
      var l :| m == l * d;
      assert t.u0 * (k * d) + t.w0 * (l * d) == (t.u0 * k + t.w0 * l) * d;
    }
  }

  lemma {:induction false} CoprimeOrNot(t: Bezout, a: int, m: int, g0: int)
    requires Tracks(t, a, m, g0, 0) && m > 0
    ensures Coprime(a, m) <==> Abs(g0) == 1
  {
    LastRemainder(t, a, m, g0);
    if Abs(g0) == 1 {
      forall d | d >= 1 && Divides(d, a) && Divides(d, m) ensures d == 1 {
        assert Divides(d, g0);
        var k :| g0 == k * d;
        FactorOfOne(k, d);
      }
    } else {
      DividesAbs(g0, a);
      DividesAbs(g0, m);
      if g0 == 0 {
        assert false;
      }
    }
  }

  lemma {:induction false} FactorOfOne(k: int, d: int)
    requires d >= 1 && Abs(k * d) == 1
    ensures d == 1
  {
    if d >= 2 {
      if k >= 1 {
        MulAtLeast(k, d);
      } else if k <= -1 {
        MulAtLeast(-k, d);
      }
    }
  }

  lemma {:induction false} DividesAbs(d: int, n: int)
    requires Divides(d, n)
    ensures Divides(Abs(d), n)
  {
    var k :| n == k * d;
    assert n == (if d < 0 then -k else k) * Abs(d);
  }

  method Gcd(a: int, b: int) returns (r: int)
    ensures Divides(r, a) && Divides(r, b)
    ensures forall d :: Divides(d, a) && Divides(d, b) ==> Divides(d, r)
  {
    var g := new int[3];
    g[0], g[1] := b, a;
    var i0, i1, i2 := 0, 1, 2;
    ghost var t := Bezout(0, 1, 1, 0, 0, 1, 1, 0);
    while g[i1] != 0
      invariant {i0, i1, i2} == {0, 1, 2}
      invariant Tracks(t, a, b, g[i0], g[i1])
      decreases Abs(g[i1])
    {
      DivisionStep(t, a, b, g[i0], g[i1], g[i0] / g[i1], g[i0] % g[i1]);
      t := Next(t, g[i0] / g[i1]);
      g[i2] := g[i0] % g[i1];
      i0, i1, i2 := i1, i2, i0;
    }
    LastRemainder(t, a, b, g[i0]);
    r := g[i0];
  }

  /** What a caller expects of an inverse modulo `m`: an inverse if there is one, otherwise zero. */
  ghost predicate IsInverse(r: int, a: int, m: int)
    requires m > 0
  {
    if Coprime(a, m) then (r * a) % m == 1 % m else r == 0
  }

  /**
   The loop test compares modulo `m`, so it stops too early on an argument that is not reduced:
   the answer is right exactly when `a` is reduced, or `m` is 1, or there is no inverse to find.
   */
  method MultiplicativeInverse(a: int, m: int) returns (r: int)
    requires m > 0
    ensures IsInverse(r, a, m) <==> Abs(a) < m || m == 1 || !Coprime(a, m)
    ensures Abs(a) >= m ==> r == 0
  {
    hide State, IsInverse, Coprime;
    var g, v := new int[3], new int[3];
    g[0], g[1] := m, a;
    v[0], v[1] := 0, 1;
    var i0, i1, i2 := 0, 1, 2;
    ghost var t, steps := Bezout(0, 1, 1, 0, 0, 1, 1, 0), 0;
    Start(a, m);
    while (g[i1] - 0) % m != 0
      invariant {i0, i1, i2} == {0, 1, 2}
      invariant State(t, steps, a, m, g[i0], g[i1], v[i0], v[i1])
      decreases Abs(g[i1])
    {
      ghost var before := Abs(g[i1]);
      Turn(t, steps, a, m, g[i0], g[i1], v[i0], v[i1]);
      var y := g[i0] / g[i1];
      t, steps := Next(t, y), steps + 1;
      g[i2] := g[i0] % g[i1];
      v[i2] := v[i0] - v[i1] * y;
      i0, i1, i2 := i1, i2, i0;
    }
    r := if Abs(g[i0]) == 1 then v[i0] / g[i0] else 0;
    Outcome(t, a, m, g[i0], g[i1], v[i0], v[i1], steps, r);
  }

  /** The loop invariant: coefficients that track the remainders, which stay below `m` if `a` is. */
  ghost predicate State(t: Bezout, steps: int, a: int, m: int, g0: int, g1: int, v0: int, v1: int) {
    && Tracks(t, a, m, g0, g1) && v0 == t.u0 && v1 == t.u1
    && (Abs(a) < m ==> Abs(g1) < m)
    && (Abs(a) >= m ==> Early(a, m, steps, v0, g0, g1))
  }

  lemma {:induction false} Start(a: int, m: int)
    ensures State(Bezout(0, 1, 1, 0, 0, 1, 1, 0), 0, a, m, m, a, 0, 1)
  {
  }

  lemma {:induction false} Turn(t: Bezout, steps: int, a: int, m: int, g0: int, g1: int, v0: int, v1: int)
    requires m > 0 && State(t, steps, a, m, g0, g1, v0, v1) && g1 % m != 0
    ensures g1 != 0 && Abs(g0 % g1) < Abs(g1)
    ensures State(Next(t, g0 / g1), steps + 1, a, m, g1, g0 % g1, v1, v0 - v1 * (g0 / g1))
  {
    hide Tracks;
    if g1 == 0 {
      DivUnique(0, m, 0, 0);
      assert false;
    }
    DivisionStep(t, a, m, g0, g1, g0 / g1, g0 % g1);
    if Abs(a) >= m {
      if steps == 0 {
        FirstDivision(a, m);
      } else {
        SelfMod(m);
        assert false;
      }
    }
  }

  lemma {:induction false} Outcome(t: Bezout, a: int, m: int, g0: int, g1: int, v0: int, v1: int, steps: int, r: int)
    requires m > 0 && State(t, steps, a, m, g0, g1, v0, v1) && g1 % m == 0
    requires r == if Abs(g0) == 1 then v0 / g0 else 0
    ensures IsInverse(r, a, m) <==> Abs(a) < m || m == 1 || !Coprime(a, m)
    ensures Abs(a) >= m ==> r == 0
  {
    hide Coprime, Divides, Tracks;
    if Abs(a) < m {
      ReducedIsExact(g1, m);
      CoprimeOrNot(t, a, m, g0);
      if Abs(g0) == 1 {
        InverseFromBezout(t, a, m, g0, r);
      }
    } else {
      NotReduced(a, m, r);
    }
  }


  /** On an argument that is not reduced the loop makes at most one turn and ends with the modulus. */
  ghost predicate Early(a: int, m: int, steps: int, v0: int, g0: int, g1: int) {
    && 0 <= steps <= 1
    && (steps == 0 ==> v0 == 0 && g0 == m && g1 == a)
    && (steps == 1 ==> g0 == a && g1 == m && Abs(a) > m)
  }

  lemma {:induction false} ReducedIsExact(n: int, m: int)
    requires m > 0 && Abs(n) < m && n % m == 0
    ensures n == 0
  {
    var k := n / m;
    assert n == k * m;
    if k >= 1 {
      MulAtLeast(k, m);
      assert false;
    } else if k <= -1 {
      MulAtLeast(-k, m);
      assert false;
    }
  }

  lemma {:induction false} FirstDivision(a: int, m: int)
    requires m > 0 && Abs(a) >= m && a % m != 0
    ensures Abs(a) > m && m / a == 0 && m % a == m
  {
    if a == m {
      DivUnique(a, m, 1, 0);
    } else if a == -m {
      DivUnique(a, m, -1, 0);
    } else {
      EuclideanUnique(m, a);
    }
  }

  lemma {:induction false} EuclideanUnique(m: int, a: int)
    requires 0 < m < Abs(a)
    ensures m / a == 0 && m % a == m
  {
    var q, r := m / a, m % a;
    assert m == q * a + r && 0 <= r < Abs(a);
    if a > 0 {
      DivUnique(m, a, 0, m);
    } else {
      assert m == (-q) * (-a) + r;
      DivUnique(m, -a, 0, m);
      DivUnique(m, -a, -q, r);
    }
  }

  lemma {:induction false} InverseFromBezout(t: Bezout, a: int, m: int, g0: int, r: int)
    requires Tracks(t, a, m, g0, 0) && m > 0 && Abs(g0) == 1 && r == t.u0 / g0
    ensures (r * a) % m == 1 % m
  {
    hide Tracks;
    UnitQuotient(t.u0, g0);
    var w := if g0 == 1 then t.w0 else 0 - t.w0;
    SignedCombination(t, a, m, g0, r, w);
    ModMultiple(1, 0 - w, m);
  }

  lemma {:induction false} UnitQuotient(u: int, g: int)
    requires Abs(g) == 1
    ensures u / g == if g == 1 then u else 0 - u
  {
  }

  lemma {:induction false} SignedCombination(t: Bezout, a: int, m: int, g0: int, r: int, w: int)
    requires Tracks(t, a, m, g0, 0) && Abs(g0) == 1
    requires r == (if g0 == 1 then t.u0 else 0 - t.u0) && w == (if g0 == 1 then t.w0 else 0 - t.w0)
    ensures r * a == 1 + (0 - w) * m
  {
    if g0 == -1 {
      assert (0 - t.u0) * a == 0 - t.u0 * a;
      assert (0 - (0 - t.w0)) * m == t.w0 * m;
    } else {
      assert (0 - t.w0) * m == 0 - t.w0 * m;
    }
  }

  lemma {:induction false} SelfMod(m: int)
    requires m > 0
    ensures m % m == 0
  {
    DivUnique(m, m, 1, 0);
  }

  lemma {:induction false} ModMultiple(n: int, k: int, m: int)
    requires m > 0
    ensures (n + k * m) % m == n % m
  {
    var q, r := n / m, n % m;
    assert n + k * m == (q + k) * m + r;
    DivUnique(n + k * m, m, q + k, r);
  }

  lemma {:induction false} NotReduced(a: int, m: int, r: int)
    requires m > 0 && Abs(a) >= m && r == 0
    ensures IsInverse(r, a, m) <==> m == 1 || !Coprime(a, m)
  {
    hide Coprime;
    assert r * a == 0;
    if m > 1 {
      DivUnique(1, m, 0, 1);
    }
  }

  /** 5 has the inverse 2 modulo 3, but not being reduced it is answered with zero. */
  lemma {:induction false} UnreducedFails()
    ensures Coprime(5, 3) && (2 * 5) % 3 == 1 && !IsInverse(0, 5, 3)
  {
    forall d | d >= 1 && Divides(d, 5) && Divides(d, 3) ensures d == 1 {
      var k :| 5 == k * d;
      var j :| 3 == j * d;
      assert (2 * k - 3 * j) * d == 2 * (k * d) - 3 * (j * d) == 1;
      FactorOfOne(2 * k - 3 * j, d);
    }
  }
}
