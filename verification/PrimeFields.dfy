/** Congruence, powers and primes: a prime that divides a product divides a factor. */
module PrimeFields {
  import opened Numbers
  import opened QuotientRing

  ghost predicate Prime(p: int) {
    p >= 2 && forall d :: d >= 1 && Divides(d, p) ==> d == 1 || d == p
  }

  ghost predicate Congruent(a: int, b: int, n: int) {
    Divides(n, a - b)
  }

  function Pow(x: int, n: nat): (r: int) {
    if n == 0 then 1 else Pow(x, n - 1) * x
  }

  lemma {:induction false} PowAdd(x: int, m: nat, n: nat)
    ensures Pow(x, m + n) == Pow(x, m) * Pow(x, n)
  {
    if n > 0 {
      PowAdd(x, m, n - 1);
      MulAssoc(Pow(x, m), Pow(x, n - 1), x);
    }
  }

  lemma {:induction false} PowPow(x: int, m: nat, n: nat)
    ensures Pow(Pow(x, m), n) == Pow(x, m * n)
  {
    if n > 0 {
      PowPow(x, m, n - 1);
      assert m * n == m * (n - 1) + m;
      PowAdd(x, m * (n - 1), m);
    }
  }

  lemma {:induction false} CongruentWitness(a: int, b: int, n: int, k: int)
    requires a - b == k * n
    ensures Congruent(a, b, n)
  {
  }

  lemma {:induction false} CongruentMul(a: int, b: int, c: int, d: int, n: int)
    requires Congruent(a, b, n) && Congruent(c, d, n)
    ensures Congruent(a * c, b * d, n)
  {
    var k :| a - b == k * n;
    var l :| c - d == l * n;
    CrossTerms(a, b, c, d, k, l, n);
    CongruentWitness(a * c, b * d, n, k * c + b * l);
  }

  lemma {:induction false} CrossTerms(a: int, b: int, c: int, d: int, k: int, l: int, n: int)
    requires a - b == k * n && c - d == l * n
    ensures a * c - b * d == (k * c + b * l) * n
  {
    assert a * c - b * d == (a - b) * c + b * (c - d);
    MulAssoc(k, n, c);
    MulAssoc(b, l, n);
    assert (k * n) * c == (k * c) * n;
  }

  lemma {:induction false} CongruentTrans(a: int, b: int, c: int, n: int)
    requires Congruent(a, b, n) && (Congruent(b, c, n) || Congruent(c, b, n))
    ensures Congruent(a, c, n)
  {
    var k :| a - b == k * n;
    if Congruent(b, c, n) {
      var l :| b - c == l * n;
      CongruentWitness(a, c, n, k + l);
    } else {
      var l :| c - b == l * n;
      CongruentWitness(a, c, n, k - l);
    }
  }

  lemma {:induction false} CongruentSelf(a: int, n: int)
    ensures Congruent(a, a, n)
  {
    CongruentWitness(a, a, n, 0);
  }

  lemma {:induction false} CongruentPow(a: int, b: int, e: nat, n: int)
    requires Congruent(a, b, n)
    ensures Congruent(Pow(a, e), Pow(b, e), n)
  {
    if e == 0 {
      CongruentSelf(1, n);
    } else {
      CongruentPow(a, b, e - 1, n);
      CongruentMul(Pow(a, e - 1), Pow(b, e - 1), a, b, n);
    }
  }

  lemma {:induction false} CongruentMod(a: int, n: int)
    requires n > 0
    ensures Congruent(a, a % n, n)
  {
    CongruentWitness(a, a % n, n, a / n);
  }

  /** Congruence is equality of remainders. */
  lemma {:induction false} CongruentIffMod(a: int, b: int, n: int)
    requires n > 0
    ensures Congruent(a, b, n) <==> a % n == b % n
  {
    if Congruent(a, b, n) {
      var k :| a - b == k * n;
      ModMultiple(b, k, n);
    }
    if a % n == b % n {
      CongruentMod(a, n);
      CongruentMod(b, n);
      CongruentTrans(a, a % n, b, n);
    }
  }

  /** The extended Euclidean algorithm, as a proof. */
  lemma {:induction false} Euclid(t: Bezout, a: int, m: int, g0: int, g1: int) returns (t': Bezout, g: int)
    requires Tracks(t, a, m, g0, g1)
    ensures Tracks(t', a, m, g, 0)
    decreases Abs(g1)
  {
    hide Tracks;
    if g1 == 0 {
      return t, g0;
    }
    DivisionStep(t, a, m, g0, g1, g0 / g1, g0 % g1);
    t', g := Euclid(Next(t, g0 / g1), a, m, g1, g0 % g1);
  }

  lemma {:induction false} BezoutIdentity(a: int, m: int) returns (u: int, w: int)
    requires m > 0 && Coprime(a, m)
    ensures u * a + w * m == 1
  {
    var t, g := Euclid(Bezout(0, 1, 1, 0, 0, 1, 1, 0), a, m, m, a);
    CoprimeOrNot(t, a, m, g);
    u, w := if g == 1 then t.u0 else 0 - t.u0, if g == 1 then t.w0 else 0 - t.w0;
    SignedCombination(t, a, m, g, u, w);
  }

  lemma {:induction false} PrimeCoprime(p: int, a: int)
    requires Prime(p)
    ensures Divides(p, a) <==> !Coprime(a, p)
  {
    if Divides(p, a) {
      assert p == 1 * p && Divides(p, p);
    } else {
      forall d | d >= 1 && Divides(d, a) && Divides(d, p) ensures d == 1 {
      }
    }
  }

  /** A prime that divides a product divides a factor. */
  lemma {:induction false} PrimeDividesFactor(p: int, a: int, b: int)
    requires Prime(p) && Divides(p, a * b)
    ensures Divides(p, a) || Divides(p, b)
  {
    PrimeCoprime(p, a);
    if !Divides(p, a) {
      var u, w := BezoutIdentity(a, p);
      var k :| a * b == k * p;
      FactorByBezout(a, b, p, u, w, k);
    }
  }

  lemma {:induction false} FactorByBezout(a: int, b: int, p: int, u: int, w: int, k: int)
    requires u * a + w * p == 1 && a * b == k * p
    ensures Divides(p, b)
  {
    assert b == (u * a + w * p) * b;
    assert (u * a) * b == u * (a * b);
    assert u * (k * p) == (u * k) * p;
    assert (w * p) * b == (w * b) * p;
    assert b == (u * k + w * b) * p;
  }

  lemma {:induction false} PrimeDividesPower(p: int, a: int, e: nat)
    requires Prime(p) && Divides(p, Pow(a, e))
    ensures e >= 1 && Divides(p, a)
  {
    if e == 0 {
      var k :| 1 == k * p;
      FactorOfOne(k, p);
      assert false;
    } else {
      PrimeDividesFactor(p, Pow(a, e - 1), a);
      if Divides(p, Pow(a, e - 1)) {
        PrimeDividesPower(p, a, e - 1);
      }
    }
  }
}
