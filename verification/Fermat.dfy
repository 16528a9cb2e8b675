/** Fermat's little theorem, by multiplying out all residues, and its consequence for two primes. */
module Fermat {
  import opened Numbers
  import opened Groups
  import opened StdHeap
  import opened GeneralCascade
  import opened QuotientRing
  import opened PrimeFields

  /** The integers under multiplication. */
  ghost function Product(): (g: Group<int>) {
    Group(1, (x: int, y: int) => x * y, (x: int) => x, false)
  }

  lemma {:induction false} ProductLaws()
    ensures IsMonoid(Product()) && IsCommutative(Product())
  {
    forall a, b, c ensures Associates(Product(), a, b, c) {
      MulAssoc(a, b, c);
    }
  }

  /** The residues of `a`, `2a`, ..., `na`. */
  ghost function Residues(a: int, p: int, n: nat): (s: seq<Term<int>>)
    requires p > 0
    ensures |s| == n
  {
    seq(n, i => Unit(Residue(a, p, i + 1)))
  }

  ghost function Residue(a: int, p: int, i: int): (r: int)
    requires p > 0
  {
    (a * i) % p
  }

  ghost function Unit(v: int): (t: Term<int>) {
    Term(v, 1)
  }

  ghost function NonZeroResidues(p: int): (s: set<Term<int>>) {
    set v: int | 1 <= v < p :: Unit(v)
  }

  ghost function Factorial(n: nat): (r: int) {
    if n == 0 then 1 else Factorial(n - 1) * n
  }

  lemma {:induction false} ResiduesProduct(a: int, p: int, n: nat)
    requires p > 0
    ensures Congruent(SumTerms(Product(), Residues(a, p, n)), Pow(a, n) * Factorial(n), p)
  {
    ProductLaws();
    if n == 0 {
      CongruentSelf(1, p);
    } else {
      ResiduesProduct(a, p, n - 1);
      var s, t := Residues(a, p, n - 1), Term((a * n) % p, 1);
      assert Residues(a, p, n) == s + [t];
      SumSplit(Product(), s, [t]);
      SumOne(Product(), t);
      TimesOne(Product(), t.base);
      CongruentMod(a * n, p);
      CongruentBack(a * n, (a * n) % p, p);
      CongruentMul(SumTerms(Product(), s), Pow(a, n - 1) * Factorial(n - 1), (a * n) % p, a * n, p);
      Rearrange(Pow(a, n - 1), Factorial(n - 1), a, n);
    }
  }

  lemma {:induction false} CongruentBack(a: int, b: int, n: int)
    requires Congruent(a, b, n)
    ensures Congruent(b, a, n)
  {
    CongruentSelf(b, n);
    CongruentTrans(b, b, a, n);
  }

  lemma {:induction false} Rearrange(x: int, f: int, a: int, n: int)
    ensures (x * f) * (a * n) == (x * a) * (f * n)
  {
    MulAssoc(x, f, a * n);
    MulAssoc(f, a, n);
    MulAssoc(x, a, f * n);
    MulAssoc(a, f, n);
  }

  lemma {:induction false} NotDivisible(p: int, i: int)
    requires 0 < i < p
    ensures !Divides(p, i)
  {
    if Divides(p, i) {
      var k :| i == k * p;
      if k >= 1 {
        MulAtLeast(k, p);
      } else if k < 0 {
        MulAtLeast(0 - k, p);
      }
      assert false;
    }
  }

  lemma {:induction false} FactorialNotDivisible(p: int, n: nat)
    requires Prime(p) && n < p
    ensures !Divides(p, Factorial(n))
  {
    if n == 0 {
      NotDivisible(p, 1);
    } else {
      FactorialNotDivisible(p, n - 1);
      NotDivisible(p, n);
      if Divides(p, Factorial(n - 1) * n) {
        PrimeDividesFactor(p, Factorial(n - 1), n);
      }
    }
  }

  lemma {:induction false} ResidueInRange(a: int, p: int, i: nat)
    requires Prime(p) && !Divides(p, a) && 1 <= i < p
    ensures 1 <= Residue(a, p, i) < p
  {
    if (a * i) % p == 0 {
      CongruentMod(a * i, p);
      PrimeDividesFactor(p, a, i);
      NotDivisible(p, i);
      assert false;
    }
  }

  lemma {:induction false} ResidueInjective(a: int, p: int, i: nat, j: nat)
    requires Prime(p) && !Divides(p, a) && 1 <= i < j < p
    ensures Residue(a, p, i) != Residue(a, p, j)
  {
    if (a * i) % p == (a * j) % p {
      CongruentIffMod(a * j, a * i, p);
      assert a * j - a * i == a * (j - i);
      PrimeDividesFactor(p, a, j - i);
      NotDivisible(p, j - i);
      assert false;
    }
  }

  lemma {:induction false} ResidueReached(a: int, p: int, v: nat) returns (i: nat)
    requires Prime(p) && !Divides(p, a) && 1 <= v < p
    ensures 1 <= i < p && Residue(a, p, i) == v
  {
    PrimeCoprime(p, a);
    var u, w := BezoutIdentity(a, p);
    i := (u * v) % p;
    CongruentMod(u * v, p);
    CongruentBack(u * v, i, p);
    CongruentSelf(a, p);
    CongruentMul(a, a, i, u * v, p);
    InverseTimes(a, u, v, w, p);
    CongruentTrans(a * i, a * (u * v), v, p);
    CongruentIffMod(a * i, v, p);
    DivUnique(v, p, 0, v);
    if i == 0 {
      DivUnique(0, p, 0, 0);
      assert false;
    }
  }

  lemma {:induction false} InverseTimes(a: int, u: int, v: int, w: int, p: int)
    requires u * a + w * p == 1
    ensures Congruent(a * (u * v), v, p)
  {
    MulAssoc(a, u, v);
    assert (a * u) * v == (1 - w * p) * v;
    assert (1 - w * p) * v == v - (w * p) * v;
    assert (w * p) * v == (w * v) * p;
    CongruentWitness(a * (u * v), v, p, 0 - w * v);
  }

  ghost predicate Distinct<T>(s: seq<T>) {
    forall i, j :: 0 <= i < j < |s| ==> s[i] != s[j]
  }

  ghost function Elements<T(!new)>(s: seq<T>): (r: set<T>) {
    set x | x in s
  }

  lemma {:induction false} DistinctMultiset<T(!new)>(s: seq<T>)
    requires Distinct(s)
    ensures multiset(s) == multiset(Elements(s))
  {
    if s != [] {
      var n := |s| - 1;
      DistinctMultiset(s[..n]);
      assert s == s[..n] + [s[n]];
      assert s[n] !in s[..n];
      assert Elements(s) == Elements(s[..n]) + {s[n]};
    }
  }

  /** Multiplying all non-zero residues by `a` only permutes them. */
  lemma {:induction false} ResiduesPermuted(a: int, p: int)
    requires Prime(p) && !Divides(p, a)
    ensures multiset(Residues(a, p, p - 1)) == multiset(NonZeroResidues(p))
  {
    assert p >= 2;
    hide Prime, Divides, Residue;
    var s := Residues(a, p, p - 1);
    forall i, j | 0 <= i < j < |s| ensures s[i] != s[j] {
      ResidueInjective(a, p, i + 1, j + 1);
    }
    DistinctMultiset(s);
    ResiduesAreUnits(a, p);
  }

  lemma {:induction false} ResiduesAreUnits(a: int, p: int)
    requires Prime(p) && !Divides(p, a)
    ensures Elements(Residues(a, p, p - 1)) == NonZeroResidues(p)
  {
    assert p >= 2;
    hide Prime, Divides, Residue;
    var s := Residues(a, p, p - 1);
    forall x | x in s ensures x in NonZeroResidues(p) {
      var i :| 0 <= i < |s| && s[i] == x;
      ResidueInRange(a, p, i + 1);
      assert x == Unit(Residue(a, p, i + 1));
    }
    forall v: int | 1 <= v < p ensures Unit(v) in s {
      var i := ResidueReached(a, p, v);
      assert s[i - 1] == Unit(v);
    }
  }

  lemma {:induction false} PowOne(n: nat)
    ensures Pow(1, n) == 1
  {
    if n > 0 {
      PowOne(n - 1);
    }
  }

  /** The product of all multiples of `a` is the product of all residues. */
  lemma {:induction false} SameProducts(a: int, p: int)
    requires Prime(p) && !Divides(p, a)
    ensures Congruent(Pow(a, p - 1) * Factorial(p - 1), 1 * Factorial(p - 1), p)
  {
    assert p >= 2;
    hide Prime, Congruent, Pow, Factorial, Residues, SumTerms, Product, IsMonoid, IsCommutative;
    NotDivisible(p, 1);
    ResiduesPermuted(a, p);
    ResiduesPermuted(1, p);
    var s, s' := Residues(a, p, p - 1), Residues(1, p, p - 1);
    ProductLaws();
    SumPermutes(Product(), s, s');
    ResiduesProduct(a, p, p - 1);
    ResiduesProduct(1, p, p - 1);
    PowOne(p - 1);
    CongruentBack(SumTerms(Product(), s), Pow(a, p - 1) * Factorial(p - 1), p);
    CongruentTrans(Pow(a, p - 1) * Factorial(p - 1), SumTerms(Product(), s'), 1 * Factorial(p - 1), p);
  }

  /** Fermat's little theorem. */
  lemma {:induction false} FermatLittle(a: int, p: int)
    requires Prime(p) && !Divides(p, a)
    ensures Congruent(Pow(a, p - 1), 1, p)
  {
    assert p >= 2;
    hide Prime, Divides, Pow, Factorial;
    var x, f := Pow(a, p - 1), Factorial(p - 1);
    SameProducts(a, p);
    assert x * f - 1 * f == (x - 1) * f;
    FactorialNotDivisible(p, p - 1);
    PrimeDividesFactor(p, x - 1, f);
  }

  /** Modulo one prime, a positive exponent may be reduced by multiples of `p - 1`. */
  lemma {:induction false} ReduceModPrime(p: int, x: int, e: nat, k: nat)
    requires Prime(p) && (e >= 1 || !Divides(p, x))
    ensures Congruent(Pow(x, e + (p - 1) * k), Pow(x, e), p)
  {
    var period := Pow(x, (p - 1) * k);
    PowAdd(x, e, (p - 1) * k);
    CongruentSelf(Pow(x, e), p);
    if Divides(p, x) {
      DividesProduct(p, Pow(x, e - 1), x);
      DividesProduct(p, period, Pow(x, e));
      var a :| Pow(x, e) == a * p;
      var b :| period * Pow(x, e) == b * p;
      CongruentWitness(Pow(x, e) * period, Pow(x, e), p, b - a);
    } else {
      FermatLittle(x, p);
      PowPow(x, p - 1, k);
      CongruentPow(Pow(x, p - 1), 1, k, p);
      PowOne(k);
      CongruentMul(Pow(x, e), Pow(x, e), period, 1, p);
    }
  }

  lemma {:induction false} DividesProduct(d: int, a: int, b: int)
    requires Divides(d, b)
    ensures Divides(d, a * b)
  {
    var k :| b == k * d;
    assert a * (k * d) == (a * k) * d;
  }

  /** Distinct primes dividing a number: so does their product. */
  lemma {:induction false} CombinePrimes(a: int, b: int, p: int, q: int)
    requires Prime(p) && Prime(q) && p != q && Congruent(a, b, p) && Congruent(a, b, q)
    ensures Congruent(a, b, p * q)
  {
    hide Prime;
    var k :| a - b == k * p;
    PrimesApart(p, q);
    FactorLeft(q, k, p, a - b);
    var l :| k == l * q;
    assert (l * q) * p == l * (p * q);
    CongruentWitness(a, b, p * q, l);
  }

  lemma {:induction false} PrimesApart(p: int, q: int)
    requires Prime(p) && Prime(q) && p != q
    ensures !Divides(q, p)
  {
  }

  lemma {:induction false} FactorLeft(q: int, k: int, p: int, n: int)
    requires Prime(q) && n == k * p && Divides(q, n) && !Divides(q, p)
    ensures Divides(q, k)
  {
    hide Prime, Divides;
    PrimeDividesFactor(q, k, p);
  }

  lemma {:induction false} CoprimeToProduct(x: int, p: int, q: int)
    requires Prime(p) && Prime(q) && Coprime(x, p * q)
    ensures !Divides(p, x) && !Divides(q, x)
  {
    assert p * q == q * p;
    assert Divides(p, p * q) && Divides(q, p * q);
  }

  /**
   Reducing a positive exponent modulo `(p - 1) * (q - 1)` keeps the power modulo `p * q` exactly
   when the reduced exponent is still positive or the base is coprime to the modulus.
   */
  lemma {:induction false} ReduceExponent(p: int, q: int, x: int, e: nat, k: nat)
    requires Prime(p) && Prime(q) && p != q
    requires e + ((p - 1) * (q - 1)) * k >= 1
    ensures Congruent(Pow(x, e + ((p - 1) * (q - 1)) * k), Pow(x, e), p * q) <==> e >= 1 || Coprime(x, p * q)
  {
    var phi := (p - 1) * (q - 1);
    var big := e + phi * k;
    if e >= 1 || Coprime(x, p * q) {
      if e == 0 {
        CoprimeToProduct(x, p, q);
      }
      MulAssoc(p - 1, q - 1, k);
      ReduceModPrime(p, x, e, (q - 1) * k);
      ReduceModPrime(q, x, e, (p - 1) * k);
      CombinePrimes(Pow(x, big), Pow(x, e), p, q);
    } else {
      CommonFactorStays(x, p * q, big);
    }
  }

  lemma {:induction false} CommonFactorStays(x: int, n: int, e: nat)
    requires !Coprime(x, n) && e >= 1
    ensures !Congruent(Pow(x, e), Pow(x, 0), n)
  {
    var d :| d >= 1 && Divides(d, x) && Divides(d, n) && d != 1;
    DividesProduct(d, Pow(x, e - 1), x);
    if Congruent(Pow(x, e), 1, n) {
      var k :| Pow(x, e) - 1 == k * n;
      DividesProduct(d, k, n);
      var a :| Pow(x, e) == a * d;
      var b :| k * n == b * d;
      assert 1 == (a - b) * d;
      FactorOfOne(a - b, d);
      assert false;
    }
  }
}
