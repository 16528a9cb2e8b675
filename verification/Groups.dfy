/**
 The algebra behind `AbstractGroup`: a structure with an addition, an identity and an inverse,
 and the multiple `n * x` that every scalar-multiplication routine has to return.
 */
module Groups {

  datatype Group<!T> = Group(identity: T, add: (T, T) -> T, inverse: T -> T, inversionIsFast: bool)
  {
    function Double(a: T): T {
      add(a, a)
    }
  }

  ghost predicate Associates<T>(g: Group<T>, a: T, b: T, c: T) {
    g.add(g.add(a, b), c) == g.add(a, g.add(b, c))
  }

  ghost predicate Commutes<T>(g: Group<T>, a: T, b: T) {
    g.add(a, b) == g.add(b, a)
  }

  ghost predicate IsMonoid<T(!new)>(g: Group<T>) {
    && (forall a :: g.add(g.identity, a) == a)
    && (forall a :: g.add(a, g.identity) == a)
    && (forall a, b, c :: Associates(g, a, b, c))
  }

  ghost predicate HasInverses<T(!new)>(g: Group<T>) {
    forall a {:trigger g.inverse(a)} :: g.add(a, g.inverse(a)) == g.identity && g.add(g.inverse(a), a) == g.identity
  }

  ghost predicate IsCommutative<T(!new)>(g: Group<T>) {
    forall a, b :: Commutes(g, a, b)
  }

  /** Inverses are needed only where the routines use them: when inversion is declared fast. */
  ghost predicate IsScalable<T(!new)>(g: Group<T>) {
    IsMonoid(g) && (g.inversionIsFast ==> HasInverses(g))
  }

  /** The multiple `n * x`: the specification of every routine in this file's clients. */
  ghost function Times<T(!new)>(g: Group<T>, x: T, n: int): (r: T)
    decreases if n < 0 then -n else n
  {
    if n == 0 then g.identity
    else if n > 0 then g.add(Times(g, x, n - 1), x)
    else g.add(Times(g, x, n + 1), g.inverse(x))
  }

  lemma {:induction false} TimesOne<T(!new)>(g: Group<T>, x: T)
    requires IsMonoid(g)
    ensures Times(g, x, 1) == x
  {
    assert Times(g, x, 0) == g.identity;
  }

  lemma {:induction false} TimesSucc<T(!new)>(g: Group<T>, x: T, n: int)
    requires IsMonoid(g)
    requires n >= 0 || HasInverses(g)
    ensures g.add(Times(g, x, n), x) == Times(g, x, n + 1)
  {
    if n < 0 {
      var t := Times(g, x, n + 1);
      assert Associates(g, t, g.inverse(x), x);
    }
  }

  lemma {:induction false} TimesPred<T(!new)>(g: Group<T>, x: T, n: int)
    requires IsMonoid(g) && HasInverses(g)
    ensures g.add(Times(g, x, n), g.inverse(x)) == Times(g, x, n - 1)
  {
    if n > 0 {
      var t := Times(g, x, n - 1);
      assert Associates(g, t, x, g.inverse(x));
    }
  }

  /** Multiples of one element add like their coefficients. */
  lemma {:induction false} TimesAdd<T(!new)>(g: Group<T>, x: T, m: int, n: int)
    requires IsMonoid(g)
    requires (m >= 0 && n >= 0) || HasInverses(g)
    ensures g.add(Times(g, x, m), Times(g, x, n)) == Times(g, x, m + n)
    decreases if n < 0 then -n else n
  {
    if n > 0 {
      TimesAdd(g, x, m, n - 1);
      assert Associates(g, Times(g, x, m), Times(g, x, n - 1), x);
      TimesSucc(g, x, m + n - 1);
    } else if n < 0 {
      TimesAdd(g, x, m, n + 1);
      assert Associates(g, Times(g, x, m), Times(g, x, n + 1), g.inverse(x));
      TimesPred(g, x, m + n + 1);
    }
  }

  lemma {:induction false} TimesNegate<T(!new)>(g: Group<T>, x: T, n: int)
    requires IsMonoid(g) && HasInverses(g)
    ensures g.inverse(Times(g, x, n)) == Times(g, x, -n)
  {
    TimesAdd(g, x, n, -n);
    var a, b := Times(g, x, n), Times(g, x, -n);
    assert Associates(g, g.inverse(a), a, b);
  }

  /** A multiple of a multiple. */
  lemma {:induction false} TimesTimes<T(!new)>(g: Group<T>, x: T, m: nat, n: nat)
    requires IsMonoid(g)
    ensures Times(g, Times(g, x, m), n) == Times(g, x, m * n)
  {
    if n > 0 {
      TimesTimes(g, x, m, n - 1);
      assert m * n == m * (n - 1) + m;
      TimesAdd(g, x, m * (n - 1), m);
    }
  }

  /** The two-base combination `a * x + b * y`. */
  ghost function Combine<T(!new)>(g: Group<T>, x: T, y: T, a: nat, b: nat): (r: T) {
    g.add(Times(g, x, a), Times(g, y, b))
  }

  lemma {:induction false} AddPairs<T(!new)>(g: Group<T>, a: T, b: T, c: T, d: T)
    requires IsMonoid(g) && IsCommutative(g)
    ensures g.add(g.add(a, b), g.add(c, d)) == g.add(g.add(a, c), g.add(b, d))
  {
    assert Associates(g, a, b, g.add(c, d));
    assert Associates(g, b, c, d) && Commutes(g, b, c);
    assert Associates(g, c, b, d);
    assert Associates(g, a, c, g.add(b, d));
  }

  lemma {:induction false} CombineAdd<T(!new)>(g: Group<T>, x: T, y: T, a: nat, b: nat, c: nat, d: nat)
    requires IsMonoid(g) && IsCommutative(g)
    ensures g.add(Combine(g, x, y, a, b), Combine(g, x, y, c, d)) == Combine(g, x, y, a + c, b + d)
  {
    var xa, yb, xc, yd := Times(g, x, a), Times(g, y, b), Times(g, x, c), Times(g, y, d);
    AddPairs(g, xa, yb, xc, yd);
    TimesAdd(g, x, a, c);
    TimesAdd(g, y, b, d);
  }
}
