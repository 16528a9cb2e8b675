/** Multi-base multiplication over a heap of exponents: `GeneralCascadeMultiplication`. */
module GeneralCascade {
  import opened Groups
  import opened StdHeap
  import ScalarMultiplication
  import Cascade

  /** The sum of `exponent * base` over all terms. */
  ghost function SumTerms<T(!new)>(g: Group<T>, s: seq<Term<T>>): (r: T) {
    if s == [] then g.identity else g.add(Times(g, s[0].base, s[0].exponent), SumTerms(g, s[1..]))
  }

  ghost function Exponents<T>(s: seq<Term<T>>): (r: nat) {
    if s == [] then 0 else s[0].exponent + Exponents(s[1..])
  }

  lemma {:induction false} SumSplit<T(!new)>(g: Group<T>, a: seq<Term<T>>, b: seq<Term<T>>)
    requires IsMonoid(g)
    ensures SumTerms(g, a + b) == g.add(SumTerms(g, a), SumTerms(g, b))
    ensures Exponents(a + b) == Exponents(a) + Exponents(b)
  {
    if a == [] {
      assert a + b == b;
    } else {
      SumSplit(g, a[1..], b);
      assert (a + b)[1..] == a[1..] + b;
      assert Associates(g, Times(g, a[0].base, a[0].exponent), SumTerms(g, a[1..]), SumTerms(g, b));
    }
  }

  lemma {:induction false} SumOne<T(!new)>(g: Group<T>, t: Term<T>)
    requires IsMonoid(g)
    ensures SumTerms(g, [t]) == Times(g, t.base, t.exponent) && Exponents([t]) == t.exponent
  {
    assert [t][1..] == [];
  }

  /** Removing a term anywhere takes its multiple out of the sum. */
  lemma {:induction false} SumRemove<T(!new)>(g: Group<T>, s: seq<Term<T>>, k: nat)
    requires IsMonoid(g) && IsCommutative(g) && k < |s|
    ensures SumTerms(g, s) == g.add(Times(g, s[k].base, s[k].exponent), SumTerms(g, s[..k] + s[k + 1..]))
    ensures Exponents(s) == s[k].exponent + Exponents(s[..k] + s[k + 1..])
  {
    hide IsMonoid, IsCommutative, Times;
    var a, t, b := s[..k], s[k], s[k + 1..];
    assert s == a + ([t] + b);
    SumSplit(g, a, [t] + b);
    SumSplit(g, [t], b);
    SumSplit(g, a, b);
    SumOne(g, t);
    MoveFront(g, SumTerms(g, a), Times(g, t.base, t.exponent), SumTerms(g, b));
  }

  lemma {:induction false} MoveFront<T(!new)>(g: Group<T>, a: T, t: T, b: T)
    requires IsMonoid(g) && IsCommutative(g)
    ensures g.add(a, g.add(t, b)) == g.add(t, g.add(a, b))
  {
    assert Associates(g, a, t, b) && Commutes(g, a, t) && Associates(g, t, a, b);
  }

  lemma {:induction false} TakeOut<T>(s: seq<T>, k: nat)
    requires k < |s|
    ensures multiset(s[..k] + s[k + 1..]) == multiset(s) - multiset{s[k]}
  {
    assert s == s[..k] + [s[k]] + s[k + 1..];
  }

  /** The first element's place in a permutation; without it, the rest is a permutation of the rest. */
  lemma {:induction false} Partner<T>(s: seq<T>, s': seq<T>) returns (k: nat)
    requires multiset(s) == multiset(s') && s != []
    ensures k < |s'| && s'[k] == s[0] && multiset(s[..0] + s[1..]) == multiset(s'[..k] + s'[k + 1..])
  {
    assert s[0] in multiset(s');
    k :| 0 <= k < |s'| && s'[k] == s[0];
    TakeOut(s', k);
    TakeOut(s, 0);
  }

  /** The sum does not depend on the order of the terms. */
  lemma {:induction false} SumPermutes<T(!new)>(g: Group<T>, s: seq<Term<T>>, s': seq<Term<T>>)
    requires IsMonoid(g) && IsCommutative(g) && multiset(s) == multiset(s')
    ensures SumTerms(g, s) == SumTerms(g, s') && Exponents(s) == Exponents(s')
    decreases |s|
  {
    hide IsMonoid, IsCommutative, Times, SumTerms, Exponents;
    if s == [] {
      assert |s'| == |multiset(s')| == 0;
    } else {
      var k := Partner(s, s');
      SumPermutes(g, s[..0] + s[1..], s'[..k] + s'[k + 1..]);
      SumRemove(g, s, 0);
      SumRemove(g, s', k);
    }
  }

  lemma {:induction false} TimesDistributes<T(!new)>(g: Group<T>, x: T, y: T, n: nat)
    requires IsMonoid(g) && IsCommutative(g)
    ensures Times(g, g.add(x, y), n) == g.add(Times(g, x, n), Times(g, y, n))
  {
    if n > 0 {
      TimesDistributes(g, x, y, n - 1);
      AddPairs(g, Times(g, x, n - 1), Times(g, y, n - 1), x, y);
    }
  }

  /** One division step on the two largest exponents leaves the sum unchanged. */
  lemma {:induction false} DivisionKeepsSum<T(!new)>(g: Group<T>, f: Term<T>, l: Term<T>, q: nat, r: nat, shift: T)
    requires IsMonoid(g) && IsCommutative(g)
    requires l.exponent == q * f.exponent + r && shift == Times(g, l.base, q)
    ensures g.add(Times(g, g.add(f.base, shift), f.exponent), Times(g, l.base, r))
            == g.add(Times(g, f.base, f.exponent), Times(g, l.base, l.exponent))
  {
    hide IsMonoid, IsCommutative, Times;
    TimesDistributes(g, f.base, shift, f.exponent);
    TimesTimes(g, l.base, q, f.exponent);
    TimesAdd(g, l.base, q * f.exponent, r);
    Regroup(g, Times(g, f.base, f.exponent), Times(g, l.base, q * f.exponent), Times(g, l.base, r));
  }

  lemma {:induction false} Regroup<T(!new)>(g: Group<T>, a: T, b: T, c: T)
    requires IsMonoid(g)
    ensures g.add(g.add(a, b), c) == g.add(a, g.add(b, c))
  {
    assert Associates(g, a, b, c);
  }

  /** The sum, with the first and the last term taken out. */
  lemma {:induction false} SumEnds<T(!new)>(g: Group<T>, s: seq<Term<T>>)
    requires IsMonoid(g) && IsCommutative(g) && |s| >= 2
    ensures var n := |s| - 1;
            SumTerms(g, s) == g.add(g.add(Times(g, s[0].base, s[0].exponent), Times(g, s[n].base, s[n].exponent)),
                                    SumTerms(g, s[1..n]))
    ensures var n := |s| - 1; Exponents(s) == s[0].exponent + s[n].exponent + Exponents(s[1..n])
  {
    hide IsMonoid, IsCommutative, Times;
    var n := |s| - 1;
    assert s[1..][..n - 1] + s[1..][n..] == s[1..n];
    SumRemove(g, s[1..], n - 1);
    Regroup(g, Times(g, s[0].base, s[0].exponent), Times(g, s[n].base, s[n].exponent), SumTerms(g, s[1..n]));
  }

  lemma {:induction false} ZeroTerms<T(!new)>(g: Group<T>, s: seq<Term<T>>)
    requires IsMonoid(g) && forall k :: 0 <= k < |s| ==> s[k].exponent == 0
    ensures SumTerms(g, s) == g.identity
  {
    if s != [] {
      ZeroTerms(g, s[1..]);
    }
  }

  /** The heap invariant of the main loop: the last exponent is the largest, the first the next largest. */
  ghost predicate Ordered<T>(s: seq<Term<T>>) {
    && |s| >= 2 && IsHeap(s, |s| - 1)
    && forall k :: 0 <= k < |s| ==> s[|s| - 1].exponent >= s[k].exponent
  }

  method PopLargest<T(!new)>(g: Group<T>, s: seq<Term<T>>) returns (r: seq<Term<T>>)
    requires IsMonoid(g) && IsCommutative(g) && |s| >= 2 && IsHeap(s, |s|)
    ensures Ordered(r) && |r| == |s| && SumTerms(g, r) == SumTerms(g, s) && Exponents(r) == Exponents(s)
  {
    hide IsMonoid, IsCommutative, Exponents, SumTerms;
    r := PopHeap(s);
    SumPermutes(g, r, s);
    forall k | 0 <= k < |r| ensures r[|r| - 1].exponent >= r[k].exponent {
      assert r[k] in multiset(s);
      var j :| 0 <= j < |s| && s[j] == r[k];
      RootIsLargest(s, |s|, j);
    }
  }

  /** One turn of the loop: divide the largest exponent by the next largest. */
  method DivideStep<T(!new)>(g: Group<T>, s: seq<Term<T>>) returns (r: seq<Term<T>>)
    requires IsScalable(g) && IsCommutative(g) && Ordered(s) && s[0].exponent > 0
    ensures Ordered(r) && |r| == |s| && SumTerms(g, r) == SumTerms(g, s) && Exponents(r) < Exponents(s)
  {
    hide IsMonoid, IsCommutative, HasInverses, Times, SumTerms, Exponents;
    var n := |s| - 1;
    var t, b := s[n].exponent, s[0].exponent;
    var q, rem := t / b, t % b;
    assert t == q * b + rem;
    QuotientPositive(t, b);
    var shift;
    if q == 1 {
      shift := s[n].base;
      OneTimes(g, shift);
    } else {
      shift := ScalarMultiplication.ScalarMultiply(g, s[n].base, q);
    }
    DivisionKeepsSum(g, s[0], s[n], q, rem, shift);
    r := s[n := s[n].(exponent := rem)][0 := s[0].(base := g.add(s[0].base, shift))];
    assert r[1..n] == s[1..n];
    SumEnds(g, s);
    SumEnds(g, r);
    SameExponentsSameHeap(s, r, n);
    var s1 := PushHeap(r);
    SumPermutes(g, s1, r);
    r := PopLargest(g, s1);
  }

  lemma {:induction false} OneTimes<T(!new)>(g: Group<T>, x: T)
    requires IsMonoid(g)
    ensures x == Times(g, x, 1)
  {
    TimesOne(g, x);
  }

  lemma {:induction false} QuotientPositive(t: nat, b: nat)
    requires t >= b > 0
    ensures t / b >= 1 && t % b < t
  {
    assert t == (t / b) * b + t % b;
    if t / b == 0 {
      assert false;
    }
  }

  method GeneralCascadeMultiplication<T(!new)>(g: Group<T>, terms: seq<Term<T>>) returns (result: T)
    requires IsScalable(g) && IsCommutative(g) && |terms| >= 1
    ensures result == SumTerms(g, terms)
  {
    hide IsMonoid, IsCommutative, HasInverses, Times, SumTerms, Exponents;
    if |terms| == 1 {
      result := ScalarMultiplication.ScalarMultiply(g, terms[0].base, terms[0].exponent);
      SumOne(g, terms[0]);
      assert terms == [terms[0]];
    } else if |terms| == 2 {
      result := Cascade.CascadeScalarMultiply(g, terms[0].base, terms[0].exponent, terms[1].base, terms[1].exponent);
      assert terms == [terms[0]] + [terms[1]];
      SumSplit(g, [terms[0]], [terms[1]]);
      SumOne(g, terms[0]);
      SumOne(g, terms[1]);
    } else {
      var s := MakeHeap(terms);
      SumPermutes(g, s, terms);
      s := PopLargest(g, s);
      while s[0].exponent != 0
        invariant Ordered(s) && SumTerms(g, s) == SumTerms(g, terms)
        decreases Exponents(s)
      {
        s := DivideStep(g, s);
      }
      var n := |s| - 1;
      result := ScalarMultiplication.ScalarMultiply(g, s[n].base, s[n].exponent);
      OnlyLastLeft(g, s);
    }
  }

  /** When the next largest exponent is zero, the last term is the whole sum. */
  lemma {:induction false} OnlyLastLeft<T(!new)>(g: Group<T>, s: seq<Term<T>>)
    requires IsMonoid(g) && Ordered(s) && s[0].exponent == 0
    ensures var l := s[|s| - 1]; SumTerms(g, s) == Times(g, l.base, l.exponent)
  {
    hide IsHeap, Times, Exponents;
    var n := |s| - 1;
    forall k | 0 <= k < n ensures s[..n][k].exponent == 0 {
      RootIsLargest(s, n, k);
    }
    ZeroTerms(g, s[..n]);
    assert s == s[..n] + [s[n]];
    SumSplit(g, s[..n], [s[n]]);
    SumOne(g, s[n]);
  }
}
