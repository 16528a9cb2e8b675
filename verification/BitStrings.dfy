/** Numbers as bit strings, most significant bit first: what shifting, masking and or-ing do to the bits. */
module BitStrings {
  import opened Numbers

  /** The low `n` bits of `v`. */
  ghost function ToBits(v: nat, n: nat): (s: seq<bool>)
    ensures |s| == n
  {
    if n == 0 then [] else ToBits(v / 2, n - 1) + [v % 2 == 1]
  }

  ghost function FromBits(s: seq<bool>): (v: nat) {
    if s == [] then 0 else 2 * FromBits(s[..|s| - 1]) + (if s[|s| - 1] then 1 else 0)
  }

  ghost function Falses(n: nat): (s: seq<bool>)
    ensures |s| == n
  {
    seq(n, i => false)
  }

  /** Bitwise or. */
  function Or(a: nat, b: nat): (r: nat) {
    if a == 0 && b == 0 then 0 else (if a % 2 == 1 || b % 2 == 1 then 1 else 0) + 2 * Or(a / 2, b / 2)
  }

  lemma {:induction false} FromToBits(s: seq<bool>)
    ensures ToBits(FromBits(s), |s|) == s && FromBits(s) < Shl(1, |s|)
  {
    if s != [] {
      var n := |s| - 1;
      FromToBits(s[..n]);
      assert s == s[..n] + [s[n]];
    }
  }

  lemma {:induction false} ToFromBits(v: nat, n: nat)
    requires v < Shl(1, n)
    ensures FromBits(ToBits(v, n)) == v
    decreases n
  {
    if n > 0 {
      ToFromBits(v / 2, n - 1);
      assert ToBits(v, n)[..n - 1] == ToBits(v / 2, n - 1);
    }
  }

  lemma {:induction false} ToBitsZero(n: nat)
    ensures ToBits(0, n) == Falses(n)
  {
    if n > 0 {
      ToBitsZero(n - 1);
    }
  }

  /** A right shift drops bits at the end. */
  lemma {:induction false} ToBitsShr(v: nat, k: nat, n: nat)
    requires k <= n
    ensures ToBits(Shr(v, k), n - k) == ToBits(v, n)[..n - k]
  {
    if k == 0 {
      assert ToBits(v, n)[..n] == ToBits(v, n);
    } else {
      ToBitsShr(v, k - 1, n);
      var w := Shr(v, k - 1);
      assert ToBits(w, n - k + 1)[..n - k] == ToBits(w / 2, n - k);
    }
  }

  /** A left shift adds zeros at the end. */
  lemma {:induction false} ToBitsShl(v: nat, k: nat, n: nat)
    requires k <= n
    ensures ToBits(Shl(v, k), n) == ToBits(v, n - k) + Falses(k)
  {
    if k == 0 {
      assert ToBits(v, n) + Falses(0) == ToBits(v, n);
    } else {
      ToBitsShl(v, k - 1, n - 1);
      assert Shl(v, k) / 2 == Shl(v, k - 1);
      assert ToBits(v, n - k) + Falses(k - 1) + [false] == ToBits(v, n - k) + Falses(k);
    }
  }

  /** Keeping fewer bits drops bits at the front. */
  lemma {:induction false} ToBitsSuffix(v: nat, k: nat, n: nat)
    requires k <= n
    ensures ToBits(v, n)[k..] == ToBits(v, n - k)
    decreases n
  {
    if k < n {
      ToBitsSuffix(v / 2, k, n - 1);
      assert ToBits(v, n)[k..] == ToBits(v / 2, n - 1)[k..] + [v % 2 == 1];
    }
  }

  lemma {:induction false} ToBitsAbove(v: nat, q: nat, n: nat)
    ensures ToBits(v + Shl(q, n), n) == ToBits(v, n)
    decreases n
  {
    if n > 0 {
      assert (v + Shl(q, n)) / 2 == v / 2 + Shl(q, n - 1) && (v + Shl(q, n)) % 2 == v % 2;
      ToBitsAbove(v / 2, q, n - 1);
    }
  }

  /** Masking to a byte. */
  lemma {:induction false} ToBitsByte(v: nat)
    ensures ToBits(v % 256, 8) == ToBits(v, 8)
  {
    ToBitsAbove(v % 256, v / 256, 8);
    ShlIsTimes(v / 256, 8);
    assert Shl(1, 8) == 256;
  }

  /** A small number has zeros in front. */
  lemma {:induction false} ToBitsSmall(v: nat, k: nat, n: nat)
    requires k <= n && v < Shl(1, k)
    ensures ToBits(v, n) == Falses(n - k) + ToBits(v, k)
    decreases n
  {
    if k == 0 {
      ToBitsZero(n);
      assert Falses(n) + [] == Falses(n);
    } else {
      ToBitsSmall(v / 2, k - 1, n - 1);
      assert Falses(n - k) + ToBits(v / 2, k - 1) + [v % 2 == 1] == Falses(n - k) + ToBits(v, k);
    }
  }

  lemma {:induction false} ToBitsOr(a: nat, b: nat, n: nat, i: nat)
    requires i < n
    ensures ToBits(Or(a, b), n)[i] == (ToBits(a, n)[i] || ToBits(b, n)[i])
    decreases n
  {
    OrParts(a, b);
    if i < n - 1 {
      ToBitsOr(a / 2, b / 2, n - 1, i);
    }
  }

  lemma {:induction false} OrParts(a: nat, b: nat)
    ensures Or(a, b) % 2 == (if a % 2 == 1 || b % 2 == 1 then 1 else 0) && Or(a, b) / 2 == Or(a / 2, b / 2)
  {
    if a > 0 || b > 0 {
      BitAndRest(if a % 2 == 1 || b % 2 == 1 then 1 else 0, Or(a / 2, b / 2));
    }
  }

  lemma {:induction false} OrBound(a: nat, b: nat, k: nat)
    requires a < Shl(1, k) && b < Shl(1, k)
    ensures Or(a, b) < Shl(1, k)
    decreases k
  {
    OrParts(a, b);
    if k > 0 {
      OrBound(a / 2, b / 2, k - 1);
    }
  }

  /** Or-ing bits into the free low end of a digit appends them. */
  lemma {:induction false} OrAppends(x: nat, y: nat, head: seq<bool>, k: nat, n: nat)
    requires |head| + k == n && ToBits(x, n) == head + Falses(k) && y < Shl(1, k)
    ensures ToBits(Or(x, y), n) == head + ToBits(y, k)
  {
    ToBitsSmall(y, k, n);
    forall i: nat | i < n ensures ToBits(Or(x, y), n)[i] == (head + ToBits(y, k))[i] {
      ToBitsOr(x, y, n, i);
    }
  }

  /** The digits as one bit string, `b` bits each. */
  ghost function Unpack(digits: seq<nat>, b: nat): (s: seq<bool>) {
    if digits == [] then [] else Unpack(digits[..|digits| - 1], b) + ToBits(digits[|digits| - 1], b)
  }

  lemma {:induction false} UnpackLength(digits: seq<nat>, b: nat)
    ensures |Unpack(digits, b)| == |digits| * b
  {
    if digits != [] {
      UnpackLength(digits[..|digits| - 1], b);
      assert |digits| * b == (|digits| - 1) * b + b;
    }
  }

  lemma {:induction false} UnpackSplit(a: seq<nat>, c: seq<nat>, b: nat)
    ensures Unpack(a + c, b) == Unpack(a, b) + Unpack(c, b)
  {
    if c == [] {
      assert a + c == a;
    } else {
      var n := |c| - 1;
      UnpackSplit(a, c[..n], b);
      assert (a + c)[..|a + c| - 1] == a + c[..n];
    }
  }

  lemma {:induction false} UnpackLast(digits: seq<nat>, b: nat)
    requires digits != []
    ensures Unpack(digits, b) == Unpack(digits[..|digits| - 1], b) + ToBits(digits[|digits| - 1], b)
  {
  }

  lemma {:induction false} UnpackNone(b: nat)
    ensures Unpack([], b) == []
  {
  }

  lemma {:induction false} UnpackOne(d: nat, b: nat)
    ensures Unpack([d], b) == ToBits(d, b)
  {
    assert [d][..0] == [];
  }

  ghost predicate AllBelow(digits: seq<nat>, bound: int) {
    forall i :: 0 <= i < |digits| ==> digits[i] < bound
  }

  /** Digits are determined by their bits. */
  lemma {:induction false} UnpackInjective(a: seq<nat>, c: seq<nat>, b: nat)
    requires b >= 1 && AllBelow(a, Shl(1, b)) && AllBelow(c, Shl(1, b)) && Unpack(a, b) == Unpack(c, b)
    ensures a == c
  {
    hide Unpack, ToBits, FromBits, Shl;
    UnpackLength(a, b);
    UnpackLength(c, b);
    if a == [] {
      if c != [] {
        MulAtLeast(|c|, b);
        assert false;
      }
    } else if c == [] {
      MulAtLeast(|a|, b);
      assert false;
    } else {
      var n, k := |a| - 1, |c| - 1;
      var s := Unpack(a, b);
      UnpackLast(a, b);
      UnpackLast(c, b);
      ToFromBits(a[n], b);
      ToFromBits(c[k], b);
      assert s[..|s| - b] == Unpack(a[..n], b) == Unpack(c[..k], b);
      assert s[|s| - b..] == ToBits(a[n], b) == ToBits(c[k], b);
      UnpackInjective(a[..n], c[..k], b);
      assert a == a[..n] + [a[n]] && c == c[..k] + [c[k]];
    }
  }
}
