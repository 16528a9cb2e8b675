/**
 The standard library's heap calls on a range of base-exponent pairs, ordered by exponent.
 Callers rely on the contracts only: a rearrangement, the heap shape, and where the maximum goes.
 */
module StdHeap {

  datatype Term<T> = Term(base: T, exponent: nat)

  ghost predicate BelowParent<T>(s: seq<Term<T>>, k: nat)
    requires 1 <= k < |s|
  {
    s[(k - 1) / 2].exponent >= s[k].exponent
  }

  ghost predicate IsHeap<T>(s: seq<Term<T>>, n: nat) {
    n <= |s| && forall k :: 1 <= k < n ==> BelowParent(s, k)
  }

  ghost predicate Descending<T>(s: seq<Term<T>>) {
    forall j, k :: 0 <= j < k < |s| ==> s[j].exponent >= s[k].exponent
  }

  /** The root of a heap is a largest element. */
  lemma {:induction false} RootIsLargest<T>(s: seq<Term<T>>, n: nat, k: nat)
    requires IsHeap(s, n) && k < n
    ensures s[0].exponent >= s[k].exponent
  {
    if k > 0 {
      assert BelowParent(s, k);
      RootIsLargest(s, n, (k - 1) / 2);
    }
  }

  /** The heap shape depends on the exponents inside it only. */
  lemma {:induction false} SameExponentsSameHeap<T>(s: seq<Term<T>>, s': seq<Term<T>>, n: nat)
    requires IsHeap(s, n) && |s'| == |s|
    requires forall k :: 0 <= k < n ==> s'[k].exponent == s[k].exponent
    ensures IsHeap(s', n)
  {
    forall k | 1 <= k < n ensures BelowParent(s', k) {
      assert BelowParent(s, k);
    }
  }

  method Insert<T>(t: Term<T>, s: seq<Term<T>>) returns (r: seq<Term<T>>)
    requires Descending(s)
    ensures Descending(r) && multiset(r) == multiset(s) + multiset{t} && |r| == |s| + 1
  {
    hide Descending;
    var k := 0;
    while k < |s| && s[k].exponent >= t.exponent
      invariant 0 <= k <= |s| && (k > 0 ==> s[k - 1].exponent >= t.exponent)
    {
      k := k + 1;
    }
    r := s[..k] + [t] + s[k..];
    InsertedDescending(s, k, t);
    assert s == s[..k] + s[k..];
  }

  lemma {:induction false} InsertedDescending<T>(s: seq<Term<T>>, k: nat, t: Term<T>)
    requires Descending(s) && k <= |s| && (k > 0 ==> s[k - 1].exponent >= t.exponent)
             && (k < |s| ==> t.exponent >= s[k].exponent)
    ensures Descending(s[..k] + [t] + s[k..])
  {
    var r := s[..k] + [t] + s[k..];
    forall i, j | 0 <= i < j < |r| ensures r[i].exponent >= r[j].exponent {
      assert k > 0 && i < k ==> s[i].exponent >= s[k - 1].exponent;
      assert k < j ==> s[k].exponent >= s[j - 1].exponent;
    }
  }

  method Arrange<T>(s: seq<Term<T>>) returns (r: seq<Term<T>>)
    ensures Descending(r) && multiset(r) == multiset(s) && |r| == |s|
  {
    r := [];
    var k := 0;
    while k < |s|
      invariant 0 <= k <= |s| && |r| == k
      invariant Descending(r) && multiset(r) == multiset(s[..k])
    {
      r := Insert(s[k], r);
      assert s[..k + 1] == s[..k] + [s[k]];
      k := k + 1;
    }
    assert s[..k] == s;
  }

  method MakeHeap<T>(s: seq<Term<T>>) returns (r: seq<Term<T>>)
    ensures multiset(r) == multiset(s) && |r| == |s|
    ensures IsHeap(r, |r|)
  {
    r := Arrange(s);
  }

  /** The maximum moves to the end; the rest stays a heap. */
  method PopHeap<T>(s: seq<Term<T>>) returns (r: seq<Term<T>>)
    requires |s| >= 1 && IsHeap(s, |s|)
    ensures multiset(r) == multiset(s) && |r| == |s|
    ensures IsHeap(r, |r| - 1) && r[|r| - 1] == s[0]
  {
    var rest := Arrange(s[1..]);
    r := rest + [s[0]];
    assert s == [s[0]] + s[1..];
  }

  /** The last element joins the heap before it. */
  method PushHeap<T>(s: seq<Term<T>>) returns (r: seq<Term<T>>)
    requires |s| >= 1 && IsHeap(s, |s| - 1)
    ensures multiset(r) == multiset(s) && |r| == |s|
    ensures IsHeap(r, |r|)
  {
    r := Arrange(s);
  }
}
