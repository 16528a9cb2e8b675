/** The table of small two-base combinations behind `AbstractGroup::CascadeScalarMultiply`. */
module CascadeTable {
  import opened Numbers
  import opened Groups
  import opened Options


  /** The table slot of `a * x + b * y`; `None` marks a slot that was never written. */
  function Slot(w: nat, a: nat, b: nat): (r: nat) {
    Shl(b, w) + a
  }

  ghost predicate InRange(w: nat, a: nat, b: nat) {
    a < Shl(1, w) && b < Shl(1, w)
  }

  ghost predicate Filled<T(!new)>(g: Group<T>, x: T, y: T, w: nat, table: seq<Option<T>>, a: nat, b: nat) {
    && |table| == Shl(Shl(1, w), w)
    && Slot(w, a, b) < |table|
    && table[Slot(w, a, b)] == Some(Combine(g, x, y, a, b))
  }

  /** Nothing that was filled is lost. */
  ghost predicate Keeps<T(!new)>(g: Group<T>, x: T, y: T, w: nat, t: seq<Option<T>>, t': seq<Option<T>>) {
    && |t'| == |t| == Shl(Shl(1, w), w)
    && forall a: nat, b: nat :: InRange(w, a, b) && Filled(g, x, y, w, t, a, b) ==> Filled(g, x, y, w, t', a, b)
  }

  lemma {:induction false} SlotBound(w: nat, a: nat, b: nat)
    requires InRange(w, a, b)
    ensures Slot(w, a, b) < Shl(Shl(1, w), w)
  {
    hide Shl;
    ShlAdd(b, 1, w);
    ShlMonotone(b + 1, Shl(1, w), w);
  }

  lemma {:induction false} SlotInjective(w: nat, a: nat, b: nat, a': nat, b': nat)
    requires InRange(w, a, b) && InRange(w, a', b') && Slot(w, a, b) == Slot(w, a', b')
    ensures a == a' && b == b'
  {
    hide Shl, Shr;
    ShrBelow(a, 1, w);
    ShrBelow(a', 1, w);
    ShrAdd(a, b, w);
    ShrAdd(a', b', w);
  }

  lemma {:induction false} FillKeeps<T(!new)>(g: Group<T>, x: T, y: T, w: nat, t: seq<Option<T>>, a: nat, b: nat)
    requires |t| == Shl(Shl(1, w), w) && InRange(w, a, b)
    ensures Slot(w, a, b) < |t|
    ensures var t' := t[Slot(w, a, b) := Some(Combine(g, x, y, a, b))];
            Filled(g, x, y, w, t', a, b) && Keeps(g, x, y, w, t, t')
  {
    hide Shl, Combine;
    SlotBound(w, a, b);
    var t' := t[Slot(w, a, b) := Some(Combine(g, x, y, a, b))];
    forall a': nat, b': nat | InRange(w, a', b') && Filled(g, x, y, w, t, a', b')
      ensures Filled(g, x, y, w, t', a', b')
    {
      SlotBound(w, a', b');
      if Slot(w, a, b) == Slot(w, a', b') {
        SlotInjective(w, a, b, a', b');
      }
    }
  }

  lemma {:induction false} UnitCombinations<T(!new)>(g: Group<T>, x: T, y: T)
    requires IsMonoid(g)
    ensures Combine(g, x, y, 1, 0) == x && Combine(g, x, y, 0, 1) == y
    ensures Combine(g, x, y, 2, 0) == g.Double(x) && Combine(g, x, y, 0, 2) == g.Double(y)
  {
    TimesOne(g, x);
    TimesOne(g, y);
  }

  /** Slots in the column of `0 * y`, odd multiples of `x`. */
  method FillOddX<T(!new)>(g: Group<T>, x: T, y: T, w: nat, tableIn: seq<Option<T>>) returns (table: seq<Option<T>>)
    requires IsMonoid(g) && IsCommutative(g) && w >= 2
    requires Filled(g, x, y, w, tableIn, 1, 0) && Filled(g, x, y, w, tableIn, 2, 0)
    ensures Keeps(g, x, y, w, tableIn, table)
    ensures forall a: nat :: a < Shl(1, w) && a % 2 == 1 ==> Filled(g, x, y, w, table, a, 0)
  {
    hide Combine, IsMonoid, IsCommutative, Shl;
    table := tableIn;
    ZeroRow(w);
    var i := 3;
    while i < Shl(1, w)
      invariant i % 2 == 1 && i >= 3
      invariant Keeps(g, x, y, w, tableIn, table)
      invariant forall a: nat :: a < i && a < Shl(1, w) && a % 2 == 1 ==> Filled(g, x, y, w, table, a, 0)
    {
      CombineAdd(g, x, y, i - 2, 0, 2, 0);
      FillKeeps(g, x, y, w, table, i, 0);
      assert Filled(g, x, y, w, table, i - 2, 0) && Filled(g, x, y, w, table, 2, 0);
      ghost var before := table;
      table := table[i := Some(g.add(table[i - 2].value, table[2].value))];
      assert Keeps(g, x, y, w, before, table);
      i := i + 2;
    }
  }

  lemma {:induction false} ZeroRow(w: nat)
    requires w >= 2
    ensures Shl(1, w) >= 4 && Shl(1, w) % 2 == 0 && InRange(w, 1, 0) && InRange(w, 2, 0) && InRange(w, 0, 1)
            && InRange(w, 0, 2)
    ensures forall a: nat :: Slot(w, a, 0) == a
    ensures Slot(w, 0, 1) == Shl(1, w) && Slot(w, 0, 2) == 2 * Shl(1, w)
  {
    ShlZero(w);
    ShlDouble(1, w);
    assert Shl(1, w) == 4 * Shl(1, w - 2);
  }

  lemma {:induction false} NextRow(w: nat, a: nat, b: nat)
    ensures Slot(w, a, b + 1) == Slot(w, a, b) + Shl(1, w)
    ensures InRange(w, a, 0) ==> (Slot(w, a, b) < Shl(Shl(1, w), w) <==> b < Shl(1, w))
  {
    hide Shl, Shr;
    ShlAdd(b, 1, w);
    ShrBelow(a, 1, w);
    ShrAdd(a, b, w);
    ShrBelow(Slot(w, a, b), Shl(1, w), w);
  }

  /** One column: `a * x + b * y` for every `b`, from its entry for `b == 0`. */
  method FillColumn<T(!new)>(g: Group<T>, x: T, y: T, w: nat, a: nat, tableIn: seq<Option<T>>)
      returns (table: seq<Option<T>>)
    requires IsMonoid(g) && IsCommutative(g) && w >= 2 && InRange(w, a, 0)
    requires Filled(g, x, y, w, tableIn, a, 0)
    ensures Keeps(g, x, y, w, tableIn, table)
    ensures forall b: nat :: b < Shl(1, w) ==> Filled(g, x, y, w, table, a, b)
  {
    hide Combine, IsMonoid, IsCommutative, Shl, Slot;
    table := tableIn;
    ZeroRow(w);
    UnitCombinations(g, x, y);
    var j := a + Shl(1, w);
    ghost var b := 1;
    NextRow(w, a, 0);
    while j < Shl(Shl(1, w), w)
      invariant b >= 1 && j == Slot(w, a, b)
      invariant Keeps(g, x, y, w, tableIn, table)
      invariant forall b': nat :: b' < b && b' < Shl(1, w) ==> Filled(g, x, y, w, table, a, b')
      decreases Shl(Shl(1, w), w) - j
    {
      NextRow(w, a, b - 1);
      NextRow(w, a, b);
      CombineAdd(g, x, y, a, b - 1, 0, 1);
      FillKeeps(g, x, y, w, table, a, b);
      assert Filled(g, x, y, w, table, a, b - 1);
      ghost var before := table;
      table := table[j := Some(g.add(table[j - Shl(1, w)].value, y))];
      assert Keeps(g, x, y, w, before, table);
      j, b := j + Shl(1, w), b + 1;
    }
    NextRow(w, a, b);
  }

  method FillOddColumns<T(!new)>(g: Group<T>, x: T, y: T, w: nat, tableIn: seq<Option<T>>)
      returns (table: seq<Option<T>>)
    requires IsMonoid(g) && IsCommutative(g) && w >= 2 && |tableIn| == Shl(Shl(1, w), w)
    requires forall a: nat :: a < Shl(1, w) && a % 2 == 1 ==> Filled(g, x, y, w, tableIn, a, 0)
    ensures Keeps(g, x, y, w, tableIn, table)
    ensures forall a: nat, b: nat :: InRange(w, a, b) && a % 2 == 1 ==> Filled(g, x, y, w, table, a, b)
  {
    hide Filled, IsMonoid, IsCommutative, Shl, Slot;
    table := tableIn;
    ZeroRow(w);
    var i := 1;
    while i < Shl(1, w)
      invariant i % 2 == 1
      invariant Keeps(g, x, y, w, tableIn, table)
      invariant forall a: nat, b: nat :: a < i && InRange(w, a, b) && a % 2 == 1 ==> Filled(g, x, y, w, table, a, b)
    {
      ghost var before := table;
      table := FillColumn(g, x, y, w, i, table);
      assert Keeps(g, x, y, w, before, table);
      i := i + 2;
    }
  }

  /** The odd multiples of `y` alone. */
  method FillOddY<T(!new)>(g: Group<T>, x: T, y: T, w: nat, tableIn: seq<Option<T>>) returns (table: seq<Option<T>>)
    requires IsMonoid(g) && IsCommutative(g) && w >= 2
    requires Filled(g, x, y, w, tableIn, 0, 1) && Filled(g, x, y, w, tableIn, 0, 2)
    ensures Keeps(g, x, y, w, tableIn, table)
    ensures forall b: nat :: b < Shl(1, w) && b % 2 == 1 ==> Filled(g, x, y, w, table, 0, b)
  {
    hide Combine, IsMonoid, IsCommutative, Shl, Slot;
    table := tableIn;
    ZeroRow(w);
    var i := 3 * Shl(1, w);
    ghost var b := 3;
    NextRow(w, 0, 2);
    while i < Shl(Shl(1, w), w)
      invariant b >= 3 && b % 2 == 1 && i == Slot(w, 0, b)
      invariant Keeps(g, x, y, w, tableIn, table)
      invariant forall b': nat :: b' < b && b' < Shl(1, w) && b' % 2 == 1 ==> Filled(g, x, y, w, table, 0, b')
      decreases Shl(Shl(1, w), w) - i
    {
      NextRow(w, 0, b - 2);
      NextRow(w, 0, b - 1);
      NextRow(w, 0, b);
      NextRow(w, 0, b + 1);
      CombineAdd(g, x, y, 0, b - 2, 0, 2);
      FillKeeps(g, x, y, w, table, 0, b);
      assert Filled(g, x, y, w, table, 0, b - 2) && Filled(g, x, y, w, table, 0, 2);
      ghost var before := table;
      table := table[i := Some(g.add(table[i - 2 * Shl(1, w)].value, table[2 * Shl(1, w)].value))];
      assert Keeps(g, x, y, w, before, table);
      i, b := i + 2 * Shl(1, w), b + 2;
    }
    NextRow(w, 0, b);
  }

  /** The even entries of an odd row, each from its odd neighbour. */
  method FillRow<T(!new)>(g: Group<T>, x: T, y: T, w: nat, i: nat, tableIn: seq<Option<T>>, ghost b: nat)
      returns (table: seq<Option<T>>)
    requires IsMonoid(g) && IsCommutative(g) && w >= 2 && b < Shl(1, w) && i == Slot(w, 0, b)
    requires Filled(g, x, y, w, tableIn, 0, b)
    requires forall a: nat :: a < Shl(1, w) && a % 2 == 1 ==> Filled(g, x, y, w, tableIn, a, b)
    ensures Keeps(g, x, y, w, tableIn, table)
    ensures forall a: nat :: a < Shl(1, w) ==> Filled(g, x, y, w, table, a, b)
  {
    hide Combine, IsMonoid, IsCommutative, Shl;
    table := tableIn;
    ZeroRow(w);
    UnitCombinations(g, x, y);
    var j := i + 2;
    while j < i + Shl(1, w)
      invariant j >= i + 2 && (j - i) % 2 == 0
      invariant Keeps(g, x, y, w, tableIn, table)
      invariant forall a: nat :: a < j - i && a < Shl(1, w) ==> Filled(g, x, y, w, table, a, b)
    {
      ghost var a := j - i;
      assert Filled(g, x, y, w, tableIn, a - 1, b);
      CombineAdd(g, x, y, a - 1, b, 1, 0);
      FillKeeps(g, x, y, w, table, a, b);
      ghost var before := table;
      table := table[j := Some(g.add(table[j - 1].value, x))];
      assert Keeps(g, x, y, w, before, table);
      assert InRange(w, a + 1, b) ==> Filled(g, x, y, w, tableIn, a + 1, b);
      j := j + 2;
    }
  }

  method FillOddRows<T(!new)>(g: Group<T>, x: T, y: T, w: nat, tableIn: seq<Option<T>>) returns (table: seq<Option<T>>)
    requires IsMonoid(g) && IsCommutative(g) && w >= 2 && |tableIn| == Shl(Shl(1, w), w)
    requires forall b: nat :: b < Shl(1, w) && b % 2 == 1 ==> Filled(g, x, y, w, tableIn, 0, b)
    requires forall a: nat, b: nat :: InRange(w, a, b) && a % 2 == 1 ==> Filled(g, x, y, w, tableIn, a, b)
    ensures Keeps(g, x, y, w, tableIn, table)
    ensures forall a: nat, b: nat :: InRange(w, a, b) && b % 2 == 1 ==> Filled(g, x, y, w, table, a, b)
  {
    hide Filled, IsMonoid, IsCommutative, Shl, Slot;
    table := tableIn;
    ZeroRow(w);
    var i := Shl(1, w);
    ghost var b := 1;
    while i < Shl(Shl(1, w), w)
      invariant b % 2 == 1 && i == Slot(w, 0, b)
      invariant Keeps(g, x, y, w, tableIn, table)
      invariant forall a: nat, b': nat :: b' < b && InRange(w, a, b') && b' % 2 == 1 ==> Filled(g, x, y, w, table, a, b')
      decreases Shl(Shl(1, w), w) - i
    {
      NextRow(w, 0, b);
      NextRow(w, 0, b + 1);
      ghost var before := table;
      assert forall a: nat :: a < Shl(1, w) && a % 2 == 1 ==> InRange(w, a, b) && Filled(g, x, y, w, tableIn, a, b);
      assert InRange(w, 0, b) && Filled(g, x, y, w, tableIn, 0, b);
      table := FillRow(g, x, y, w, i, table, b);
      assert Keeps(g, x, y, w, before, table);
      i, b := i + 2 * Shl(1, w), b + 2;
    }
    NextRow(w, 0, b);
  }

  /** The finished table: every combination with an odd coordinate. */
  ghost predicate Complete<T(!new)>(g: Group<T>, x: T, y: T, w: nat, table: seq<Option<T>>) {
    forall a: nat, b: nat :: InRange(w, a, b) && (a % 2 == 1 || b % 2 == 1) ==> Filled(g, x, y, w, table, a, b)
  }

  method BuildTable<T(!new)>(g: Group<T>, x: T, y: T, w: nat) returns (table: seq<Option<T>>)
    requires IsMonoid(g) && IsCommutative(g) && w >= 1
    ensures Complete(g, x, y, w, table)
  {
    hide Combine, IsMonoid, IsCommutative;
    UnitCombinations(g, x, y);
    if w == 1 {
      CombineAdd(g, x, y, 1, 0, 0, 1);
      table := [None, Some(x), Some(y), Some(g.add(x, y))];
    } else {
      table := Seed(g, x, y, w);
      var t1 := FillOddX(g, x, y, w, table);
      var t2 := FillOddColumns(g, x, y, w, t1);
      var t3 := FillOddY(g, x, y, w, t2);
      table := FillOddRows(g, x, y, w, t3);
    }
  }

  /** The four entries the other loops start from. */
  method Seed<T(!new)>(g: Group<T>, x: T, y: T, w: nat) returns (table: seq<Option<T>>)
    requires IsMonoid(g) && w >= 2
    ensures Filled(g, x, y, w, table, 1, 0) && Filled(g, x, y, w, table, 2, 0)
    ensures Filled(g, x, y, w, table, 0, 1) && Filled(g, x, y, w, table, 0, 2)
  {
    hide Combine, IsMonoid, Shl, Slot;
    UnitCombinations(g, x, y);
    ZeroRow(w);
    SlotBound(w, 0, 2);
    SlotBound(w, 0, 1);
    table := seq(Shl(Shl(1, w), w), i => None);
    table := table[1 := Some(x)];
    table := table[Shl(1, w) := Some(y)];
    table := table[2 := Some(g.Double(x))];
    table := table[2 * Shl(1, w) := Some(g.Double(y))];
  }
}
