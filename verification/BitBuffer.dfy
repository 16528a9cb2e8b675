/** A buffer of digits being filled with bits from the top, as both directions of the base-N codec use it. */
module BitBuffer {
  import opened Numbers
  import opened BitStrings

  /** A buffer holds exactly the bits `r`: whole digits, then a digit filled from the top, then zeros. */
  ghost predicate Holds(buf: seq<nat>, b: nat, bytePos: nat, bitPos: nat, r: seq<bool>) {
    && bytePos <= |buf| && bitPos < b && bitPos <= |r|
    && AllBelow(buf[..bytePos], Shl(1, b))
    && r == Unpack(buf[..bytePos], b) + r[|r| - bitPos..]
    && (bytePos < |buf| ==> buf[bytePos] < Shl(1, b) && ToBits(buf[bytePos], b) == r[|r| - bitPos..] + Falses(b - bitPos))
    && (forall i :: bytePos < i < |buf| ==> buf[i] == 0)
    && (bytePos == |buf| ==> bitPos == 0)
  }

  lemma {:induction false} HoldsNothing(buf: seq<nat>, b: nat)
    requires b >= 1 && |buf| >= 1 && forall i :: 0 <= i < |buf| ==> buf[i] == 0
    ensures Holds(buf, b, 0, 0, [])
  {
    hide Shl;
    assert buf[..0] == [];
    UnpackNone(b);
    ToBitsZero(b);
    ShlPositive(b);
    assert [] + Falses(b) == Falses(b);
  }

  lemma {:induction false} ShlPositive(k: nat)
    ensures Shl(1, k) >= 1
  {
  }

  lemma {:induction false} HoldsLength(buf: seq<nat>, b: nat, bytePos: nat, bitPos: nat, r: seq<bool>)
    requires Holds(buf, b, bytePos, bitPos, r)
    ensures |r| == bytePos * b + bitPos
  {
    hide Unpack;
    UnpackLength(buf[..bytePos], b);
  }

  lemma {:induction false} RoomLeft(buf: seq<nat>, b: nat, bytePos: nat, bitPos: nat, r: seq<bool>)
    requires Holds(buf, b, bytePos, bitPos, r) && |r| < |buf| * b
    ensures bytePos < |buf|
  {
    HoldsLength(buf, b, bytePos, bitPos, r);
  }

  /** The current digit is completed by `u`. */
  lemma {:induction false} DigitFilled(buf: seq<nat>, b: nat, bytePos: nat, bitPos: nat, r: seq<bool>, d: nat,
                                       u: seq<bool>)
    requires Holds(buf, b, bytePos, bitPos, r) && bytePos < |buf| && |u| == b - bitPos && d < Shl(1, b)
    requires ToBits(d, b) == r[|r| - bitPos..] + u
    ensures Holds(buf[bytePos := d], b, bytePos + 1, 0, r + u)
  {
    hide Unpack, ToBits, Shl;
    var buf' := buf[bytePos := d];
    assert buf'[..bytePos + 1] == buf[..bytePos] + [d];
    UnpackSplit(buf[..bytePos], [d], b);
    UnpackOne(d, b);
    var part := r[|r| - bitPos..];
    assert r + u == Unpack(buf[..bytePos], b) + (part + u);
    assert (r + u)[|r + u|..] == [];
    ToBitsZero(b);
    ShlPositive(b);
    assert [] + Falses(b) == Falses(b);
  }

  /** The current digit gains `u` but stays incomplete. */
  lemma {:induction false} DigitExtended(buf: seq<nat>, b: nat, bytePos: nat, bitPos: nat, r: seq<bool>, d: nat,
                                         u: seq<bool>)
    requires Holds(buf, b, bytePos, bitPos, r) && bytePos < |buf| && bitPos + |u| < b && d < Shl(1, b)
    requires ToBits(d, b) == r[|r| - bitPos..] + u + Falses(b - bitPos - |u|)
    ensures Holds(buf[bytePos := d], b, bytePos, bitPos + |u|, r + u)
  {
    hide Unpack, ToBits, Shl;
    var buf' := buf[bytePos := d];
    assert buf'[..bytePos] == buf[..bytePos];
    var part := r[|r| - bitPos..];
    assert (r + u)[|r + u| - (bitPos + |u|)..] == part + u;
  }

  lemma {:induction false} HoldsFacts(buf: seq<nat>, b: nat, bytePos: nat, bitPos: nat, r: seq<bool>)
    requires Holds(buf, b, bytePos, bitPos, r) && bytePos < |buf|
    ensures bitPos < b && bitPos <= |r| && buf[bytePos] < Shl(1, b)
    ensures ToBits(buf[bytePos], b) == r[|r| - bitPos..] + Falses(b - bitPos)
  {
  }
}
