/** Object identifiers of `asn.cpp`: arcs in base 128, all but the last octet marked. */
module ObjectIds {
  import opened Numbers
  import opened Bytes
  import opened AsnLengths

  const TWO_TO_THE_25: nat := 0x200_0000
  const TWO_TO_THE_32: nat := 0x1_0000_0000
  const OBJECT_IDENTIFIER: byte := 6

  /** Base-128 digits of a number above the last, each marked. */
  ghost function HighDigits(n: nat): (s: seq<byte>) {
    if n == 0 then [] else HighDigits(n / 128) + [128 + n % 128]
  }

  ghost function EncodedArc(v: nat): (s: seq<byte>)
    ensures s != []
  {
    HighDigits(v / 128) + [v % 128]
  }

  ghost function EncodedArcs(values: seq<nat>): (s: seq<byte>) {
    if values == [] then [] else EncodedArc(values[0]) + EncodedArcs(values[1..])
  }

  /** The contents octets; the first two arcs share one octet. */
  ghost function EncodedOid(values: seq<nat>): (s: seq<byte>)
    requires |values| >= 2
  {
    [(values[0] * 40 + values[1]) % 256] + EncodedArcs(values[2..])
  }

  datatype Arc = Arc(value: nat, rest: seq<byte>) | BadArc
  datatype Arcs = Arcs(values: seq<nat>, rest: seq<byte>) | BadArcs

  /** The decoding loop: an octet may only be added while 25 bits hold the value. */
  function DecodedArc(v: nat, s: seq<byte>): (r: Arc)
    ensures r.Arc? ==> r.value < TWO_TO_THE_32 && |r.rest| < |s|
    decreases |s|
  {
    if s == [] || v >= TWO_TO_THE_25 then BadArc
    else
      var w := 128 * v + s[0] % 128;
      if s[0] < 128 then Arc(w, s[1..]) else DecodedArc(w, s[1..])
  }

  /** Arcs that take exactly `length` octets. */
  function DecodedArcs(s: seq<byte>, length: nat): (r: Arcs)
    decreases length
  {
    if length == 0 then Arcs([], s)
    else match DecodedArc(0, s)
         case BadArc => BadArcs
         case Arc(v, rest) =>
           var used := |s| - |rest|;
           if used > length then BadArcs
           else match DecodedArcs(rest, length - used)
                case BadArcs => BadArcs
                case Arcs(vs, rest') => Arcs([v] + vs, rest')
  }

  function DecodedOid(s: seq<byte>): (r: Arcs) {
    if s == [] || s[0] != OBJECT_IDENTIFIER then BadArcs
    else
      var d := DecodeLength(s[1..]);
      if !d.form.Definite? || d.form.length < 1 || d.rest == [] then BadArcs
      else match DecodedArcs(d.rest[1..], d.form.length - 1)
           case BadArcs => BadArcs
           case Arcs(vs, rest) => Arcs([d.rest[0] / 40, d.rest[0] % 40] + vs, rest)
  }

  /** Reading the marked digits of `n` brings the decoder to `n`. */
  lemma {:induction false} HighDigitsDecode(n: nat, rest: seq<byte>)
    requires n < TWO_TO_THE_32
    ensures DecodedArc(0, HighDigits(n) + rest) == DecodedArc(n, rest)
  {
    if n == 0 {
      assert HighDigits(n) + rest == rest;
    } else {
      var b: byte := 128 + n % 128;
      HighDigitsDecode(n / 128, [b] + rest);
      assert HighDigits(n) + rest == HighDigits(n / 128) + ([b] + rest);
      assert ([b] + rest)[1..] == rest;
      assert b % 128 == n % 128 && 128 * (n / 128) + n % 128 == n;
    }
  }

  /** Every 32-bit arc decodes back. */
  lemma {:induction false} ArcRoundTrip(v: nat, rest: seq<byte>)
    requires v < TWO_TO_THE_32
    ensures DecodedArc(0, EncodedArc(v) + rest) == Arc(v, rest)
  {
    hide HighDigits;
    HighDigitsDecode(v / 128, [v % 128] + rest);
    assert EncodedArc(v) + rest == HighDigits(v / 128) + ([v % 128] + rest);
    assert ([v % 128] + rest)[1..] == rest;
  }

  lemma {:induction false} ArcsRoundTrip(values: seq<nat>, rest: seq<byte>)
    requires forall i :: 0 <= i < |values| ==> values[i] < TWO_TO_THE_32
    ensures DecodedArcs(EncodedArcs(values) + rest, |EncodedArcs(values)|) == Arcs(values, rest)
  {
    hide DecodedArc, EncodedArc;
    if values == [] {
      assert EncodedArcs(values) + rest == rest;
    } else {
      var tail := EncodedArcs(values[1..]);
      ArcRoundTrip(values[0], tail + rest);
      assert EncodedArcs(values) + rest == EncodedArc(values[0]) + (tail + rest);
      ArcsRoundTrip(values[1..], rest);
      assert [values[0]] + values[1..] == values;
    }
  }

  ghost function DerOid(values: seq<nat>): (s: seq<byte>)
    requires |values| >= 2
  {
    [OBJECT_IDENTIFIER] + DerLength(|EncodedOid(values)|) + EncodedOid(values)
  }

  /** Decoding always succeeds on an encoded identifier; the shared octet alone decides the first two arcs. */
  lemma {:induction false} OidDecodes(values: seq<nat>, rest: seq<byte>)
    requires |values| >= 2 && |EncodedOid(values)| < TWO_TO_THE_64
    requires forall i :: 0 <= i < |values| ==> values[i] < TWO_TO_THE_32
    ensures var b := (values[0] * 40 + values[1]) % 256;
            DecodedOid(DerOid(values) + rest) == Arcs([b / 40, b % 40] + values[2..], rest)
  {
    hide DecodeLength, DerLength, DecodedArcs, EncodedArcs;
    var s, body := DerOid(values) + rest, EncodedOid(values);
    LengthRoundTrip(|body|, body + rest);
    assert s[1..] == DerLength(|body|) + (body + rest);
    ArcsRoundTrip(values[2..], rest);
    assert (body + rest)[1..] == EncodedArcs(values[2..]) + rest;
  }

  /** An identifier decodes back exactly when its first two arcs share an octet without loss. */
  lemma {:induction false} OidRoundTrip(values: seq<nat>, rest: seq<byte>)
    requires |values| >= 2 && |EncodedOid(values)| < TWO_TO_THE_64
    requires forall i :: 0 <= i < |values| ==> values[i] < TWO_TO_THE_32
    ensures DecodedOid(DerOid(values) + rest) == Arcs(values, rest) <==> values[1] < 40 && values[0] * 40 + values[1] < 256
  {
    hide DecodedOid, DerOid, EncodedOid;
    OidDecodes(values, rest);
    var b := (values[0] * 40 + values[1]) % 256;
    SharedOctet(values[0], values[1]);
    var head := [b / 40, b % 40];
    if values[1] < 40 && values[0] * 40 + values[1] < 256 {
      assert values == head + values[2..];
    } else {
      assert (head + values[2..])[0] == b / 40 && (head + values[2..])[1] == b % 40;
    }
  }

  lemma {:induction false} TwoKnownArcs()
    ensures EncodedArc(840) == [0x86, 0x48] && EncodedArc(113549) == [0x86, 0xf7, 0x0d]
  {
    assert HighDigits(0) == [] && HighDigits(6) == [134];
    assert HighDigits(887) == HighDigits(6) + [247];
  }

  /** The identifier of RSA Data Security, 1.2.840.113549, as section 8.19 of X.690 encodes it. */
  lemma {:induction false} KnownIdentifier()
    ensures DerOid([1, 2, 840, 113549]) == [6, 6, 0x2a, 0x86, 0x48, 0x86, 0xf7, 0x0d]
  {
    hide EncodedArc;
    TwoKnownArcs();
    var a, b := [1, 2, 840, 113549][2..], [840, 113549][1..];
    assert a == [840, 113549] && b == [113549] && b[1..] == [];
    assert EncodedArcs([]) == [] && EncodedArcs(b) == [0x86, 0xf7, 0x0d];
    assert EncodedArcs(a) == [0x86, 0x48, 0x86, 0xf7, 0x0d];
    ShortLengths(6);
  }

  /** 2.48 comes back as 3.8, and 2.999 as 1.15. */
  lemma {:induction false} ArcsLost(rest: seq<byte>)
    ensures DecodedOid(DerOid([2, 48]) + rest) == Arcs([3, 8], rest)
    ensures DecodedOid(DerOid([2, 999]) + rest) == Arcs([1, 15], rest)
  {
    hide DecodedOid, DerOid;
    OidDecodes([2, 48], rest);
    OidDecodes([2, 999], rest);
    assert [3, 8] + [2, 48][2..] == [3, 8] && [1, 15] + [2, 999][2..] == [1, 15];
  }

  lemma {:induction false} SharedOctet(x: nat, y: nat)
    ensures var b := (x * 40 + y) % 256; b / 40 == x && b % 40 == y <==> y < 40 && x * 40 + y < 256
  {
    var b := (x * 40 + y) % 256;
    assert b == 40 * (b / 40) + b % 40;
  }

  /** `RoundUpToMultipleOf` for 7. */
  function RoundUp7(n: nat): (r: nat)
    ensures n <= r < n + 7 && r % 7 == 0
  {
    n + 6 - (n + 6) % 7
  }

  lemma {:induction false} LessSeven(n: nat)
    requires n >= 7 && n % 7 == 0
    ensures (n - 7) % 7 == 0
  {
  }

  /** The shift for the most significant digit. */
  function TopShift(v: nat): (r: nat)
    ensures r % 7 == 0
  {
    var n := if BitCount(v) < 7 then 7 else BitCount(v);
    var r := RoundUp7(n);
    LessSeven(r);
    r - 7
  }

  /** Nothing lies above the top digit, and only the last digit may be zero. */
  lemma {:induction false} TopDigit(v: nat, i: nat)
    requires i <= TopShift(v)
    ensures Shr(v, TopShift(v) + 7) == 0 && (i > 0 ==> Shr(v, i) > 0)
  {
    hide Shr, Shl, BitCount;
    var n := BitCount(v);
    ShlOneMonotone(n, TopShift(v) + 7);
    ShrBelow(v, 1, TopShift(v) + 7);
    if i > 0 {
      NonZero(v);
      ShlOneMonotone(i, n - 1);
      ShrBelow(v, 1, i);
    }
  }

  lemma {:induction false} NonZero(v: nat)
    requires BitCount(v) > 0
    ensures v > 0
  {
  }

  lemma {:induction false} Shr7(v: nat, i: nat)
    ensures Shr(v, i + 7) == Shr(v, i) / 128
  {
    assert Shr(v, i + 2) == Shr(v, i) / 4;
    assert Shr(v, i + 4) == Shr(v, i) / 16;
    assert Shr(v, i + 6) == Shr(v, i) / 64;
  }

  method EncodeValue(bt: ByteQueue, v: nat)
    requires v < TWO_TO_THE_32
    modifies bt
    ensures bt.data == old(bt.data) + EncodedArc(v)
  {
    hide Shr, BitCount;
    var i: nat := TopShift(v);
    TopDigit(v, i);
    while i != 0
      invariant i <= TopShift(v) && i % 7 == 0
      invariant bt.data == old(bt.data) + HighDigits(Shr(v, i + 7))
    {
      TopDigit(v, i);
      Shr7(v, i);
      bt.Put([0x80 + Shr(v, i) % 0x80]);
      i := i - 7;
    }
    Shr7(v, 0);
    ShrZero(v);
    bt.Put([v % 0x80]);
  }

  /** One arc; the exceptions of the source are `!ok`. */
  method DecodeValue(bt: ByteQueue) returns (ok: bool, i: nat, v: nat)
    modifies bt
    ensures ok <==> DecodedArc(0, old(bt.data)).Arc?
    ensures ok ==> DecodedArc(0, old(bt.data)) == Arc(v, bt.data) && i == |old(bt.data)| - |bt.data|
  {
    i, v := 0, 0;
    while true
      invariant DecodedArc(v, bt.data) == DecodedArc(0, old(bt.data)) && i == |old(bt.data)| - |bt.data|
      decreases |bt.data|
    {
      var got, b: nat := bt.Get();
      if !got {
        return false, i, v;
      }
      i := i + 1;
      if v >= TWO_TO_THE_25 {
        return false, i, v;
      }
      v := 128 * v + b % 128;
      if b < 0x80 {
        return true, i, v;
      }
    }
  }

  class OID {
    var values: seq<nat>

    constructor (values: seq<nat>)
      ensures this.values == values
    {
      this.values := values;
    }

    method DEREncode(bt: ByteQueue)
      requires |values| >= 2 && forall i :: 0 <= i < |values| ==> values[i] < TWO_TO_THE_32
      modifies bt
      ensures bt.data == old(bt.data) + DerOid(values)
    {
      hide EncodedArc, DerLength;
      var temp := new ByteQueue();
      temp.Put([(values[0] * 40 + values[1]) % 256]);
      var i := 2;
      while i < |values|
        invariant 2 <= i <= |values| && bt.data == old(bt.data)
        invariant temp.data == [(values[0] * 40 + values[1]) % 256] + EncodedArcs(values[2..i])
      {
        EncodeValue(temp, values[i]);
        ArcsAdded(values[2..i], values[i]);
        assert values[2..i] + [values[i]] == values[2..i + 1];
        i := i + 1;
      }
      assert values[2..i] == values[2..];
      bt.Put([OBJECT_IDENTIFIER]);
      var n := DERLengthEncode(bt, |temp.data|);
      bt.Put(temp.data);
    }

    method BERDecode(bt: ByteQueue) returns (ok: bool)
      modifies this, bt
      ensures ok <==> DecodedOid(old(bt.data)).Arcs?
      ensures ok ==> DecodedOid(old(bt.data)) == Arcs(values, bt.data)
    {
      hide DecodeLength, DecodedArc;
      var got, b: nat := bt.Get();
      if !got || b != OBJECT_IDENTIFIER {
        return false;
      }
      var form := BERLengthDecode(bt);
      if !form.Definite? || form.length < 1 {
        return false;
      }
      got, b := bt.Get();
      if !got {
        return false;
      }
      ok := DecodeRest(bt, b, form.length - 1);
    }

    /** The loop over the arcs after the first octet. */
    method DecodeRest(bt: ByteQueue, b: nat, length: nat) returns (ok: bool)
      modifies this, bt
      ensures ok <==> DecodedArcs(old(bt.data), length).Arcs?
      ensures ok ==> |values| >= 2 && values == [b / 40, b % 40] + values[2..]
      ensures ok ==> DecodedArcs(old(bt.data), length) == Arcs(values[2..], bt.data)
    {
      hide DecodedArc;
      var left := length;
      ghost var vs := [];
      values := [b / 40, b % 40];
      while left > 0
        invariant values == [b / 40, b % 40] + vs
        invariant PrependArcs(vs, DecodedArcs(bt.data, left)) == DecodedArcs(old(bt.data), length)
      {
        NextArc(vs, bt.data, left);
        var decoded, valueLen, v := DecodeValue(bt);
        if !decoded || valueLen > left {
          return false;
        }
        values, vs := values + [v], vs + [v];
        left := left - valueLen;
      }
      assert values[2..] == vs == vs + [];
      return true;
    }
  }

  ghost function PrependArcs(vs: seq<nat>, r: Arcs): (r': Arcs) {
    match r
    case BadArcs => BadArcs
    case Arcs(vs', rest) => Arcs(vs + vs', rest)
  }

  lemma {:induction false} NextArc(vs: seq<nat>, s: seq<byte>, length: nat)
    requires length > 0
    ensures var a := DecodedArc(0, s);
            PrependArcs(vs, DecodedArcs(s, length))
            == if a.BadArc? || |s| - |a.rest| > length then BadArcs
               else PrependArcs(vs + [a.value], DecodedArcs(a.rest, length - (|s| - |a.rest|)))
  {
    hide DecodedArc;
    var a := DecodedArc(0, s);
    if a.Arc? && |s| - |a.rest| <= length {
      var r := DecodedArcs(a.rest, length - (|s| - |a.rest|));
      if r.Arcs? {
        assert vs + ([a.value] + r.values) == vs + [a.value] + r.values;
      }
    }
  }

  lemma {:induction false} ArcsAdded(values: seq<nat>, v: nat)
    ensures EncodedArcs(values + [v]) == EncodedArcs(values) + EncodedArc(v)
  {
    hide EncodedArc;
    if values == [] {
      assert values + [v] == [v] && [v][1..] == [];
    } else {
      ArcsAdded(values[1..], v);
      assert (values + [v])[1..] == values[1..] + [v];
    }
  }
}
