/** Length octets of `asn.cpp`: definite lengths in shortest form out, any form in. */
module AsnLengths {
  import opened Numbers
  import opened Bytes

  const TWO_TO_THE_56: nat := 0x1_0000_0000_0000_00

  /** A byte queue: `Put` appends, `Get` takes from the front. */
  class ByteQueue {
    var data: seq<byte>

    constructor ()
      ensures data == []
    {
      data := [];
    }

    method Put(s: seq<byte>)
      modifies this
      ensures data == old(data) + s
    {
      data := data + s;
    }

    method Get() returns (ok: bool, b: byte)
      modifies this
      ensures ok == (old(data) != [])
      ensures ok ==> b == old(data)[0] && data == old(data)[1..]
      ensures !ok ==> data == old(data)
    {
      ok, b := data != [], 0;
      if ok {
        b, data := data[0], data[1..];
      }
    }
  }

  /** The least number of octets that hold `n`. */
  function BytePrecision(n: nat): (r: nat)
    ensures n > 0 ==> r > 0
  {
    if n == 0 then 0 else 1 + BytePrecision(n / 256)
  }

  lemma {:induction false} BigEndianRoundTrip(n: nat, k: nat)
    requires BytePrecision(n) <= k
    ensures FromBigEndian(BigEndian(n, k)) == n
    decreases k
  {
    if k > 0 {
      BigEndianRoundTrip(n / 256, k - 1);
      assert BigEndian(n, k)[..k - 1] == BigEndian(n / 256, k - 1);
    }
  }

  /** No octet string shorter than the precision stands for the number. */
  lemma {:induction false} PrecisionIsLeast(s: seq<byte>)
    ensures BytePrecision(FromBigEndian(s)) <= |s|
  {
    if s != [] {
      var n := |s| - 1;
      PrecisionIsLeast(s[..n]);
      LastOctet(FromBigEndian(s[..n]), s[n]);
    }
  }

  lemma {:induction false} LastOctet(q: nat, b: byte)
    ensures (256 * q + b) / 256 == q && (256 * q + b) % 256 == b
  {
  }

  lemma {:induction false} PrecisionBound(n: nat, k: nat)
    requires n < Shl(1, 8 * k)
    ensures BytePrecision(n) <= k
  {
    hide Shl;
    if k == 0 {
      ShlNone(1);
    } else {
      ShlDown(n, k);
      PrecisionBound(n / 256, k - 1);
    }
  }

  /** Shortest definite form, sections 8.1.3 and 10.1 of X.690. */
  function DerLength(n: nat): (r: seq<byte>)
    ensures r != []
  {
    if n <= 0x7f then [n]
    else [0x80 + BytePrecision(n) % 0x80] + BigEndian(n, BytePrecision(n))
  }

  /** The forms of section 8.1.3 of X.690, written out for lengths of up to two octets. */
  lemma {:induction false} ShortLengths(n: nat)
    ensures n < 128 ==> DerLength(n) == [n]
    ensures 128 <= n < 256 ==> DerLength(n) == [0x81, n]
    ensures 256 <= n < 65536 ==> DerLength(n) == [0x82, n / 256, n % 256]
  {
    if 256 <= n < 65536 {
      var q := n / 256;
      assert BytePrecision(0) == 0 && BytePrecision(q) == 1 && BytePrecision(n) == 2;
      assert BigEndian(q / 256, 0) == [] && BigEndian(q, 1) == [q];
    } else if 128 <= n < 256 {
      assert BytePrecision(n) == 1 && BigEndian(n, 1) == [n];
    }
  }

  datatype Form = Truncated | Overflow | Definite(length: nat) | Indefinite
  datatype Decoded = Decoded(form: Form, rest: seq<byte>)

  /** The loop over the long form's octets. */
  function LongLength(acc: nat, k: nat, s: seq<byte>): (r: Decoded)
    decreases k
  {
    if k == 0 then Decoded(Definite(acc), s)
    else if acc >= TWO_TO_THE_56 then Decoded(Overflow, s)
    else if s == [] then Decoded(Truncated, s)
    else LongLength(256 * acc + s[0], k - 1, s[1..])
  }

  function DecodeLength(s: seq<byte>): (r: Decoded) {
    if s == [] then Decoded(Truncated, s)
    else if s[0] < 0x80 then Decoded(Definite(s[0]), s[1..])
    else if s[0] == 0x80 then Decoded(Indefinite, s[1..])
    else LongLength(0, s[0] - 0x80, s[1..])
  }

  lemma {:induction false} FromBigEndianGrows(p: seq<byte>, q: seq<byte>)
    requires q != []
    ensures FromBigEndian(p + q) >= 256 * FromBigEndian(p)
  {
    var n := |q| - 1;
    assert (p + q)[..|p + q| - 1] == p + q[..n];
    if n == 0 {
      assert p + q[..n] == p;
    } else {
      FromBigEndianGrows(p, q[..n]);
    }
  }

  lemma {:induction false} FromBigEndianNext(p: seq<byte>, b: byte)
    ensures FromBigEndian(p + [b]) == 256 * FromBigEndian(p) + b
  {
    assert (p + [b])[..|p|] == p;
  }

  /** The long form is accepted exactly when all its octets are there and their number fits into 64 bits. */
  lemma {:induction false} LongMeaning(p: seq<byte>, k: nat, s: seq<byte>)
    requires FromBigEndian(p) < TWO_TO_THE_64
    ensures LongLength(FromBigEndian(p), k, s).form.Definite? <==> |s| >= k && FromBigEndian(p + s[..k]) < TWO_TO_THE_64
    ensures |s| >= k && FromBigEndian(p + s[..k]) < TWO_TO_THE_64 ==>
              LongLength(FromBigEndian(p), k, s) == Decoded(Definite(FromBigEndian(p + s[..k])), s[k..])
    ensures !LongLength(FromBigEndian(p), k, s).form.Indefinite?
    decreases k
  {
    hide FromBigEndian;
    if k == 0 {
      assert p + s[..0] == p;
    } else if FromBigEndian(p) >= TWO_TO_THE_56 {
      if |s| >= k {
        FromBigEndianGrows(p, s[..k]);
      }
    } else if s != [] {
      FromBigEndianNext(p, s[0]);
      LongMeaning(p + [s[0]], k - 1, s[1..]);
      if |s| >= k {
        assert [s[0]] + s[1..][..k - 1] == s[..k];
        assert p + [s[0]] + s[1..][..k - 1] == p + ([s[0]] + s[1..][..k - 1]);
      }
    }
  }

  /** What `BERLengthDecode` accepts as a definite length, and what it is. */
  lemma {:induction false} DefiniteMeaning(s: seq<byte>)
    ensures s != [] && s[0] < 0x80 ==> DecodeLength(s) == Decoded(Definite(s[0]), s[1..])
    ensures s != [] && s[0] == 0x80 ==> DecodeLength(s) == Decoded(Indefinite, s[1..])
    ensures s != [] && s[0] > 0x80 ==>
              var k := s[0] - 0x80;
              if |s| > k && FromBigEndian(s[1..1 + k]) < TWO_TO_THE_64
              then DecodeLength(s) == Decoded(Definite(FromBigEndian(s[1..1 + k])), s[1 + k..])
              else DecodeLength(s).form.Truncated? || DecodeLength(s).form.Overflow?
  {
    if s != [] && s[0] > 0x80 {
      var k := s[0] - 0x80;
      LongMeaning([], k, s[1..]);
      if |s| > k {
        assert [] + s[1..][..k] == s[1..1 + k] && s[1..][k..] == s[1 + k..];
      }
    }
  }

  /** Every 64-bit length decodes back. */
  lemma {:induction false} LengthRoundTrip(n: nat, rest: seq<byte>)
    requires n < TWO_TO_THE_64
    ensures DecodeLength(DerLength(n) + rest) == Decoded(Definite(n), rest)
  {
    hide DecodeLength, FromBigEndian, BytePrecision, BigEndian;
    var s := DerLength(n) + rest;
    DefiniteMeaning(s);
    if n <= 0x7f {
      assert s[1..] == rest;
    } else {
      var k := BytePrecision(n);
      WordLimits();
      PrecisionBound(n, 8);
      BigEndianRoundTrip(n, k);
      assert s[1..1 + k] == BigEndian(n, k) && s[1 + k..] == rest;
    }
  }

  /** No other encoding of a length is shorter. */
  lemma {:induction false} LengthIsShortest(s: seq<byte>)
    requires DecodeLength(s).form.Definite?
    ensures |DecodeLength(s).rest| + |DerLength(DecodeLength(s).form.length)| <= |s|
  {
    hide DecodeLength, FromBigEndian, BytePrecision, BigEndian;
    DefiniteMeaning(s);
    SomeOctet(s);
    if s[0] > 0x80 {
      PrecisionIsLeast(s[1..1 + (s[0] - 0x80)]);
    }
  }

  lemma {:induction false} SomeOctet(s: seq<byte>)
    requires DecodeLength(s).form.Definite? || DecodeLength(s).form.Indefinite?
    ensures s != []
  {
  }

  /** Decoding a definite length looks no further than the length octets. */
  lemma {:induction false} LengthPrefix(s: seq<byte>, rest: seq<byte>)
    requires DecodeLength(s).form.Definite? && DecodeLength(s).rest == []
    ensures DecodeLength(s + rest) == Decoded(DecodeLength(s).form, rest)
  {
    hide DecodeLength, FromBigEndian;
    SomeOctet(s);
    DefiniteMeaning(s);
    DefiniteMeaning(s + rest);
    if s[0] < 0x80 {
      assert (s + rest)[1..] == rest;
    } else {
      var k := s[0] - 0x80;
      assert (s + rest)[1..1 + k] == s[1..1 + k] && (s + rest)[1 + k..] == rest;
    }
  }

  /** The length octets alone decode to the same length. */
  lemma {:induction false} LengthAlone(s: seq<byte>)
    requires DecodeLength(s).form.Definite?
    ensures var d := DecodeLength(s);
            && |d.rest| < |s| && s[|s| - |d.rest|..] == d.rest
            && DecodeLength(s[..|s| - |d.rest|]) == Decoded(d.form, [])
  {
    hide DecodeLength, FromBigEndian;
    SomeOctet(s);
    DefiniteMeaning(s);
    var l := s[..|s| - |DecodeLength(s).rest|];
    DefiniteMeaning(l);
    if s[0] > 0x80 {
      var k := s[0] - 0x80;
      assert l[1..1 + k] == s[1..1 + k];
    }
  }

  method DERLengthEncode(bt: ByteQueue, length: nat) returns (i: nat)
    modifies bt
    ensures bt.data == old(bt.data) + DerLength(length) && i == |DerLength(length)|
  {
    hide BytePrecision, BigEndian, ShiftBytes;
    i := 0;
    if length <= 0x7f {
      bt.Put([length]);
      i := i + 1;
    } else {
      var k := BytePrecision(length);
      bt.Put([0x80 + k % 0x80]);
      i := i + 1;
      ghost var start := bt.data;
      var j := k;
      NextOctet(length, 0, 0);
      while j > 0
        invariant 0 <= j <= k && i == 1 + k - j
        invariant bt.data == start + BigEndian(ShiftBytes(length, j), k - j)
      {
        NextOctet(length, j - 1, k - j);
        ghost var written := BigEndian(ShiftBytes(length, j), k - j);
        bt.Put([ShiftBytes(length, j - 1) % 256]);
        assert start + written + [ShiftBytes(length, j - 1) % 256]
           == start + (written + [ShiftBytes(length, j - 1) % 256]);
        i := i + 1;
        j := j - 1;
      }
      assert start + BigEndian(length, k) == old(bt.data) + ([0x80 + k % 0x80] + BigEndian(length, k));
    }
  }

  lemma {:induction false} NextOctet(n: nat, j: nat, k: nat)
    ensures BigEndian(ShiftBytes(n, j), k + 1) == BigEndian(ShiftBytes(n, j + 1), k) + [ShiftBytes(n, j) % 256]
    ensures ShiftBytes(n, 0) == n && forall m :: BigEndian(m, 0) == []
  {
  }

  /** `n` shifted right by `j` octets. */
  function ShiftBytes(n: nat, j: nat): (r: nat) {
    if j == 0 then n else ShiftBytes(n, j - 1) / 256
  }

  method BERLengthDecode(bt: ByteQueue) returns (form: Form)
    modifies bt
    ensures Decoded(form, bt.data) == DecodeLength(old(bt.data))
  {
    var ok, b: nat := bt.Get();
    if !ok {
      return Truncated;
    }
    if b < 0x80 {
      return Definite(b);
    }
    var lengthBytes: nat := b - 0x80;
    if lengthBytes == 0 {
      return Indefinite;
    }
    var length: nat := 0;
    while lengthBytes > 0
      invariant LongLength(length, lengthBytes, bt.data) == DecodeLength(old(bt.data))
    {
      if length >= TWO_TO_THE_56 {
        return Overflow;
      }
      ok, b := bt.Get();
      if !ok {
        return Truncated;
      }
      length := 256 * length + b;
      lengthBytes := lengthBytes - 1;
    }
    return Definite(length);
  }
}
