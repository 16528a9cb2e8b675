/** `DEREncodeUnsigned` and `BERDecodeUnsigned` of `asn.h`, for a type of `size` octets. */
module UnsignedIntegers {
  import opened Numbers
  import opened Bytes
  import opened AsnLengths

  const BOOLEAN: byte := 1
  const INTEGER: byte := 2
  const ENUMERATED: byte := 10

  /** The octets a number takes, at least one. */
  function OctetCount(w: nat): (r: nat)
    ensures r >= 1
  {
    if w == 0 then 1 else BytePrecision(w)
  }

  /** Contents octets of an unsigned value. */
  ghost function Contents(w: nat, asnTag: byte): (c: seq<byte>) {
    if asnTag == BOOLEAN then [if w != 0 then 0xff else 0]
    else
      var s := BigEndian(w, OctetCount(w));
      if s[0] >= 0x80 then [0] + s else s
  }

  /** The first octet is zero exactly when one octet fewer would do. */
  lemma {:induction false} TopOctet(w: nat, k: nat)
    requires k >= 1 && BytePrecision(w) <= k
    ensures BigEndian(w, k)[0] == 0 <==> BytePrecision(w) <= k - 1
    decreases k
  {
    if k == 1 {
      assert BigEndian(w, 1) == [w % 256];
      assert w / 256 == 0;
    } else {
      TopOctet(w / 256, k - 1);
    }
  }

  /** Section 8.3 of X.690: a non-negative two's complement number in the fewest octets. */
  lemma {:induction false} ContentsAreShortest(w: nat, asnTag: byte)
    requires asnTag != BOOLEAN
    ensures var c := Contents(w, asnTag);
            && c != [] && FromBigEndian(c) == w && c[0] < 0x80
            && (|c| > 1 && c[0] == 0 ==> c[1] >= 0x80)
  {
    hide BigEndian, FromBigEndian, BytePrecision;
    var k := OctetCount(w);
    var s := BigEndian(w, k);
    ZeroPrecision();
    BigEndianRoundTrip(w, k);
    TopOctet(w, k);
    LeadingZero([0] + s);
    assert ([0] + s)[1..] == s;
  }

  lemma {:induction false} ZeroPrecision()
    ensures BytePrecision(0) == 0
  {
  }

  /** A leading zero octet adds nothing. */
  lemma {:induction false} LeadingZero(s: seq<byte>)
    requires s != [] && s[0] == 0
    ensures FromBigEndian(s) == FromBigEndian(s[1..])
  {
    var n := |s| - 1;
    if n == 0 {
      assert s[..0] == [] && s[1..] == [];
    } else {
      LeadingZero(s[..n]);
      assert s[..n][1..] == s[1..][..n - 1];
    }
  }

  /** Without a leading zero all octets are needed. */
  lemma {:induction false} NoLeadingZero(s: seq<byte>)
    requires s != [] && s[0] != 0
    ensures BytePrecision(FromBigEndian(s)) == |s|
  {
    var n := |s| - 1;
    LastOctet(FromBigEndian(s[..n]), s[n]);
    if n == 0 {
      assert s[..0] == [];
      assert BytePrecision(0) == 0;
    } else {
      NoLeadingZero(s[..n]);
    }
  }

  datatype Unsigned = Value(w: nat, rest: seq<byte>) | Refused

  /** What is accepted, and its value: leading zero octets are allowed, the value must fit and lie in the range. */
  ghost function Decoded(s: seq<byte>, size: nat, asnTag: byte, minValue: nat, maxValue: nat): (r: Unsigned) {
    if s == [] || s[0] != asnTag then Refused
    else
      var d := DecodeLength(s[1..]);
      if !d.form.Definite? || d.form.length > |d.rest| then Refused
      else
        var n := d.form.length;
        if (asnTag == BOOLEAN && n != 1) || ((asnTag == INTEGER || asnTag == ENUMERATED) && n == 0) then Refused
        else
          var v := FromBigEndian(d.rest[..n]);
          if BytePrecision(v) > size || v < minValue || v > maxValue then Refused
          else Value(v, d.rest[n..])
  }

  ghost function Encoded(w: nat, asnTag: byte): (s: seq<byte>) {
    [asnTag] + DerLength(|Contents(w, asnTag)|) + Contents(w, asnTag)
  }

  /** A value decodes back exactly when it is in range and, as a BOOLEAN, is 0 or 255. */
  lemma {:induction false} UnsignedRoundTrip(w: nat, size: nat, asnTag: byte, minValue: nat, maxValue: nat,
                                             rest: seq<byte>)
    requires size >= 1 && BytePrecision(w) <= size && size < TWO_TO_THE_64 - 1
    ensures Decoded(Encoded(w, asnTag) + rest, size, asnTag, minValue, maxValue) == Value(w, rest)
            <==> minValue <= w <= maxValue && (asnTag == BOOLEAN ==> w == 0 || w == 0xff)
  {
    hide DecodeLength, DerLength, Contents, FromBigEndian, BytePrecision;
    var c := Contents(w, asnTag);
    var s := Encoded(w, asnTag) + rest;
    ContentsValue(w, asnTag, size);
    LengthRoundTrip(|c|, c + rest);
    assert s[1..] == DerLength(|c|) + (c + rest);
    assert (c + rest)[..|c|] == c && (c + rest)[|c|..] == rest;
  }

  /** A BOOLEAN 1 of any width comes back as 255, and so does one of all ones. */
  lemma {:induction false} BooleanLost(w: nat, size: nat, rest: seq<byte>)
    requires w >= 1 && size >= 1 && BytePrecision(w) <= size
    ensures Decoded(Encoded(w, BOOLEAN) + rest, size, BOOLEAN, 0, 0xff) == Value(0xff, rest)
  {
    hide DecodeLength, DerLength, Contents, FromBigEndian, BytePrecision;
    var c := Contents(w, BOOLEAN);
    var s := Encoded(w, BOOLEAN) + rest;
    ContentsValue(w, BOOLEAN, size);
    LengthRoundTrip(|c|, c + rest);
    assert s[1..] == DerLength(|c|) + (c + rest);
    assert (c + rest)[..|c|] == c && (c + rest)[|c|..] == rest;
  }

  lemma {:induction false} ContentsValue(w: nat, asnTag: byte, size: nat)
    requires size >= 1 && BytePrecision(w) <= size
    ensures var c := Contents(w, asnTag);
            && 1 <= |c| <= size + 1 && (asnTag == BOOLEAN ==> |c| == 1) && BytePrecision(FromBigEndian(c)) <= size
            && FromBigEndian(c) == (if asnTag != BOOLEAN || w == 0 then w else 0xff)
  {
    hide FromBigEndian, BytePrecision, BigEndian;
    var c := Contents(w, asnTag);
    if asnTag == BOOLEAN {
      FromBigEndianNext([], c[0]);
      assert [] + [c[0]] == c;
      FromNothing();
      PrecisionIsLeast(c);
    } else {
      ContentsAreShortest(w, asnTag);
    }
  }

  lemma {:induction false} FromNothing()
    ensures FromBigEndian([]) == 0
  {
  }

  lemma {:induction false} BigEndianAt(n: nat, k: nat, i: nat)
    requires i < k
    ensures BigEndian(n, k)[i] == ShiftBytes(n, k - 1 - i) % 256
    decreases k
  {
    if i < k - 1 {
      BigEndianAt(n / 256, k - 1, i);
      ShiftFirst(n, k - 2 - i);
    }
  }

  lemma {:induction false} ShiftFirst(n: nat, j: nat)
    ensures ShiftBytes(n / 256, j) == ShiftBytes(n, j + 1)
  {
    if j > 0 {
      ShiftFirst(n, j - 1);
    }
  }

  /** The value's octets behind a zero octet. */
  method FillBuffer(w: nat, size: nat) returns (buf: array<byte>)
    ensures fresh(buf) && buf[..] == [0] + BigEndian(w, size)
  {
    hide BigEndian, ShiftBytes;
    buf := new byte[size + 1];
    buf[0] := 0;
    var i := 0;
    while i < size
      invariant 0 <= i <= size && buf[0] == 0
      invariant forall j :: 0 <= j < i ==> buf[j + 1] == BigEndian(w, size)[j]
    {
      BigEndianAt(w, size, i);
      buf[i + 1] := ShiftBytes(w, size - 1 - i) % 256;
      i := i + 1;
    }
    assert buf[..] == [0] + BigEndian(w, size);
  }

  /** How many octets of the buffer are the contents: leading zeros go, a sign octet stays. */
  method TrimBuffer(buf: array<byte>, w: nat, size: nat, asnTag: byte) returns (bc: nat)
    requires asnTag != BOOLEAN && size >= 1 && BytePrecision(w) <= size && buf[..] == [0] + BigEndian(w, size)
    ensures bc <= size + 1 && buf[size + 1 - bc..] == Contents(w, asnTag)
  {
    hide BigEndian, BytePrecision, Contents;
    bc := size;
    SuffixOctets(buf[..], w, size, bc);
    while bc > 1 && buf[size + 1 - bc] == 0
      invariant 1 <= bc <= size && BytePrecision(w) <= bc
      invariant buf[..][size + 1 - bc..] == BigEndian(w, bc)
    {
      assert buf[size + 1 - bc] == buf[..][size + 1 - bc..][0];
      TopOctet(w, bc);
      bc := bc - 1;
      SuffixOctets(buf[..], w, size, bc);
    }
    assert buf[size + 1 - bc] == buf[..][size + 1 - bc..][0];
    TrimmedOctets(buf[..], w, size, bc, asnTag);
    if buf[size + 1 - bc] >= 0x80 {
      bc := bc + 1;
    }
    assert buf[size + 1 - bc..] == buf[..][size + 1 - bc..];
  }

  /** Once no octet is left to trim, the octets from here, or from the one before, are the contents. */
  lemma {:induction false} TrimmedOctets(buf: seq<byte>, w: nat, size: nat, bc: nat, asnTag: byte)
    requires asnTag != BOOLEAN && buf == [0] + BigEndian(w, size) && 1 <= bc <= size && BytePrecision(w) <= bc
    requires bc == 1 || buf[size + 1 - bc] != 0
    ensures buf[size + 1 - (if buf[size + 1 - bc] >= 0x80 then bc + 1 else bc)..] == Contents(w, asnTag)
  {
    hide BigEndian, BytePrecision;
    SuffixOctets(buf, w, size, bc);
    assert buf[size + 1 - bc] == buf[size + 1 - bc..][0];
    CountIs(w, bc);
    SignOctet(buf, w, size, bc);
    assert buf[size - bc..] == [0] + buf[size + 1 - bc..];
  }

  lemma {:induction false} SuffixOctets(buf: seq<byte>, w: nat, size: nat, bc: nat)
    requires buf == [0] + BigEndian(w, size) && bc <= size
    ensures buf[size + 1 - bc..] == BigEndian(w, bc)
  {
    hide BigEndian;
    BigEndianTail(w, size, bc);
    assert buf[size + 1 - bc..] == BigEndian(w, size)[size - bc..];
  }

  lemma {:induction false} SignOctet(buf: seq<byte>, w: nat, size: nat, bc: nat)
    requires buf == [0] + BigEndian(w, size) && bc <= size && BytePrecision(w) <= bc
    ensures buf[size - bc] == 0
  {
    hide BigEndian, BytePrecision;
    if bc < size {
      SuffixOctets(buf, w, size, bc + 1);
      TopOctet(w, bc + 1);
      assert buf[size - bc] == buf[size - bc..][0];
    }
  }

  lemma {:induction false} CountIs(w: nat, bc: nat)
    requires bc >= 1 && BytePrecision(w) <= bc && (bc == 1 || BigEndian(w, bc)[0] != 0)
    ensures bc == OctetCount(w)
  {
    hide BigEndian;
    TopOctet(w, bc);
  }

  method DEREncodeUnsigned(out: ByteQueue, w: nat, size: nat, asnTag: byte) returns (n: nat)
    requires size >= 1 && BytePrecision(w) <= size
    modifies out
    ensures out.data == old(out.data) + Encoded(w, asnTag) && n == |Encoded(w, asnTag)|
  {
    hide BigEndian, BytePrecision, DerLength;
    var contents: seq<byte>;
    if asnTag == BOOLEAN {
      contents := [if w != 0 then 0xff else 0];
    } else {
      var buf := FillBuffer(w, size);
      var bc := TrimBuffer(buf, w, size, asnTag);
      contents := buf[size + 1 - bc..];
    }
    assert contents == Contents(w, asnTag);
    out.Put([asnTag]);
    var lengthBytes := DERLengthEncode(out, |contents|);
    out.Put(contents);
    n := 1 + lengthBytes + |contents|;
  }

  /** Leading zeros skipped while there are too many octets, the rest accumulated; too many octets are refused. */
  method Accumulate(buf: seq<byte>, size: nat) returns (ok: bool, w: nat)
    ensures ok <==> BytePrecision(FromBigEndian(buf)) <= size
    ensures ok ==> w == FromBigEndian(buf)
  {
    hide FromBigEndian, BytePrecision;
    var ptr := 0;
    assert buf[0..] == buf;
    while |buf| - ptr > size && buf[ptr] == 0
      invariant 0 <= ptr <= |buf| && FromBigEndian(buf[ptr..]) == FromBigEndian(buf)
    {
      LeadingZero(buf[ptr..]);
      assert buf[ptr..][1..] == buf[ptr + 1..];
      ptr := ptr + 1;
    }
    if |buf| - ptr > size {
      NoLeadingZero(buf[ptr..]);
      return false, 0;
    }
    PrecisionIsLeast(buf[ptr..]);
    w := 0;
    FromNothing();
    var i := 0;
    assert buf[ptr..ptr + i] == [];
    while i < |buf| - ptr
      invariant 0 <= i <= |buf| - ptr && w == FromBigEndian(buf[ptr..ptr + i])
    {
      FromBigEndianNext(buf[ptr..ptr + i], buf[ptr + i]);
      assert buf[ptr..ptr + i] + [buf[ptr + i]] == buf[ptr..ptr + i + 1];
      w := 256 * w + buf[ptr + i];
      i := i + 1;
    }
    assert buf[ptr..ptr + i] == buf[ptr..];
    ok := true;
  }

  method BERDecodeUnsigned(inq: ByteQueue, size: nat, asnTag: byte, minValue: nat, maxValue: nat)
      returns (ok: bool, w: nat)
    modifies inq
    ensures ok <==> Decoded(old(inq.data), size, asnTag, minValue, maxValue).Value?
    ensures ok ==> Decoded(old(inq.data), size, asnTag, minValue, maxValue) == Value(w, inq.data)
  {
    hide FromBigEndian, BytePrecision, DecodeLength;
    var got, b := inq.Get();
    if !got || b != asnTag {
      return false, 0;
    }
    var form := BERLengthDecode(inq);
    if !form.Definite? || form.length > |inq.data| {
      return false, 0;
    }
    var bc := form.length;
    if (asnTag == BOOLEAN && bc != 1) || ((asnTag == INTEGER || asnTag == ENUMERATED) && bc == 0) {
      return false, 0;
    }
    var buf := inq.data[..bc];
    inq.data := inq.data[bc..];
    ok, w := Accumulate(buf, size);
    if ok && (w < minValue || w > maxValue) {
      ok := false;
    }
  }

  /** Known encodings: 0, 5, 128 with its sign octet, and a true BOOLEAN. */
  lemma {:induction false} KnownIntegers()
    ensures Encoded(0, 2) == [2, 1, 0] && Encoded(5, 2) == [2, 1, 5] && Encoded(128, 2) == [2, 2, 0, 128]
    ensures Encoded(1, 1) == [1, 1, 0xff] && Encoded(0, 1) == [1, 1, 0]
  {
    ShortLengths(1);
    ShortLengths(2);
    assert BytePrecision(0) == 0 && BytePrecision(5) == 1 && BytePrecision(128) == 1;
    assert BigEndian(0, 0) == [] && BigEndian(0, 1) == [0] && BigEndian(5, 1) == [5];
    assert BigEndian(128, 2) == BigEndian(0, 1) + [128];
  }
}
