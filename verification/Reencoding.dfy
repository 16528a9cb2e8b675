/** `DERReencode` of `asn.cpp`: a BER object rewritten with definite, shortest lengths. */
module Reencoding {
  import opened Numbers
  import opened Bytes
  import opened AsnLengths

  /** BER objects as the decoder walks them: definite-length objects are flat, indefinite ones have children. */
  datatype Ber =
    | Flat(tag: byte, lengthOctets: seq<byte>, contents: seq<byte>)
    | Nested(tag: byte, children: seq<Ber>)

  ghost function Encode(t: Ber): (s: seq<byte>)
    decreases t
  {
    match t
    case Flat(tag, lengthOctets, contents) => [tag] + lengthOctets + contents
    case Nested(tag, children) => [tag, 0x80] + EncodeAll(children) + [0, 0]
  }

  ghost function EncodeAll(ts: seq<Ber>): (s: seq<byte>)
    decreases ts
  {
    if ts == [] then [] else Encode(ts[0]) + EncodeAll(ts[1..])
  }

  predicate Constructed(tag: byte) {
    tag / 32 % 2 == 1
  }

  /** Section 8.1.2.5 of X.690: bit 6 of the identifier octet, whatever the class in bits 8 and 7 and the number. */
  lemma {:induction false} ConstructedBit(c: nat, n: nat)
    requires c < 4 && n < 32
    ensures Constructed(64 * c + 32 + n) && !Constructed(64 * c + n)
  {
    assert (64 * c + 32 + n) / 32 == 2 * c + 1 && (64 * c + n) / 32 == 2 * c;
  }

  /** An object that reads as end-of-contents octets. */
  ghost predicate ReadsAsEnd(t: Ber) {
    t.Flat? && t.tag == 0 && t.lengthOctets != [] && t.lengthOctets[0] == 0
  }

  ghost predicate WellFormed(t: Ber)
    decreases t
  {
    match t
    case Flat(_, lengthOctets, contents) => DecodeLength(lengthOctets) == Decoded(Definite(|contents|), [])
    case Nested(tag, children) => Constructed(tag) && AllWellFormed(children)
  }

  ghost predicate AllWellFormed(ts: seq<Ber>)
    decreases ts
  {
    ts != [] ==> WellFormed(ts[0]) && !ReadsAsEnd(ts[0]) && AllWellFormed(ts[1..])
  }

  /** The definite, shortest-length encoding: children of indefinite objects are rewritten, definite contents kept. */
  ghost function Der(t: Ber): (s: seq<byte>)
    decreases t, 1
  {
    [t.tag] + DerLength(|DerContents(t)|) + DerContents(t)
  }

  ghost function DerContents(t: Ber): (s: seq<byte>)
    decreases t, 0
  {
    match t
    case Flat(_, _, contents) => contents
    case Nested(_, children) => DerAll(children)
  }

  ghost function DerAll(ts: seq<Ber>): (s: seq<byte>)
    decreases ts
  {
    if ts == [] then [] else Der(ts[0]) + DerAll(ts[1..])
  }

  datatype ParseResult<T> = Parsed(value: T, rest: seq<byte>) | Malformed

  ghost function Parse(s: seq<byte>): (r: ParseResult<Ber>)
    ensures r.Parsed? ==> |r.rest| < |s|
    decreases |s|, 0
  {
    if s == [] then Malformed
    else
      var d := DecodeLength(s[1..]);
      RestIsShorter(s[1..]);
      match d.form
      case Truncated => Malformed
      case Overflow => Malformed
      case Definite(n) =>
        if |d.rest| < n then Malformed
        else Parsed(Flat(s[0], s[1..|s| - |d.rest|], d.rest[..n]), d.rest[n..])
      case Indefinite =>
        if !Constructed(s[0]) then Malformed
        else match ParseChildren(d.rest)
             case Malformed => Malformed
             case Parsed(children, rest) => Parsed(Nested(s[0], children), rest)
  }

  ghost function ParseChildren(s: seq<byte>): (r: ParseResult<seq<Ber>>)
    ensures r.Parsed? ==> |r.rest| < |s|
    decreases |s|, 1
  {
    if EndOfContents(s) then Parsed([], s[2..])
    else match Parse(s)
         case Malformed => Malformed
         case Parsed(t, rest) =>
           match ParseChildren(rest)
           case Malformed => Malformed
           case Parsed(ts, rest') => Parsed([t] + ts, rest')
  }

  predicate EndOfContents(s: seq<byte>) {
    |s| >= 2 && s[0] == 0 && s[1] == 0
  }

  lemma {:induction false} RestIsShorter(s: seq<byte>)
    ensures |DecodeLength(s).rest| <= |s|
    ensures DecodeLength(s).form.Definite? || DecodeLength(s).form.Indefinite? ==> |DecodeLength(s).rest| < |s|
  {
    if s != [] && s[0] > 0x80 {
      LongRest(0, s[0] - 0x80, s[1..]);
    }
  }

  lemma {:induction false} LongRest(acc: nat, k: nat, s: seq<byte>)
    ensures |LongLength(acc, k, s).rest| <= |s|
    decreases k
  {
    if k > 0 && s != [] && acc < TWO_TO_THE_56 {
      LongRest(256 * acc + s[0], k - 1, s[1..]);
    }
  }

  /** What is parsed is a well-formed object, and the rest follows it. */
  lemma {:induction false} ParseSound(s: seq<byte>)
    requires Parse(s).Parsed?
    ensures WellFormed(Parse(s).value) && s == Encode(Parse(s).value) + Parse(s).rest
    decreases |s|, 0
  {
    hide DecodeLength, ParseChildren, EncodeAll, AllWellFormed;
    var d := DecodeLength(s[1..]);
    RestIsShorter(s[1..]);
    if d.form.Definite? {
      LengthAlone(s[1..]);
      assert s[1..][..|s[1..]| - |d.rest|] == s[1..|s| - |d.rest|];
    } else {
      ParseChildrenSound(d.rest);
      IndefiniteOctet(s[1..]);
    }
  }

  lemma {:induction false} IndefiniteOctet(s: seq<byte>)
    requires DecodeLength(s).form.Indefinite?
    ensures s != [] && s[0] == 0x80 && DecodeLength(s).rest == s[1..]
  {
    hide DecodeLength;
    SomeOctet(s);
    DefiniteMeaning(s);
  }

  lemma {:induction false} ParseChildrenSound(s: seq<byte>)
    requires ParseChildren(s).Parsed?
    ensures AllWellFormed(ParseChildren(s).value)
            && s == EncodeAll(ParseChildren(s).value) + [0, 0] + ParseChildren(s).rest
    decreases |s|, 1
  {
    hide Encode, WellFormed, Parse;
    var r := ParseChildren(s);
    if EndOfContents(s) {
      assert s == [] + [0, 0] + s[2..];
    } else {
      var t, rest := Parse(s).value, Parse(s).rest;
      ParseSound(s);
      ParseChildrenSound(rest);
      var ts := ParseChildren(rest).value;
      assert ([t] + ts)[1..] == ts;
      NotTheEnd(t, rest);
      assert s == Encode(t) + (EncodeAll(ts) + [0, 0] + r.rest);
    }
  }

  /** Among children, exactly the objects that read as end-of-contents octets are taken for them. */
  lemma {:induction false} NotTheEnd(t: Ber, rest: seq<byte>)
    requires WellFormed(t)
    ensures EndOfContents(Encode(t) + rest) <==> ReadsAsEnd(t)
  {
    hide DecodeLength;
    if t.Flat? {
      SomeOctet(t.lengthOctets);
      assert (Encode(t) + rest)[1] == t.lengthOctets[0];
    }
  }

  /** Every well-formed object is parsed, whatever follows it. */
  lemma {:induction false} ParseComplete(t: Ber, rest: seq<byte>)
    requires WellFormed(t)
    ensures Parse(Encode(t) + rest) == Parsed(t, rest)
    decreases t
  {
    hide DecodeLength;
    var s := Encode(t) + rest;
    match t
    case Flat(tag, lengthOctets, contents) =>
      assert s[1..] == lengthOctets + (contents + rest);
      LengthPrefix(lengthOctets, contents + rest);
      assert s[1..|s| - |contents + rest|] == lengthOctets;
      assert (contents + rest)[..|contents|] == contents && (contents + rest)[|contents|..] == rest;
    case Nested(tag, children) =>
      var inner := EncodeAll(children) + [0, 0] + rest;
      assert s[1..] == [0x80] + inner;
      DefiniteMeaning([0x80] + inner);
      ParseChildrenComplete(children, rest);
  }

  lemma {:induction false} ParseChildrenComplete(ts: seq<Ber>, rest: seq<byte>)
    requires AllWellFormed(ts)
    ensures ParseChildren(EncodeAll(ts) + [0, 0] + rest) == Parsed(ts, rest)
    decreases ts
  {
    hide Encode, WellFormed, Parse, ReadsAsEnd;
    var s := EncodeAll(ts) + [0, 0] + rest;
    if ts == [] {
      assert s == [0, 0] + rest && s[2..] == rest;
    } else {
      var s' := EncodeAll(ts[1..]) + [0, 0] + rest;
      assert s == Encode(ts[0]) + s';
      ParseComplete(ts[0], s');
      NotTheEnd(ts[0], s');
      ParseChildrenComplete(ts[1..], rest);
      assert [ts[0]] + ts[1..] == ts;
    }
  }

  ghost predicate StartsWith(s: seq<byte>, t: Ber) {
    WellFormed(t) && |Encode(t)| <= |s| && s[..|Encode(t)|] == Encode(t)
  }

  /** The parser accepts exactly the inputs that start with a well-formed object, and there is only one such object. */
  lemma {:induction false} ParseExactly(s: seq<byte>)
    ensures Parse(s).Parsed? <==> exists t :: StartsWith(s, t)
    ensures forall t :: StartsWith(s, t) ==> Parse(s) == Parsed(t, s[|Encode(t)|..])
  {
    hide Parse, Encode, WellFormed;
    if Parse(s).Parsed? {
      ParseSound(s);
      assert StartsWith(s, Parse(s).value);
    }
    forall t | StartsWith(s, t) ensures Parse(s) == Parsed(t, s[|Encode(t)|..]) {
      ParseComplete(t, s[|Encode(t)|..]);
      assert Encode(t) + s[|Encode(t)|..] == s;
    }
  }

  /** The rewritten object as a definite-length object. */
  ghost function Rewritten(t: Ber): (r: Ber)
  {
    Flat(t.tag, DerLength(|DerContents(t)|), DerContents(t))
  }

  /** The output is a well-formed definite object with shortest length; rewriting it again changes nothing. */
  lemma {:induction false} RewrittenIsDer(t: Ber, rest: seq<byte>)
    requires |DerContents(t)| < TWO_TO_THE_64
    ensures WellFormed(Rewritten(t)) && Encode(Rewritten(t)) == Der(t) == Der(Rewritten(t))
    ensures Parse(Der(t) + rest) == Parsed(Rewritten(t), rest)
  {
    hide DerLength, DecodeLength, Parse, DerContents;
    var r := Rewritten(t);
    LengthRoundTrip(|DerContents(t)|, []);
    assert DerLength(|DerContents(t)|) + [] == DerLength(|DerContents(t)|);
    FlatContents(r);
    ParseComplete(r, rest);
  }

  lemma {:induction false} FlatContents(t: Ber)
    requires t.Flat?
    ensures DerContents(t) == t.contents
  {
  }

  /** Objects that fill an octet string. */
  ghost function ParseAll(s: seq<byte>): (r: ParseResult<seq<Ber>>)
    decreases |s|
  {
    if s == [] then Parsed([], [])
    else match Parse(s)
         case Malformed => Malformed
         case Parsed(t, rest) =>
           match ParseAll(rest)
           case Malformed => Malformed
           case Parsed(ts, _) => Parsed([t] + ts, [])
  }

  ghost function RewrittenAll(ts: seq<Ber>): (r: seq<Ber>)
    ensures |r| == |ts|
  {
    seq(|ts|, i requires 0 <= i < |ts| => Rewritten(ts[i]))
  }

  /** The contents of a rewritten indefinite object are its children, rewritten, in order. */
  lemma {:induction false} ChildrenKept(ts: seq<Ber>)
    requires |DerAll(ts)| < TWO_TO_THE_64
    ensures ParseAll(DerAll(ts)) == Parsed(RewrittenAll(ts), [])
    decreases ts
  {
    hide Parse, Rewritten, Der, DerContents;
    if ts != [] {
      DerIsLonger(ts[0]);
      ChildrenKept(ts[1..]);
      RewrittenIsDer(ts[0], DerAll(ts[1..]));
      assert RewrittenAll(ts) == [Rewritten(ts[0])] + RewrittenAll(ts[1..]);
    }
  }

  lemma {:induction false} DerIsLonger(t: Ber)
    ensures |Der(t)| > |DerContents(t)|
  {
  }

  // ---------- When the output is DER throughout ----------

  /** A string type in constructed form: bit, octet and character strings of the universal class. */
  predicate ConstructedString(tag: byte) {
    tag in {0x23, 0x24, 0x2c, 0x39, 0x3a, 0x3b, 0x3c, 0x3e} || 0x32 <= tag <= 0x36
  }

  /** By universal tag number: bit, octet and restricted character strings, from BIT STRING to BMPString. */
  lemma {:induction false} StringTypes(n: nat)
    requires n < 32
    ensures ConstructedString(32 + n) <==> n in {3, 4, 12, 18, 19, 20, 21, 22, 25, 26, 27, 28, 30}
  {
  }

  /**
   A definite-length object in shortest form, not a constructed string, whose contents, if constructed, are such
   objects again.
   */
  ghost predicate IsDerObject(t: Ber)
    decreases |Encode(t)|, 0
  {
    && t.Flat? && t.lengthOctets == DerLength(|t.contents|) && !ConstructedString(t.tag)
    && (Constructed(t.tag) ==> AllDer(t.contents))
  }

  /** An octet string filled with such objects. */
  ghost predicate AllDer(s: seq<byte>)
    decreases |s|, 1
  {
    s != [] ==>
      && Parse(s).Parsed?
      && (ParseSound(s); IsDerObject(Parse(s).value))
      && AllDer(Parse(s).rest)
  }

  /** One object, definite, shortest and with primitive strings at every level: sections 10.1 and 10.2 of X.690. */
  ghost predicate IsDer(s: seq<byte>) {
    Parse(s).Parsed? && Parse(s).rest == [] && IsDerObject(Parse(s).value)
  }

  /**
   No constructed string is met, and every constructed object of definite length, where the walk stops, already holds
   DER.
   */
  ghost predicate Canonical(t: Ber)
    decreases t
  {
    match t
    case Flat(tag, _, contents) => !ConstructedString(tag) && (Constructed(tag) ==> AllDer(contents))
    case Nested(tag, children) => !ConstructedString(tag) && AllCanonical(children)
  }

  ghost predicate AllCanonical(ts: seq<Ber>)
    decreases ts
  {
    ts != [] ==> Canonical(ts[0]) && AllCanonical(ts[1..])
  }

  /**
   The output is DER exactly when no string is constructed and no object that was copied unchanged hides something else.
   */
  lemma {:induction false} ReencodedIsDer(t: Ber)
    requires WellFormed(t) && |DerContents(t)| < TWO_TO_THE_64
    ensures IsDer(Der(t)) <==> Canonical(t)
  {
    hide Parse, DerContents, Canonical, Der, AllDer;
    RewrittenIsDer(t, []);
    assert Der(t) + [] == Der(t);
    RewrittenIsCanonical(t);
  }

  lemma {:induction false} RewrittenIsCanonical(t: Ber)
    requires WellFormed(t) && |DerContents(t)| < TWO_TO_THE_64
    ensures IsDerObject(Rewritten(t)) <==> Canonical(t)
    decreases t, 1
  {
    hide AllDer, DerLength, DecodeLength;
    if t.Nested? {
      ReencodedAreDer(t.children);
    }
  }

  lemma {:induction false} ReencodedAreDer(ts: seq<Ber>)
    requires AllWellFormed(ts) && |DerAll(ts)| < TWO_TO_THE_64
    ensures AllDer(DerAll(ts)) <==> AllCanonical(ts)
    decreases ts
  {
    hide Parse, DerContents, WellFormed, IsDerObject, Canonical, Der;
    if ts != [] {
      DerIsLonger(ts[0]);
      RewrittenIsDer(ts[0], DerAll(ts[1..]));
      RewrittenIsCanonical(ts[0]);
      ReencodedAreDer(ts[1..]);
    }
  }

  /** An indefinite object inside a definite one comes out as it went in, and that is not DER. */
  lemma {:induction false} HiddenIndefinite()
    ensures var s := [0x30, 4, 0x30, 0x80, 0, 0];
            Parse(s).Parsed? && Parse(s).rest == [] && Der(Parse(s).value) == s && !IsDer(s)
  {
    var inner: seq<byte> := [0x30, 0x80, 0, 0];
    var t := Flat(0x30, [4], inner);
    var u := Nested(0x30, []);
    ParseComplete(t, []);
    assert Encode(t) + [] == [0x30, 4, 0x30, 0x80, 0, 0];
    assert Encode(u) + [] == inner;
    ParseComplete(u, []);
    assert !AllDer(inner);
  }

  /** A context-specific object of indefinite length around an INTEGER: accepted, and its length made definite. */
  lemma {:induction false} ContextTagged()
    ensures var s := [0xa0, 0x80, 2, 1, 5, 0, 0];
            Parse(s).Parsed? && Parse(s).rest == [] && Der(Parse(s).value) == [0xa0, 3, 2, 1, 5]
  {
    hide Parse;
    var inner := Flat(2, [1], [5]);
    var t := Nested(0xa0, [inner]);
    OneChild(inner);
    ShortLengths(1);
    ShortLengths(3);
    assert Encode(inner) == [2, 1, 5] && Der(inner) == [2, 1, 5];
    assert Encode(t) + [] == [0xa0, 0x80, 2, 1, 5, 0, 0];
    ParseComplete(t, []);
  }

  lemma {:induction false} OneChild(t: Ber)
    requires WellFormed(t) && !ReadsAsEnd(t)
    ensures AllWellFormed([t]) && EncodeAll([t]) == Encode(t) && DerAll([t]) == Der(t)
  {
    hide WellFormed, Encode, Der;
    assert [t][1..] == [];
  }

  /** A constructed string keeps its form: the pieces of an octet string are not joined. */
  lemma {:induction false} ConstructedStringKept()
    ensures var s := [0x24, 0x80, 4, 1, 0x41, 0, 0];
            var der := [0x24, 3, 4, 1, 0x41];
            Parse(s).Parsed? && Parse(s).rest == [] && Der(Parse(s).value) == der && !IsDer(der)
  {
    hide AllDer;
    var piece := Flat(4, [1], [0x41]);
    var t := Nested(0x24, [piece]);
    var der := Flat(0x24, [3], [4, 1, 0x41]);
    OneChild(piece);
    ShortLengths(1);
    ShortLengths(3);
    assert Encode(piece) == [4, 1, 0x41] && Der(piece) == [4, 1, 0x41];
    assert Encode(t) + [] == [0x24, 0x80, 4, 1, 0x41, 0, 0];
    ParseComplete(t, []);
    assert Encode(der) + [] == [0x24, 3, 4, 1, 0x41];
    ParseComplete(der, []);
  }

  /** The output is at most five times as long as the input, so below 2^61 octets every length fits into 64 bits. */
  lemma {:induction false} DerSize(t: Ber)
    requires WellFormed(t) && 5 * |Encode(t)| < TWO_TO_THE_64
    ensures |DerContents(t)| < TWO_TO_THE_64 && |Der(t)| <= 5 * |Encode(t)|
    decreases t, 1
  {
    hide DecodeLength, DerLength;
    match t
    case Flat(_, lengthOctets, contents) =>
      SomeOctet(lengthOctets);
      DerLengthSize(|contents|);
    case Nested(_, children) =>
      DerSizeAll(children);
      DerLengthSize(|DerAll(children)|);
  }

  lemma {:induction false} DerSizeAll(ts: seq<Ber>)
    requires AllWellFormed(ts) && 5 * |EncodeAll(ts)| < TWO_TO_THE_64
    ensures |DerAll(ts)| <= 5 * |EncodeAll(ts)|
    decreases ts
  {
    hide Der, Encode, WellFormed;
    if ts != [] {
      DerSize(ts[0]);
      DerSizeAll(ts[1..]);
    }
  }

  lemma {:induction false} DerLengthSize(n: nat)
    requires n < TWO_TO_THE_64
    ensures |DerLength(n)| <= 9
  {
    WordLimits();
    PrecisionBound(n, 8);
  }

  lemma {:induction false} DerAllAdded(ts: seq<Ber>, t: Ber)
    ensures DerAll(ts + [t]) == DerAll(ts) + Der(t)
  {
    hide Der;
    if ts == [] {
      assert ts + [t] == [t] && [t][1..] == [];
    } else {
      DerAllAdded(ts[1..], t);
      assert (ts + [t])[1..] == ts[1..] + [t];
    }
  }

  /** `BERGeneralDecoder` over a queue. */
  class GeneralDecoder {
    const inQueue: ByteQueue
    var definiteLength: bool
    var length: nat

    constructor (inQueue: ByteQueue)
      ensures this.inQueue == inQueue
    {
      this.inQueue := inQueue;
    }

    /** Tag and length octets; indefinite length only with a constructed tag. */
    method Init(asnTag: byte) returns (ok: bool)
      modifies this, inQueue
      ensures ok ==>
                && old(inQueue.data) != [] && old(inQueue.data)[0] == asnTag
                && inQueue.data == DecodeLength(old(inQueue.data)[1..]).rest
                && DecodeLength(old(inQueue.data)[1..]).form
                   == (if definiteLength then Definite(length) else Indefinite)
                && (definiteLength || Constructed(asnTag))
      ensures !ok && old(inQueue.data) != [] && old(inQueue.data)[0] == asnTag ==>
                var form := DecodeLength(old(inQueue.data)[1..]).form;
                form.Truncated? || form.Overflow? || (form.Indefinite? && !Constructed(asnTag))
    {
      hide DecodeLength;
      var got, b := inQueue.Get();
      if !got || b != asnTag {
        return false;
      }
      var form := BERLengthDecode(inQueue);
      match form
      case Truncated => return false;
      case Overflow => return false;
      case Definite(n) =>
        definiteLength, length := true, n;
        return true;
      case Indefinite =>
        definiteLength := false;
        return Constructed(asnTag);
    }

    method EndReached() returns (end: bool)
      requires !definiteLength
      ensures end == EndOfContents(inQueue.data)
    {
      end := |inQueue.data| >= 2 && inQueue.data[0] == 0 && inQueue.data[1] == 0;
    }

    /** No more than is asked for, than there is, and, with a definite length, than is left of it. */
    method TransferTo(target: ByteQueue, transferBytes: nat)
      requires target != inQueue
      modifies this`length, inQueue, target
      ensures var wanted := if definiteLength && transferBytes > old(length) then old(length) else transferBytes;
              var n := if wanted <= |old(inQueue.data)| then wanted else |old(inQueue.data)|;
              && target.data == old(target.data) + old(inQueue.data)[..n] && inQueue.data == old(inQueue.data)[n..]
              && length == if definiteLength then old(length) - n else old(length)
    {
      var n := if definiteLength && transferBytes > length then length else transferBytes;
      n := if n <= |inQueue.data| then n else |inQueue.data|;
      target.Put(inQueue.data[..n]);
      inQueue.data := inQueue.data[n..];
      if definiteLength {
        length := length - n;
      }
    }

    method MessageEnd() returns (ok: bool)
      modifies inQueue
      ensures ok <==> if definiteLength then length == 0 else EndOfContents(old(inQueue.data))
      ensures ok ==> inQueue.data == if definiteLength then old(inQueue.data) else old(inQueue.data)[2..]
    {
      if definiteLength {
        return length == 0;
      }
      ok := EndOfContents(inQueue.data);
      if ok {
        inQueue.data := inQueue.data[2..];
      }
    }
  }

  /** Children already parsed, then the rest. */
  ghost function Prepend(ts: seq<Ber>, r: ParseResult<seq<Ber>>): (r': ParseResult<seq<Ber>>) {
    match r
    case Malformed => Malformed
    case Parsed(ts', rest) => Parsed(ts + ts', rest)
  }

  lemma {:induction false} NextChild(ts: seq<Ber>, s: seq<byte>)
    requires !EndOfContents(s)
    ensures Prepend(ts, ParseChildren(s))
            == if Parse(s).Parsed? then Prepend(ts + [Parse(s).value], ParseChildren(Parse(s).rest)) else Malformed
  {
    hide Parse;
    if Parse(s).Parsed? {
      var r := ParseChildren(Parse(s).rest);
      if r.Parsed? {
        assert ts + ([Parse(s).value] + r.value) == ts + [Parse(s).value] + r.value;
      }
    }
  }

  /** The children of an indefinite object, rewritten into the encoder's queue. */
  method ReencodeChildren(source: ByteQueue, encoder: ByteQueue, decoder: GeneralDecoder)
      returns (ok: bool, ghost ts: seq<Ber>)
    requires source != encoder && decoder.inQueue == source && !decoder.definiteLength && encoder.data == []
    modifies source, encoder
    ensures ok <==> ParseChildren(old(source.data)).Parsed?
    ensures ok ==> EndOfContents(source.data) && ParseChildren(old(source.data)) == Parsed(ts, source.data[2..])
    ensures ok ==> encoder.data == DerAll(ts)
    decreases |source.data|, 1
  {
    hide Parse, DerAll, Der;
    ghost var start := source.data;
    ts := [];
    DerAllNone();
    PrependNone(ParseChildren(start));
    var end := decoder.EndReached();
    while !end
      invariant end == EndOfContents(source.data) && |source.data| <= |start|
      invariant Prepend(ts, ParseChildren(source.data)) == ParseChildren(start)
      invariant encoder.data == DerAll(ts)
      decreases |source.data|
    {
      NextChild(ts, source.data);
      ghost var s := source.data;
      ok := DERReencode(source, encoder);
      if !ok {
        return;
      }
      DerAllAdded(ts, Parse(s).value);
      ts := ts + [Parse(s).value];
      end := decoder.EndReached();
    }
    ok := true;
    assert ts + [] == ts;
  }

  lemma {:induction false} DerAllNone()
    ensures DerAll([]) == []
  {
  }

  lemma {:induction false} PrependNone(r: ParseResult<seq<Ber>>)
    ensures Prepend([], r) == r
  {
    if r.Parsed? {
      assert [] + r.value == r.value;
    }
  }

  /** `DERReencode`: one object read from `source`, its rewritten form appended to `dest`. */
  method DERReencode(source: ByteQueue, dest: ByteQueue) returns (ok: bool)
    requires source != dest
    modifies source, dest
    ensures ok <==> Parse(old(source.data)).Parsed?
    ensures ok ==> source.data == Parse(old(source.data)).rest && |source.data| < |old(source.data)|
    ensures ok ==> dest.data == old(dest.data) + Der(Parse(old(source.data)).value)
    decreases |source.data|, 0
  {
    hide DecodeLength, DerLength, ParseChildren, DerAll, Parse, DerContents, Constructed;
    ghost var s := source.data;
    ParseByHeader(s);
    var tag := if source.data != [] then source.data[0] else 0;
    var decoder := new GeneralDecoder(source);
    ok := decoder.Init(tag);
    if !ok {
      return;
    }
    RestIsShorter(s[1..]);
    var encoder := new ByteQueue();
    if decoder.definiteLength {
      decoder.TransferTo(encoder, decoder.length);
    } else {
      ghost var ts;
      ok, ts := ReencodeChildren(source, encoder, decoder);
      if !ok {
        return;
      }
    }
    ok := decoder.MessageEnd();
    if !ok {
      return;
    }
    WriteObject(dest, tag, encoder.data);
    TagKept(s);
  }

  /** `DERGeneralEncoder::MessageEnd`. */
  method WriteObject(outQueue: ByteQueue, asnTag: byte, contents: seq<byte>)
    modifies outQueue
    ensures outQueue.data == old(outQueue.data) + ([asnTag] + DerLength(|contents|) + contents)
  {
    hide DerLength;
    outQueue.Put([asnTag]);
    var i := DERLengthEncode(outQueue, |contents|);
    outQueue.Put(contents);
  }

  lemma {:induction false} TagKept(s: seq<byte>)
    requires Parse(s).Parsed?
    ensures s != [] && Parse(s).value.tag == s[0]
  {
    hide DecodeLength, ParseChildren;
  }

  /** One object is there exactly when its header is and its contents are. */
  lemma {:induction false} ParseByHeader(s: seq<byte>)
    ensures s == [] ==> Parse(s).Malformed?
    ensures s != [] ==>
              var d := DecodeLength(s[1..]);
              match d.form
              case Truncated => Parse(s).Malformed?
              case Overflow => Parse(s).Malformed?
              case Definite(n) =>
                if |d.rest| < n then Parse(s).Malformed?
                else Parse(s).Parsed? && Parse(s).rest == d.rest[n..] && DerContents(Parse(s).value) == d.rest[..n]
              case Indefinite =>
                var r := ParseChildren(d.rest);
                if !Constructed(s[0]) || r.Malformed? then Parse(s).Malformed?
                else Parse(s).Parsed? && Parse(s).rest == r.rest && DerContents(Parse(s).value) == DerAll(r.value)
  {
    hide DecodeLength, ParseChildren, DerAll;
  }
}
