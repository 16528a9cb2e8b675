/** `BaseN_Decoder` of `basecode.cpp`: characters back to octets, skipping what is not in the alphabet. */
module BaseNDecoder {
  import opened Numbers
  import opened Bytes
  import opened BitStrings
  import opened BaseN
  import opened BitBuffer

  /** The least multiple of `b` from `i` on that is a multiple of 8. */
  function StepMultiple(b: nat, i: nat): (r: nat)
    requires 1 <= b && i % b == 0 && 1 <= i <= 8 * b
    ensures i <= r <= 8 * b && r % 8 == 0 && r % b == 0
    decreases 8 * b - i
  {
    if i % 8 == 0 then i
    else
      NextMultiple(b, i);
      StepMultiple(b, i + b)
  }

  lemma {:induction false} NextMultiple(b: nat, i: nat)
    requires 1 <= b && i % b == 0 && i <= 8 * b && i % 8 != 0
    ensures (i + b) % b == 0 && i + b <= 8 * b
  {
    var q := i / b;
    assert i == q * b;
    assert i + b == (q + 1) * b + 0;
    DivUnique(i + b, b, q + 1, 0);
    FewerSteps(q, 8, b);
  }

  lemma {:induction false} FewerSteps(q: nat, n: nat, b: nat)
    requires q * b < n * b
    ensures q < n && (q + 1) * b <= n * b
  {
    assert q * b - n * b == (q - n) * b;
    if q >= n {
      assert false;
    }
    assert n * b == (q + 1) * b + (n - q - 1) * b;
  }

  /** The current octet is replaced: its bits so far by the bits `u`. */
  lemma {:induction false} OctetReplaced(buf: seq<nat>, bytePos: nat, bitPos: nat, r: seq<bool>, d: nat, u: seq<bool>)
    requires Holds(buf, 8, bytePos, bitPos, r) && bytePos < |buf| && |u| <= 8 && d < 256
    requires ToBits(d, 8) == u + Falses(8 - |u|)
    ensures var r' := r[..|r| - bitPos] + u;
            if |u| == 8 then Holds(buf[bytePos := d], 8, bytePos + 1, 0, r')
            else Holds(buf[bytePos := d], 8, bytePos, |u|, r')
  {
    hide ToBits, Shl, Unpack;
    var empty, front := buf[bytePos := 0], r[..|r| - bitPos];
    Shl8(1);
    ToBitsZero(8);
    assert empty[..bytePos] == buf[..bytePos] && front[|front|..] == [] && [] + Falses(8) == Falses(8);
    assert front == Unpack(buf[..bytePos], 8);
    assert Holds(empty, 8, bytePos, 0, front);
    assert empty[bytePos := d] == buf[bytePos := d];
    assert [] + u == u && u + Falses(0) == u;
    if |u| == 8 {
      DigitFilled(empty, 8, bytePos, 0, front, d, u);
    } else {
      DigitExtended(empty, 8, bytePos, 0, front, d, u);
    }
  }

  /** Or-ing acts bit by bit. */
  lemma {:induction false} OctetOr(x: nat, y: nat)
    ensures Or(x, y) % 256 < 256 && ToBits(Or(x, y) % 256, 8) == OrBits(ToBits(x, 8), ToBits(y, 8))
  {
    hide ToBits, Or;
    ToBitsByte(Or(x, y));
    forall i: nat | i < 8 ensures ToBits(Or(x, y), 8)[i] == OrBits(ToBits(x, 8), ToBits(y, 8))[i] {
      ToBitsOr(x, y, 8, i);
    }
  }

  /** A value that fits into the current octet. */
  lemma {:induction false} ShortValue(buf: seq<nat>, bytePos: nat, bitPos: nat, r: seq<bool>, value: nat, b: nat)
    requires Holds(buf, 8, bytePos, bitPos, r) && bytePos < |buf| && b >= 1 && bitPos + b <= 8
    ensures var d := Or(buf[bytePos], Shl(value, 8 - bitPos - b)) % 256;
            if bitPos + b == 8 then Holds(buf[bytePos := d], 8, bytePos + 1, 0, Overlaid(r, value, b))
            else Holds(buf[bytePos := d], 8, bytePos, bitPos + b, Overlaid(r, value, b))
  {
    hide ToBits, Shl, Or, Holds;
    HoldsFacts(buf, 8, bytePos, bitPos, r);
    HoldsLength(buf, 8, bytePos, bitPos, r);
    var rest := 8 - bitPos - b;
    var part, y := r[|r| - bitPos..], Shl(value, rest);
    var u := OrBits(part + Falses(b), ToBits(value, bitPos + b));
    OctetOr(buf[bytePos], y);
    ToBitsShl(value, rest, 8);
    assert OrBits(part + Falses(8 - bitPos), ToBits(value, bitPos + b) + Falses(rest)) == u + Falses(rest);
    OctetReplaced(buf, bytePos, bitPos, r, Or(buf[bytePos], y) % 256, u);
  }

  /** A value that spills over: its top bits complete the current octet, the rest start the next. */
  lemma {:induction false} LongValue(buf: seq<nat>, bytePos: nat, bitPos: nat, r: seq<bool>, value: nat, b: nat)
    requires Holds(buf, 8, bytePos, bitPos, r) && bytePos + 1 < |buf| && b <= 7 && bitPos + b > 8
    ensures var spill := bitPos + b - 8;
            var buf' := buf[bytePos := Or(buf[bytePos], Shr(value, spill)) % 256];
            Holds(buf'[bytePos + 1 := Or(buf'[bytePos + 1], Shl(value, 8 - spill)) % 256],
                  8, bytePos + 1, spill, Overlaid(r, value, b))
  {
    hide ToBits, Shl, Shr, Or, Holds;
    HoldsFacts(buf, 8, bytePos, bitPos, r);
    HoldsLength(buf, 8, bytePos, bitPos, r);
    var spill, part, v := bitPos + b - 8, r[|r| - bitPos..], ToBits(value, bitPos + b);
    var u := OrBits(part + Falses(b), v);
    var d := Or(buf[bytePos], Shr(value, spill)) % 256;
    OctetOr(buf[bytePos], Shr(value, spill));
    ToBitsShr(value, spill, bitPos + b);
    assert OrBits(part + Falses(8 - bitPos), v[..8]) == u[..8] && u[..8] + Falses(0) == u[..8];
    OctetReplaced(buf, bytePos, bitPos, r, d, u[..8]);
    NextIsZero(buf, bytePos, bitPos, r);
    SpillValue(value, spill);
    ToBitsSuffix(value, 8, bitPos + b);
    assert u[8..] == v[8..];
    var front := r[..|r| - bitPos];
    OctetReplaced(buf[bytePos := d], bytePos + 1, 0, front + u[..8], Or(0, Shl(value, 8 - spill)) % 256, v[8..]);
    assert (front + u[..8])[..|front| + 8] + u[8..] == front + u;
  }

  lemma {:induction false} NextIsZero(buf: seq<nat>, bytePos: nat, bitPos: nat, r: seq<bool>)
    requires Holds(buf, 8, bytePos, bitPos, r) && bytePos + 1 < |buf|
    ensures buf[bytePos + 1] == 0
  {
  }

  lemma {:induction false} SpillValue(value: nat, spill: nat)
    requires spill <= 8
    ensures ToBits(Or(0, Shl(value, 8 - spill)) % 256, 8) == ToBits(value, spill) + Falses(8 - spill)
  {
    hide ToBits, Shl, Or;
    OrZero(Shl(value, 8 - spill));
    ToBitsByte(Shl(value, 8 - spill));
    ToBitsShl(value, 8 - spill, 8);
  }

  lemma {:induction false} OrZero(z: nat)
    ensures Or(0, z) == z
  {
    if z > 0 {
      OrZero(z / 2);
    }
  }

  class Decoder {
    const lookup: seq<int>
    const bitsPerChar: nat
    const blockSize: nat
    const outBuf: array<byte>
    var bytePos: nat
    var bitPos: nat
    var output: seq<byte>
    ghost const blockChars: nat    // characters in a full buffer
    ghost var before: seq<byte>    // output before this message
    ghost var message: seq<byte>   // the characters of this message so far
    ghost var sent: seq<byte>      // the octets of this message already passed on
    ghost var held: nat            // the values whose bits are still in the buffer
    ghost var bits: seq<bool>      // those bits

    ghost predicate Configured()
    {
      && 1 <= bitsPerChar <= 7 && |lookup| == 256
      && blockSize >= 1 && outBuf.Length == blockSize && blockSize * 8 == blockChars * bitsPerChar
    }

    ghost predicate Loaded(r: seq<bool>)
      reads this, outBuf
    {
      Holds(outBuf[..], 8, bytePos, bitPos, r)
    }

    ghost predicate Valid()
      reads this, outBuf
    {
      && Configured()
      && Merged(Values(lookup, message), bitsPerChar) == Unpack(sent, 8) + bits
      && output == before + sent && |bits| == held * bitsPerChar && held < blockChars
      && (bytePos == 0 && bitPos == 0 ==> bits == [])
      && (bytePos > 0 || bitPos > 0 ==> Loaded(bits))
    }

    constructor (lookup: seq<int>, log2Base: nat)
      requires 1 <= log2Base <= 7 && |lookup| == 256
      ensures Valid() && message == [] && before == output == [] && fresh(outBuf)
      ensures this.lookup == lookup && bitsPerChar == log2Base
    {
      hide Shl, Holds;
      this.lookup, bitsPerChar := lookup, log2Base;
      bytePos, bitPos, output := 0, 0, [];
      before, message, sent, held, bits := [], [], [], 0, [];
      UnpackNone(8);
      DivUnique(log2Base, log2Base, 1, 0);
      var i := StepMultiple(log2Base, log2Base);
      assert i / 8 * 8 == i && (i / log2Base) * log2Base == i;
      FullBlock(i, log2Base);
      blockSize := i / 8;
      outBuf := new byte[i / 8];
      blockChars := i / log2Base;
    }

    /** One accepted value goes into the buffer. */
    method PutValue(value: nat, ghost r: seq<bool>)
      requires Configured() && Loaded(r) && |r| + bitsPerChar <= blockSize * 8
      modifies this`bytePos, this`bitPos, outBuf
      ensures Loaded(Overlaid(r, value, bitsPerChar))
    {
      hide ToBits, Shl, Shr, Or, Holds;
      ghost var buf := outBuf[..];
      HoldsLength(buf, 8, bytePos, bitPos, r);
      HoldsBound(buf, bytePos, bitPos, r);
      var newBitPos := bitPos + bitsPerChar;
      if newBitPos <= 8 {
        ShortValue(buf, bytePos, bitPos, r, value, bitsPerChar);
        outBuf[bytePos] := Or(outBuf[bytePos], Shl(value, 8 - newBitPos)) % 256;
        assert outBuf[..] == buf[bytePos := outBuf[bytePos]];
      } else {
        LongValue(buf, bytePos, bitPos, r, value, bitsPerChar);
        outBuf[bytePos] := Or(outBuf[bytePos], Shr(value, newBitPos - 8)) % 256;
        ghost var buf' := buf[bytePos := outBuf[bytePos]];
        outBuf[bytePos + 1] := Or(outBuf[bytePos + 1], Shl(value, 16 - newBitPos)) % 256;
        assert outBuf[..] == buf'[bytePos + 1 := outBuf[bytePos + 1]];
      }
      bitPos := newBitPos;
      if bitPos >= 8 {
        bitPos, bytePos := bitPos - 8, bytePos + 1;
      }
    }

    /** One character of `Put2`: characters without a value are skipped. */
    method PutOne(c: byte)
      requires Valid()
      modifies this, outBuf
      ensures Valid() && message == old(message) + [c] && before == old(before)
    {
      hide Merged, Holds, Unpack, Values, Overlaid;
      ValuesOfOne(lookup, message, c);
      var value := lookup[c];
      assert Skipped(lookup, c) <==> value < 0 || value >= 256;
      if value < 0 || value >= 256 {
        message := message + [c];
      } else {
        MergedAdded(Values(lookup, message), value, bitsPerChar);
        AcceptValue(value, message + [c]);
      }
    }

    /** An accepted value goes into the buffer, and a full buffer is passed on. */
    method AcceptValue(value: nat, ghost message': seq<byte>)
      requires Valid()
      requires Merged(Values(lookup, message'), bitsPerChar)
               == Overlaid(Merged(Values(lookup, message), bitsPerChar), value, bitsPerChar)
      modifies this, outBuf
      ensures Valid() && message == message' && before == old(before)
    {
      hide Merged, Holds, Unpack, Values, Skipped, Overlaid;
      if bytePos == 0 && bitPos == 0 {
        forall i | 0 <= i < outBuf.Length { outBuf[i] := 0; }
        HoldsNothing(outBuf[..], 8);
      }
      RoomForOne(held, blockChars, bitsPerChar);
      PutValue(value, bits);
      UnpackLength(sent, 8);
      OverlaidBehind(Unpack(sent, 8), bits, value, bitsPerChar);
      message, held, bits := message', held + 1, Overlaid(bits, value, bitsPerChar);
      OneMore(held, bitsPerChar);
      BufferFull(outBuf[..], bytePos, bitPos, bits, held, bitsPerChar, blockChars);
      if bytePos == blockSize {
        PassOnBlock();
      }
    }

    method PassOnBlock()
      requires Configured() && bytePos == blockSize && output == before + sent && Unpack(outBuf[..bytePos], 8) == bits
      requires Merged(Values(lookup, message), bitsPerChar) == Unpack(sent, 8) + bits
      modifies this`output, this`sent, this`held, this`bits, this`bytePos, this`bitPos
      ensures Valid()
    {
      hide Merged, Holds, Unpack, Values, Skipped;
      assert outBuf[..bytePos] == outBuf[..];
      output := output + outBuf[..];
      UnpackSplit(sent, outBuf[..], 8);
      sent, held, bits := sent + outBuf[..], 0, [];
      FullBlockHasRoom(blockSize, blockChars, bitsPerChar);
      bytePos, bitPos := 0, 0;
    }

    /** `Put2`: any chunk of text, and at the end of a message the octets completed so far. */
    method Put2(begin: seq<byte>, messageEnd: bool)
      requires Valid()
      modifies this, outBuf
      ensures Valid()
      ensures !messageEnd ==> message == old(message) + begin && before == old(before)
      ensures messageEnd ==>
                && output == old(before) + Decoded(lookup, bitsPerChar, old(message) + begin)
                && before == output && message == []
    {
      hide Valid, Decoded;
      var inputPosition := 0;
      while inputPosition < |begin|
        invariant 0 <= inputPosition <= |begin| && Valid()
        invariant message == old(message) + begin[..inputPosition] && before == old(before)
      {
        PutOne(begin[inputPosition]);
        inputPosition := inputPosition + 1;
      }
      assert begin[..inputPosition] == begin;
      if messageEnd {
        EndMessage();
      }
    }

    method EndMessage()
      requires Valid()
      modifies this
      ensures Valid() && before == output && message == []
      ensures output == old(before) + Decoded(lookup, bitsPerChar, old(message))
    {
      hide Merged, Holds, Unpack, Octets, Skipped;
      LastOctets(outBuf[..], bytePos, bitPos, bits);
      ghost var octets, part := outBuf[..bytePos], bits[8 * bytePos..];
      assert outBuf[..][..bytePos] == octets;
      UnpackSplit(sent, octets, 8);
      assert Merged(Values(lookup, message), bitsPerChar) == Unpack(sent + octets, 8) + part;
      OctetsOfBits(sent + octets, part);
      output := output + outBuf[..bytePos];
      bytePos, bitPos := 0, 0;
      before, message, sent, held, bits := output, [], [], 0, [];
      UnpackNone(8);
      MergedNone(bitsPerChar);
    }
  }

  lemma {:induction false} MergedNone(b: nat)
    ensures Merged([], b) == []
  {
  }

  lemma {:induction false} OneMore(n: nat, b: nat)
    requires n >= 1
    ensures (n - 1) * b + b == n * b
  {
  }

  lemma {:induction false} HoldsBound(buf: seq<nat>, bytePos: nat, bitPos: nat, r: seq<bool>)
    requires Holds(buf, 8, bytePos, bitPos, r)
    ensures bytePos <= |buf| && bitPos < 8
  {
  }

  lemma {:induction false} FullBlock(i: nat, b: nat)
    requires b >= 1 && i >= 1 && i % 8 == 0 && i % b == 0
    ensures i / 8 >= 1 && i / b >= 1
  {
    assert i == (i / b) * b + i % b;
    if i / b == 0 {
      assert false;
    }
  }

  lemma {:induction false} ValuesOfOne(lookup: seq<int>, text: seq<byte>, c: byte)
    requires |lookup| == 256
    ensures Values(lookup, text + [c])
            == (if Skipped(lookup, c) then Values(lookup, text) else Values(lookup, text) + [lookup[c]])
  {
    assert Values(lookup, text) + [] == Values(lookup, text);
    assert (text + [c])[..|text|] == text;
  }

  lemma {:induction false} MergedAdded(values: seq<nat>, v: nat, b: nat)
    ensures Merged(values + [v], b) == Overlaid(Merged(values, b), v, b)
  {
    assert (values + [v])[..|values|] == values;
  }

  lemma {:induction false} RoomForOne(n: nat, m: nat, b: nat)
    requires n < m
    ensures n * b + b <= m * b
  {
    assert m * b == n * b + b + (m - n - 1) * b;
  }

  lemma {:induction false} FullBlockHasRoom(blockSize: nat, blockChars: nat, b: nat)
    requires blockSize >= 1 && blockSize * 8 == blockChars * b
    ensures blockChars >= 1
  {
    if blockChars == 0 {
      assert false;
    }
  }

  /** The buffer is full exactly when it holds as many values as a block of characters. */
  lemma {:induction false} BufferFull(buf: seq<byte>, bytePos: nat, bitPos: nat, r: seq<bool>, held: nat, b: nat,
                                      blockChars: nat)
    requires held >= 1 && b >= 1 && |buf| * 8 == blockChars * b && |r| == held * b && Holds(buf, 8, bytePos, bitPos, r)
    ensures bytePos > 0 || bitPos > 0
    ensures bytePos < |buf| ==> held < blockChars
    ensures bytePos >= |buf| ==> bytePos == |buf| && Unpack(buf[..bytePos], 8) == r
  {
    hide Unpack, Shl, ToBits;
    HoldsLength(buf, 8, bytePos, bitPos, r);
    MulAtLeast(held, b);
    if bytePos < |buf| {
      FewerSteps(held, blockChars, b);
    } else {
      assert r[|r|..] == [];
    }
  }

  /** Whole octets, and fewer than eight bits that are dropped. */
  lemma {:induction false} LastOctets(buf: seq<byte>, bytePos: nat, bitPos: nat, r: seq<bool>)
    requires |buf| >= 1 && (bytePos == 0 && bitPos == 0 ==> r == [])
    requires bytePos > 0 || bitPos > 0 ==> Holds(buf, 8, bytePos, bitPos, r)
    ensures bytePos <= |buf| && 8 * bytePos <= |r| < 8 * bytePos + 8
    ensures r == Unpack(buf[..bytePos], 8) + r[8 * bytePos..]
  {
    hide Unpack, Shl, ToBits;
    if bytePos == 0 && bitPos == 0 {
      UnpackNone(8);
      assert buf[..0] == [];
    } else {
      HoldsLength(buf, 8, bytePos, bitPos, r);
    }
  }
}
