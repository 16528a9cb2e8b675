/** `BaseN_Encoder` of `basecode.cpp`: bit repacking one input octet at a time. */
module BaseNEncoder {
  import opened Numbers
  import opened Bytes
  import opened BitStrings
  import opened BaseN
  import opened BitBuffer

  /** The bits a block of digits holds. */
  ghost function Capacity(digits: nat, b: nat): (bits: nat) {
    digits * b
  }

  ghost predicate WholeBlocks(n: nat, blockSize: nat) {
    blockSize >= 1 && n % blockSize == 0
  }

  /** The bits or-ed into the current digit are the next bits of the source octet. */
  lemma {:induction false} OrNextBits(x: nat, v: nat, b: nat, bitPos: nat, part: seq<bool>)
    requires b <= 8 && bitPos < b && |part| == bitPos && x < Shl(1, b) && ToBits(x, b) == part + Falses(b - bitPos)
             && v < 256
    ensures var d := Or(x, Shr(v, 8 - (b - bitPos)));
            d < Shl(1, b) && ToBits(d, b) == part + ToBits(v, 8)[..b - bitPos]
  {
    hide ToBits, Shl, Shr, Or;
    var target := b - bitPos;
    var y := Shr(v, 8 - target);
    ToBitsShr(v, 8 - target, 8);
    ShlShl(1, target, 8 - target);
    Shl8(1);
    ShrBelow(v, Shl(1, target), 8 - target);
    OrAppends(x, y, part, target, b);
    ShlOneMonotone(target, b);
    OrBound(x, y, b);
  }

  /** Shifting the source octet brings its next bits to the top. */
  lemma {:induction false} ShiftSource(v: nat, k: nat, s: seq<bool>)
    requires k <= |s| <= 8 && ToBits(v, 8) == s + Falses(8 - |s|)
    ensures ToBits(Shl(v, k) % 256, 8) == s[k..] + Falses(8 - |s| + k)
  {
    hide ToBits, Shl;
    ToBitsByte(Shl(v, k));
    ToBitsShl(v, k, 8);
    ToBitsSuffix(v, k, 8);
    assert (s + Falses(8 - |s|))[k..] == s[k..] + Falses(8 - |s|);
    assert s[k..] + Falses(8 - |s|) + Falses(k) == s[k..] + Falses(8 - |s| + k);
  }

  class Encoder {
    const alphabet: seq<byte>
    const bitsPerChar: nat
    const padding: int
    const blockSize: nat
    const outBuf: array<nat>
    var bytePos: nat
    var bitPos: nat
    var output: seq<byte>          // everything passed on to the attached filter
    ghost var before: seq<byte>    // what was passed on before this message
    ghost var message: seq<byte>   // the octets of this message so far
    ghost var sent: seq<nat>       // the digits of this message already passed on
    ghost var pending: seq<bool>   // the bits of this message still in the buffer

    ghost predicate Configured()
    {
      && 1 <= bitsPerChar <= 7 && Shl(1, bitsPerChar) <= |alphabet| && -1 <= padding < 256
      && blockSize >= 1 && outBuf.Length == blockSize
      && Capacity(blockSize, bitsPerChar) == CommonMultiple(bitsPerChar, 8)
    }

    ghost predicate Loaded(r: seq<bool>)
      reads this, outBuf
    {
      Holds(outBuf[..], bitsPerChar, bytePos, bitPos, r)
    }

    ghost predicate Valid()
      reads this, outBuf
    {
      && Configured()
      && Unpack(message, 8) == Unpack(sent, bitsPerChar) + pending
      && AllBelow(sent, Shl(1, bitsPerChar)) && WholeBlocks(|sent|, blockSize)
      && output == before + MapAlphabet(alphabet, sent)
      && |pending| % 8 == 0 && |pending| < Capacity(blockSize, bitsPerChar)
      && (bytePos == 0 ==> bitPos == 0 && pending == [])
      && (bytePos > 0 ==> Loaded(pending))
    }

    /** `IsolatedInitialize`, once its parameters are in range. */
    constructor (alphabet: seq<byte>, log2Base: nat, padding: int)
      requires 1 <= log2Base <= 7 && Shl(1, log2Base) <= |alphabet| && -1 <= padding < 256
      ensures Valid() && message == [] && before == output == [] && fresh(outBuf)
      ensures this.alphabet == alphabet && bitsPerChar == log2Base && this.padding == padding
      ensures blockSize == CharsPerBlock(log2Base)
    {
      hide Shl, CommonMultiple, Holds, Unpack, Capacity;
      BlockSizeOf(log2Base);
      this.alphabet, bitsPerChar, this.padding := alphabet, log2Base, padding;
      bytePos, bitPos, output := 0, 0, [];
      before, message, sent, pending := [], [], [], [];
      var i := CommonMultiple(log2Base, 8);
      BlockOfBits(i, log2Base);
      EmptyEncoder(log2Base, i / log2Base, alphabet);
      blockSize := i / log2Base;
      outBuf := new nat[i / log2Base];
    }

    /** The inner loop of `Put2`: one source octet goes into the current digits. */
    method PutOctet(octet: byte, ghost r: seq<bool>)
      requires Configured() && Loaded(r) && |r| + 8 <= Capacity(blockSize, bitsPerChar)
      modifies this`bytePos, this`bitPos, outBuf
      ensures Loaded(r + ToBits(octet, 8))
    {
      hide ToBits, Shl, Shr, Or, Holds;
      var v: nat, bitsLeftInSource: nat := octet, 8;
      ghost var cur, s := r, ToBits(octet, 8);
      assert s + Falses(0) == s;
      while true
        invariant 1 <= bitsLeftInSource == |s| <= 8 && v < 256 && Configured()
        invariant Loaded(cur) && cur + s == r + ToBits(octet, 8)
        invariant ToBits(v, 8) == s + Falses(8 - |s|)
        decreases bitsLeftInSource
      {
        ghost var buf := outBuf[..];
        TakeBits(buf, bitsPerChar, bytePos, bitPos, cur, v, s);
        var target := bitsPerChar - bitPos;
        outBuf[bytePos] := Or(outBuf[bytePos], Shr(v, 8 - target));
        assert outBuf[..] == buf[bytePos := outBuf[bytePos]];
        if bitsLeftInSource >= target {
          bitPos, bytePos, bitsLeftInSource := 0, bytePos + 1, bitsLeftInSource - target;
          cur, s := cur + s[..target], s[target..];
          if bitsLeftInSource == 0 {
            assert cur == r + ToBits(octet, 8);
            return;
          }
          v := Shl(v, target) % 256;
        } else {
          bitPos := bitPos + bitsLeftInSource;
          return;
        }
      }
    }

    /** Digits become characters of the alphabet, in place. */
    method MapBuffer(count: nat)
      requires count <= outBuf.Length && AllBelow(outBuf[..count], |alphabet|)
      modifies outBuf
      ensures outBuf[..count] == MapAlphabet(alphabet, old(outBuf[..count]))
      ensures outBuf[count..] == old(outBuf[count..])
    {
      ghost var was := outBuf[..];
      var i := 0;
      while i < count
        invariant 0 <= i <= count && outBuf[i..] == was[i..]
        invariant forall k :: 0 <= k < i ==> outBuf[k] == alphabet[was[k]]
      {
        assert outBuf[i] == outBuf[i..][0] == was[i] == was[..count][i];
        outBuf[i] := alphabet[outBuf[i]];
        assert outBuf[i + 1..] == was[i + 1..];
        i := i + 1;
      }
      assert was[..count] == old(outBuf[..count]);
    }

    /** The octet goes into the buffer, which is cleared first when it is empty. */
    method LoadOctet(octet: byte)
      requires Valid()
      modifies this`bytePos, this`bitPos, outBuf
      ensures Loaded(pending + ToBits(octet, 8))
    {
      hide ToBits, Shl, Holds, Unpack, CommonMultiple, MapAlphabet, AllBelow, Capacity, WholeBlocks;
      if bytePos == 0 {
        forall i | 0 <= i < outBuf.Length { outBuf[i] := 0; }
        HoldsNothing(outBuf[..], bitsPerChar);
      }
      BlockIsOctets(bitsPerChar);
      PutOctet(octet, pending);
    }

    /** One octet of `Put2`. */
    method PutOne(octet: byte)
      requires Valid()
      modifies this, outBuf
      ensures Valid() && message == old(message) + [octet] && before == old(before)
    {
      hide ToBits, Shl, Holds, Unpack, MapAlphabet, AllBelow, Configured, Capacity, WholeBlocks;
      LoadOctet(octet);
      UnpackSplit(message, [octet], 8);
      UnpackOne(octet, 8);
      message := message + [octet];
      pending := pending + ToBits(octet, 8);
      Settle();
    }

    /** A full block of digits is passed on at once. */
    method Settle()
      requires Configured() && Loaded(pending) && |pending| >= 8 && |pending| % 8 == 0
      requires Unpack(message, 8) == Unpack(sent, bitsPerChar) + pending
      requires AllBelow(sent, Shl(1, bitsPerChar)) && WholeBlocks(|sent|, blockSize)
               && output == before + MapAlphabet(alphabet, sent)
      modifies this`output, this`sent, this`pending, this`bytePos, this`bitPos, outBuf
      ensures Valid()
    {
      hide ToBits, Shl, Holds, Unpack, MapAlphabet, AllBelow, CommonMultiple, Capacity, WholeBlocks;
      HoldsSpace(outBuf[..], bitsPerChar, bytePos, bitPos, pending);
      assert outBuf[..][..bytePos] == outBuf[..bytePos];
      if bytePos == blockSize {
        PassOnBlock();
      }
    }

    /** The buffer is full: its digits are mapped and passed on. */
    method PassOnBlock()
      requires Configured() && bytePos == blockSize && AllBelow(outBuf[..bytePos], Shl(1, bitsPerChar))
      requires Unpack(message, 8) == Unpack(sent, bitsPerChar) + Unpack(outBuf[..bytePos], bitsPerChar)
      requires AllBelow(sent, Shl(1, bitsPerChar)) && WholeBlocks(|sent|, blockSize)
               && output == before + MapAlphabet(alphabet, sent)
      modifies this`output, this`sent, this`pending, this`bytePos, this`bitPos, outBuf
      ensures Valid()
    {
      hide Shl, Unpack, CommonMultiple, MapAlphabet, Holds;
      ghost var digits := outBuf[..];
      assert outBuf[..bytePos] == digits;
      MapBuffer(bytePos);
      assert outBuf[..bytePos] == outBuf[..];
      output := output + outBuf[..];
      MapSplit(alphabet, sent, digits);
      UnpackSplit(sent, digits, bitsPerChar);
      MoreBlocks(|sent|, blockSize);
      sent, pending := sent + digits, [];
      bytePos, bitPos := 0, 0;
    }

    /** `Put2`: any chunk of input, and at the end of a message the rest of the text. */
    method Put2(begin: seq<byte>, messageEnd: bool)
      requires Valid()
      modifies this, outBuf
      ensures Valid()
      ensures !messageEnd ==> message == old(message) + begin && before == old(before)
      ensures messageEnd ==>
                && output == old(before) + Encoded(alphabet, bitsPerChar, blockSize, padding, old(message) + begin)
                && before == output && message == []
    {
      hide Valid, Encoded;
      var inputPosition := 0;
      while inputPosition < |begin|
        invariant 0 <= inputPosition <= |begin| && Valid()
        invariant message == old(message) + begin[..inputPosition] && before == old(before)
      {
        PutOne(begin[inputPosition]);
        inputPosition := inputPosition + 1;
      }
      assert begin[..inputPosition] == begin;
      if messageEnd {
        EndMessage();
      }
    }

    method EndMessage()
      requires Valid()
      modifies this, outBuf
      ensures Valid() && before == output && message == []
      ensures output == old(before) + Encoded(alphabet, bitsPerChar, blockSize, padding, old(message))
    {
      hide Shl, ToBits, Holds, Unpack, CommonMultiple, MapAlphabet, Encoded;
      LastDigits(outBuf[..], bitsPerChar, bytePos, bitPos, pending);
      ghost var fill := if bitPos > 0 then bitsPerChar - bitPos else 0;
      if bitPos > 0 {
        bytePos := bytePos + 1;
      }
      ghost var digits := outBuf[..bytePos];
      assert outBuf[..][..bytePos] == digits;
      EncodedEnd(alphabet, bitsPerChar, blockSize, padding, message, sent, pending, digits, fill);
      var last := LastText();
      output := output + last;
      assert output == before + (MapAlphabet(alphabet, sent) + last);
      bytePos, bitPos := 0, 0;
      before, message, sent, pending := output, [], [], [];
      UnpackNone(8);
      UnpackNone(bitsPerChar);
      assert before + MapAlphabet(alphabet, []) == before;
    }

    /** The last digits mapped, and the block filled up with padding if there is any. */
    method LastText() returns (last: seq<byte>)
      requires Configured() && bytePos <= blockSize && AllBelow(outBuf[..bytePos], |alphabet|)
      modifies outBuf
      ensures last == MapAlphabet(alphabet, old(outBuf[..bytePos]))
                      + (if padding == -1 || bytePos == 0 then [] else Copies(padding, blockSize - bytePos))
    {
      hide Shl, CommonMultiple, MapAlphabet;
      ghost var text := MapAlphabet(alphabet, outBuf[..bytePos]);
      MapBuffer(bytePos);
      if padding != -1 && bytePos > 0 {
        forall i | bytePos <= i < blockSize { outBuf[i] := padding; }
        assert outBuf[..bytePos] == text;
        assert outBuf[..] == text + Copies(padding, blockSize - bytePos);
        last := outBuf[..];
      } else {
        assert text + [] == text;
        last := outBuf[..bytePos];
      }
    }
  }

  /** The digits passed on and the last ones together are the digits of the message. */
  lemma {:induction false} EncodedEnd(alphabet: seq<byte>, b: nat, blockSize: nat, padding: int, message: seq<byte>,
                                      sent: seq<nat>, pending: seq<bool>, digits: seq<nat>, fill: nat)
    requires b >= 1 && blockSize >= 1 && Shl(1, b) <= |alphabet| && -1 <= padding < 256
    requires Unpack(message, 8) == Unpack(sent, b) + pending && AllBelow(sent, Shl(1, b))
             && WholeBlocks(|sent|, blockSize)
    requires AllBelow(digits, Shl(1, b)) && |digits| <= blockSize && fill < b
             && Unpack(digits, b) == pending + Falses(fill)
    ensures AllBelow(digits, |alphabet|) && AllBelow(sent, |alphabet|)
    ensures MapAlphabet(alphabet, sent)
            + (MapAlphabet(alphabet, digits)
               + if padding == -1 || |digits| == 0 then [] else Copies(padding, blockSize - |digits|))
            == Encoded(alphabet, b, blockSize, padding, message)
  {
    hide Shl, Unpack, MapAlphabet, Pack;
    UnpackSplit(sent, digits, b);
    assert Unpack(sent, b) + (pending + Falses(fill)) == Unpack(message, 8) + Falses(fill);
    PackUnique(Unpack(message, 8), b, sent + digits, fill);
    MapSplit(alphabet, sent, digits);
    LastBlockSize(|sent|, |digits|, blockSize);
  }

  /** The digits left at the end of a message, the last one filled up with zeros. */
  lemma {:induction false} LastDigits(buf: seq<nat>, b: nat, bytePos: nat, bitPos: nat, r: seq<bool>)
    requires b >= 1 && |buf| >= 1 && |r| < Capacity(|buf|, b)
    requires bytePos == 0 ==> bitPos == 0 && r == []
    requires bytePos > 0 ==> Holds(buf, b, bytePos, bitPos, r)
    ensures bitPos < b && bytePos < |buf|
    ensures var n := if bitPos > 0 then bytePos + 1 else bytePos;
            var fill := if bitPos > 0 then b - bitPos else 0;
            Unpack(buf[..n], b) == r + Falses(fill) && AllBelow(buf[..n], Shl(1, b))
  {
    hide Shl, ToBits, Unpack;
    if bytePos == 0 {
      UnpackNone(b);
      assert buf[..0] == [] && r + Falses(0) == r;
    } else {
      RoomLeft(buf, b, bytePos, bitPos, r);
      var part := r[|r| - bitPos..];
      if bitPos > 0 {
        assert buf[..bytePos + 1] == buf[..bytePos] + [buf[bytePos]];
        UnpackSplit(buf[..bytePos], [buf[bytePos]], b);
        UnpackOne(buf[bytePos], b);
        assert Unpack(buf[..bytePos], b) + (part + Falses(b - bitPos)) == r + Falses(b - bitPos);
      } else {
        assert part == [] && r + Falses(0) == r;
      }
    }
  }

  lemma {:induction false} LastBlockSize(sent: nat, rest: nat, blockSize: nat)
    requires blockSize >= 1 && sent % blockSize == 0 && rest <= blockSize
    ensures rest < blockSize ==> (sent + rest) % blockSize == rest
    ensures rest == blockSize ==> (sent + rest) % blockSize == 0
  {
    var q := sent / blockSize;
    if rest < blockSize {
      DivUnique(sent + rest, blockSize, q, rest);
    } else {
      MoreBlocks(sent, blockSize);
    }
  }

  lemma {:induction false} BlockSizeOf(b: nat)
    requires 1 <= b <= 7
    ensures CommonMultiple(b, 8) / b == CharsPerBlock(b)
  {
    hide CommonMultiple;
    BlockIsLeast(b);
  }

  lemma {:induction false} MoreBlocks(n: nat, blockSize: nat)
    requires blockSize >= 1 && n % blockSize == 0
    ensures (n + blockSize) % blockSize == 0
  {
    var q := n / blockSize;
    assert n + blockSize == (q + 1) * blockSize + 0;
    DivUnique(n + blockSize, blockSize, q + 1, 0);
  }

  lemma {:induction false} BlockIsOctets(b: nat)
    requires b >= 1
    ensures CommonMultiple(b, 8) % 8 == 0
  {
  }

  lemma {:induction false} MapSplit(alphabet: seq<byte>, a: seq<nat>, c: seq<nat>)
    requires AllBelow(a, |alphabet|) && AllBelow(c, |alphabet|)
    ensures AllBelow(a + c, |alphabet|)
            && MapAlphabet(alphabet, a + c) == MapAlphabet(alphabet, a) + MapAlphabet(alphabet, c)
  {
  }

  /** With at least an octet in it the buffer has a digit; it is full exactly when all its bits are taken. */
  lemma {:induction false} HoldsSpace(buf: seq<nat>, b: nat, bytePos: nat, bitPos: nat, r: seq<bool>)
    requires Holds(buf, b, bytePos, bitPos, r) && b <= 7 && |r| >= 8
    ensures 1 <= bytePos <= |buf| && AllBelow(buf[..bytePos], Shl(1, b))
    ensures bytePos < |buf| ==> |r| < Capacity(|buf|, b)
    ensures bytePos == |buf| ==> bitPos == 0 && Unpack(buf[..bytePos], b) == r
  {
    hide Unpack, Shl, ToBits;
    HoldsLength(buf, b, bytePos, bitPos, r);
    if bytePos < |buf| {
      SpaceLeft(|buf|, b, bytePos, bitPos);
    } else {
      assert r[|r|..] == [];
    }
  }

  lemma {:induction false} SpaceLeft(n: nat, b: nat, bytePos: nat, bitPos: nat)
    requires bytePos < n && bitPos < b
    ensures bytePos * b + bitPos < n * b
  {
    var d := n - bytePos;
    assert n * b == bytePos * b + d * b;
    MulAtLeast(d, b);
  }

  /** One turn of the inner loop: the digit takes what it has room for. */
  lemma {:induction false} TakeBits(buf: seq<nat>, b: nat, bytePos: nat, bitPos: nat, cur: seq<bool>, v: nat,
                                    s: seq<bool>)
    requires Holds(buf, b, bytePos, bitPos, cur) && b <= 7 && |cur| + |s| <= Capacity(|buf|, b)
    requires 1 <= |s| <= 8 && v < 256 && ToBits(v, 8) == s + Falses(8 - |s|)
    ensures bytePos < |buf| && bitPos < b
    ensures var target := b - bitPos;
            var buf' := buf[bytePos := Or(buf[bytePos], Shr(v, 8 - target))];
            if |s| >= target then
              && Holds(buf', b, bytePos + 1, 0, cur + s[..target])
              && ToBits(Shl(v, target) % 256, 8) == s[target..] + Falses(8 - |s[target..]|)
            else Holds(buf', b, bytePos, bitPos + |s|, cur + s)
  {
    hide ToBits, Shl, Shr, Or, Holds;
    RoomLeft(buf, b, bytePos, bitPos, cur);
    HoldsFacts(buf, b, bytePos, bitPos, cur);
    var target, part := b - bitPos, cur[|cur| - bitPos..];
    OrNextBits(buf[bytePos], v, b, bitPos, part);
    var d := Or(buf[bytePos], Shr(v, 8 - target));
    if |s| >= target {
      assert (s + Falses(8 - |s|))[..target] == s[..target];
      DigitFilled(buf, b, bytePos, bitPos, cur, d, s[..target]);
      ShiftSource(v, target, s);
    } else {
      assert part + (s + Falses(8 - |s|))[..target] == part + s + Falses(target - |s|);
      DigitExtended(buf, b, bytePos, bitPos, cur, d, s);
    }
  }

  lemma {:induction false} BlockOfBits(i: nat, b: nat)
    requires b >= 1 && i >= 8 && i % b == 0
    ensures i / b >= 1 && (i / b) * b == i
  {
    assert i == (i / b) * b + i % b;
    if i / b == 0 {
      assert false;
    }
  }

  lemma {:induction false} EmptyEncoder(b: nat, blockSize: nat, alphabet: seq<byte>)
    requires b >= 1 && blockSize >= 1
    ensures Capacity(blockSize, b) == blockSize * b >= 1 && WholeBlocks(0, blockSize)
            && Unpack([], 8) == [] == Unpack([], b)
  {
    MulAtLeast(blockSize, b);
    DivUnique(0, blockSize, 0, 0);
  }
}
