/**
 `CCM_Base` on top of `AuthenticatedSymmetricCipherBase`: the buffered object itself. Its 32-octet
 buffer holds pending data in the first half and the CBC chaining value in the second.
 */
module Ccm {
  import opened Numbers
  import opened Bytes
  import opened CbcMac
  import opened CounterMode
  import opened Rfc3610
  import opened AeadMachine
  import opened Options

  method CopyInto(a: array<byte>, at: nat, s: seq<byte>)
    requires at + |s| <= a.Length
    modifies a
    ensures a[..at] == old(a[..at]) && a[at..at + |s|] == s && a[at + |s|..] == old(a[at + |s|..])
    ensures forall i :: 0 <= i < a.Length ==> a[i] == if at <= i < at + |s| then s[i - at] else old(a[i])
  {
    forall i | 0 <= i < |s| {
      a[at + i] := s[i];
    }
  }

  /** The chaining value of section 2.2 of RFC 3610 after the first block, for the specified lengths. */
  ghost function HeaderX(m: Machine): (x: Block)
    requires m.Sound()
  {
    if m.Running() then m.cipher(FirstBlock(m.nonce, m.digestSize, m.HeaderLength(), m.MessageLength())) else Zeros(16)
  }

  ghost function HeaderStream(m: Machine): (s: seq<byte>) {
    LengthPrefix(m.HeaderLength()) + m.header
  }

  /** The chaining value after the header, before any payload. */
  ghost function PayloadX(m: Machine): (x: Block)
    requires m.Sound()
  {
    Chain(m.cipher, HeaderX(m), Padded(HeaderStream(m)))
  }

  /** What `TruncatedFinal` puts out, before truncation: the closed chain under key-stream block 0. */
  ghost function Residue(e: Cipher, iv: Block, afterFooter: bool, x: Block, pending: seq<byte>): (r: Block)
    requires |pending| < 16
  {
    XorBytes(if afterFooter then x else Closed(e, x, pending), e(iv))
  }

  class CipherObject {
    const encrypting: bool
    const buffer: array<byte>
    var state: Phase
    var cipher: Cipher
    var digestSize: int
    var lengthOctets: nat
    var buffered: nat
    var totalHeader: nat
    var totalMessage: nat
    var totalFooter: nat
    var aadLength: nat
    var messageLength: nat
    var ctrIV: Block
    var ctrPosition: nat
    ghost var view: Machine

    /** The buffer holds what is left of chaining value `x0` after the stream `s`. */
    ghost predicate Absorbing(x0: Block, s: seq<byte>)
      reads this`cipher, this`buffered, buffer
    {
      buffer.Length == 32 && buffered < 16 && Absorbed(cipher, x0, s, buffer[16..], buffer[..buffered])
    }

    /** What the buffer means in a session that is not spoiled. */
    ghost predicate Meaning(m: Machine)
      requires m.Sound()
      reads this`cipher, this`buffered, this`ctrIV, buffer
    {
      && m.totalHeader == |m.header| % TWO_TO_THE_64 && m.totalMessage == |m.message| % TWO_TO_THE_64
      && (m.phase == IVSet && m.lengths.None? ==> m.header == [] && buffered == 0 && buffer.Length == 32 && buffer[..16] == ctrIV)
      && (m.phase == IVSet && m.lengths.Some? ==> Absorbing(HeaderX(m), HeaderStream(m)))
      && (m.phase == Authenticating ==>
            m.lengths.Some? && m.lengths.value.header == m.totalHeader && Absorbing(PayloadX(m), m.message))
    }

    ghost predicate Matches(m: Machine)
      reads this
    {
      && m.Sound() && m.encrypting == encrypting && m.phase == state && m.cipher == cipher && m.digestSize == digestSize
      && m.lengthOctets == lengthOctets
      && m.totalHeader == totalHeader && m.totalMessage == totalMessage && m.totalFooter == totalFooter
    }

    ghost predicate Session(m: Machine)
      requires m.Sound()
      reads this
    {
      m.Running() ==>
        && aadLength == m.HeaderLength() && messageLength == m.MessageLength()
        && ctrIV == CounterBlock(m.nonce, 0) && ctrPosition == 16 + |m.message|
    }

    ghost predicate Valid()
      reads this, buffer
    {
      && buffer.Length == 32 && buffered < 16 && Matches(view) && Session(view)
      && (view.Running() && !view.spoiled ==> Meaning(view))
    }

    constructor (encrypting: bool, cipher: Cipher)
      ensures Valid() && state == Start && this.encrypting == encrypting && fresh(buffer)
    {
      this.encrypting := encrypting;
      buffer := new byte[32];
      state, this.cipher, digestSize, lengthOctets, buffered := Start, cipher, 0, 0, 0;
      totalHeader, totalMessage, totalFooter, aadLength, messageLength := 0, 0, 0, 0, 0;
      ctrIV, ctrPosition := Zeros(16), 0;
      view := Machine(encrypting, Start, cipher, 0, 0, [], None, [], [], 0, 0, 0, false);
    }

    method AuthenticateBlocks(data: seq<byte>) returns (leftOver: nat)
      requires buffer.Length == 32
      modifies buffer
      ensures leftOver == |data| % 16 && buffer[..16] == old(buffer[..16])
      ensures buffer[16..] == Chain(cipher, old(buffer[16..]), data[..|data| - leftOver])
    {
      hide Chain, XorBytes;
      ghost var x := buffer[16..];
      var position := 0;
      ChainNone(cipher, x);
      assert data[..0] == [];
      while position + 16 <= |data|
        invariant 0 <= position <= |data| && position % 16 == 0 && buffer.Length == 32
        invariant buffer[..16] == old(buffer[..16])
        invariant buffer[16..] == Chain(cipher, x, data[..position])
      {
        var block := data[position..position + 16];
        assert data[..position + 16] == data[..position] + block;
        ChainSplit(cipher, x, data[..position], block);
        ChainOne(cipher, buffer[16..], block);
        ghost var front := buffer[..16];
        CopyInto(buffer, 16, cipher(XorBytes(buffer[16..], block)));
        assert buffer[16..] == buffer[16..32];
        position := position + 16;
      }
      leftOver := |data| - position;
    }

    method AuthenticateData(input: seq<byte>, ghost x0: Block, ghost s: seq<byte>)
      requires buffer.Length == 32 && buffered < 16
      modifies this`buffered, buffer
      ensures buffered < 16
      ensures old(Absorbing(x0, s)) ==> Absorbing(x0, s + input)
    {
      hide Chain, Absorbed;
      ghost var sound := Absorbing(x0, s);
      ghost var x := buffer[16..];
      if buffered == 0 {
        assert buffer[..0] == [];
        AuthenticateRest(input, x0, s);
      } else if buffered + |input| >= 16 {
        var fill := 16 - buffered;
        if sound {
          AbsorbWhole(cipher, x0, s, x, buffer[..buffered], input[..fill]);
        }
        ghost var block := buffer[..buffered] + input[..fill];
        CopyInto(buffer, buffered, input[..fill]);
        assert buffer[..16] == block && buffer[16..] == x;
        var none := AuthenticateBlocks(buffer[..16]);
        assert block[..16 - none] == block;
        buffered := 0;
        assert buffer[..0] == [] && s + input[..fill] + input[fill..] == s + input;
        AuthenticateRest(input[fill..], x0, s + input[..fill]);
      } else {
        if sound {
          AbsorbLittle(cipher, x0, s, x, buffer[..buffered], input);
        }
        ghost var pending := buffer[..buffered] + input;
        CopyInto(buffer, buffered, input);
        buffered := buffered + |input|;
        assert buffer[..buffered] == pending && buffer[16..] == x;
      }
    }

    /** `AuthenticateData` once nothing is pending: whole blocks straight from the input, then the tail. */
    method AuthenticateRest(input: seq<byte>, ghost x0: Block, ghost s: seq<byte>)
      requires buffer.Length == 32 && buffered == 0
      modifies this`buffered, buffer
      ensures buffered < 16
      ensures old(Absorbing(x0, s)) ==> Absorbing(x0, s + input)
    {
      hide Chain, Absorbed;
      ghost var sound := Absorbing(x0, s);
      ghost var x := buffer[16..];
      assert buffer[..0] == [];
      var rest := input;
      ghost var done := s;
      if |input| >= 16 {
        var leftOver := AuthenticateBlocks(input);
        var whole := |input| - leftOver;
        if sound {
          AbsorbWhole(cipher, x0, s, x, [], input[..whole]);
          assert [] + input[..whole] == input[..whole];
        }
        rest, done := input[whole..], s + input[..whole];
        assert done + rest == s + input;
      }
      ghost var y := buffer[16..];
      if sound {
        AbsorbLittle(cipher, x0, done, y, [], rest);
        assert [] + rest == rest;
      }
      CopyInto(buffer, 0, rest);
      buffered := |rest|;
      assert buffer[..buffered] == rest && buffer[16..] == y;
    }

    /** The shared end of `AuthenticateLastHeaderBlock` and `AuthenticateLastConfidentialBlock`. */
    method AuthenticateBuffered()
      requires buffer.Length == 32 && buffered < 16
      modifies this`buffered, buffer
      ensures buffered == 0
      ensures buffer[16..] == Closed(cipher, old(buffer[16..]), old(buffer[..buffered]))
    {
      hide XorBytes;
      if buffered > 0 {
        XorFront(buffer[16..], buffer[..buffered]);
        var x := buffer[16..];
        CopyInto(buffer, 16, XorBytes(x[..buffered], buffer[..buffered]) + x[buffered..]);
        assert buffer[16..] == buffer[16..32];
        var y: Block := buffer[16..];
        CopyInto(buffer, 16, cipher(y));
        assert buffer[16..] == buffer[16..32];
        buffered := 0;
      } else {
        assert buffer[..0] == [];
      }
    }

    method SetKey(key: Option<Cipher>, tagLength: int, iv: Option<seq<byte>>) returns (outcome: Outcome)
      requires Valid()
      modifies this, buffer
      ensures Valid() && (view, outcome) == SetKeyStep(old(view), key, tagLength, iv) && buffer[16..] == old(buffer[16..])
    {
      hide ResynchronizeStep, Meaning, CounterBlock;
      buffered, state := 0, Start;
      if key.None? {
        view := view.(phase := Start);
        return Thrown(InvalidKeyLength);
      }
      cipher, digestSize := key.value, tagLength;
      if digestSize % 2 != 0 || digestSize < 4 || digestSize > 16 {
        view := view.(phase := Start, cipher := cipher, digestSize := tagLength);
        return Thrown(InvalidArgument);
      }
      lengthOctets, state := 8, KeySet;
      view := view.(phase := KeySet, cipher := cipher, digestSize := tagLength, lengthOctets := 8);
      if iv.None? || |iv.value| < 7 || |iv.value| > 13 {
        return Thrown(InvalidArgument);
      }
      outcome := Resynchronize(iv.value);
    }

    method Resynchronize(iv: seq<byte>) returns (outcome: Outcome)
      requires Valid()
      modifies this, buffer
      ensures Valid() && (view, outcome) == ResynchronizeStep(old(view), iv) && buffer[16..] == old(buffer[16..])
    {
      hide CounterBlock, Absorbing, HeaderX, PayloadX, LengthPrefix, Shl, ValidTagLength, HeaderStream;
      if state == Start {
        return Thrown(BadState);
      }
      buffered, totalHeader, totalMessage, totalFooter, state := 0, 0, 0, 0, KeySet;
      view := view.(phase := KeySet, totalHeader := 0, totalMessage := 0, totalFooter := 0);
      if |iv| < 7 || |iv| > 13 {
        return Thrown(InvalidArgument);
      }
      Resync(iv);
      outcome := Done([]);
    }

    method Resync(iv: seq<byte>)
      requires buffer.Length == 32 && buffered == 0 && Matches(view) && ValidNonce(iv) && state == KeySet
      requires totalHeader == totalMessage == totalFooter == 0
      modifies this, buffer
      ensures Valid() && view == ResynchronizeStep(old(view), iv).0 && buffer[16..] == old(buffer[16..])
    {
      hide CounterBlock, Absorbing, HeaderX, PayloadX, Shl, ValidTagLength, HeaderStream;
      LoadNonce(iv);
      lengthOctets := 15 - |iv|;
      ctrIV, ctrPosition := buffer[..16], 16;
      aadLength, messageLength, state := 0, 0, IVSet;
      view := ResynchronizeStep(view, iv).0;
    }

    method LoadNonce(iv: seq<byte>)
      requires buffer.Length == 32 && ValidNonce(iv)
      modifies buffer
      ensures buffer[..16] == CounterBlock(iv, 0) && buffer[16..] == old(buffer[16..])
    {
      ZeroOctets(15 - |iv|);
      CopyInto(buffer, 0, [14 - |iv|] + iv + Zeros(15 - |iv|));
      assert buffer[..16] == buffer[0..16];
    }

    method SpecifyDataLengths(headerLength: nat, textLength: nat) returns (outcome: Outcome)
      requires Valid() && headerLength < TWO_TO_THE_64 && textLength < TWO_TO_THE_64
      modifies this, buffer
      ensures Valid() && (view, outcome) == SpecifyStep(old(view), headerLength, textLength)
    {
      hide Absorbing, CounterBlock, HeaderX, LengthPrefix;
      if textLength > Shl(1, 8 * lengthOctets) - 1 {
        return Thrown(InvalidArgument);
      }
      if state != IVSet {
        return Thrown(BadState);
      }
      StartMac(headerLength, textLength);
      aadLength, messageLength := headerLength, textLength;
      view := SpecifyStep(view, headerLength, textLength).0;
      outcome := Done([]);
    }

    /** The first block, built over the chaining half and encrypted there; the length prefix becomes pending data. */
    method StartMac(headerLength: nat, textLength: nat)
      requires Valid() && state == IVSet && headerLength < TWO_TO_THE_64 && textLength < TWO_TO_THE_64
      modifies this`buffered, buffer
      ensures buffered < 16
      ensures var m := SpecifyStep(view, headerLength, textLength).0;
              textLength <= view.MaxMessageLength() && !m.spoiled ==> Absorbing(HeaderX(m), HeaderStream(m))
    {
      hide Absorbed;
      FirstMacBlock(headerLength, textLength);
      var prefix := EncodeHeaderLength(headerLength);
      ghost var x := buffer[16..];
      if headerLength > 0 {
        CopyInto(buffer, 0, prefix);
        buffered := |prefix|;
        assert buffer[..buffered] == prefix && buffer[16..] == x;
      }
      PrefixAbsorbed(cipher, x, headerLength);
      assert LengthPrefix(headerLength) + [] == LengthPrefix(headerLength);
      assert buffer[..0] == [];
    }

    method FirstMacBlock(headerLength: nat, textLength: nat)
      requires Valid() && state == IVSet && headerLength < TWO_TO_THE_64 && textLength < TWO_TO_THE_64
      modifies buffer
      ensures buffer[..16] == old(buffer[..16])
      ensures !view.spoiled && view.lengths.None? ==>
                buffer[16..] == cipher(FirstBlock(view.nonce, digestSize, headerLength, textLength))
    {
      hide Absorbing, BigEndian;
      var flag := (if headerLength > 0 then 64 else 0) + 8 * ((digestSize - 2) / 2) + (lengthOctets - 1);
      var copied := buffer[1..16 - lengthOctets];
      ghost var front := buffer[..16];
      assert copied == front[1..16 - lengthOctets];
      assert !view.spoiled && view.lengths.None? ==> copied == view.nonce;
      BigEndianTail(textLength, 8, lengthOctets);
      WriteBlock(flag, copied, BigEndian(textLength, 8), lengthOctets);
      var y: Block := buffer[16..];
      CopyInto(buffer, 16, cipher(y));
      assert buffer[16..] == buffer[16..32];
    }

    /** The flag, the eight octets of the length, then the nonce over the front of the length. */
    method WriteBlock(flag: byte, copied: seq<byte>, length: seq<byte>, l: nat)
      requires buffer.Length == 32 && 2 <= l <= 8 && |copied| == 15 - l && |length| == 8
      modifies buffer
      ensures buffer[..16] == old(buffer[..16]) && buffer[16..] == [flag] + copied + length[8 - l..]
    {
      ghost var front := buffer[..16];
      CopyInto(buffer, 16, [flag]);
      assert buffer[16] == flag;
      CopyInto(buffer, 24, length);
      assert buffer[16] == flag && buffer[..16] == front;
      ghost var tail := buffer[17 + |copied|..];
      assert tail == length[8 - l..];
      CopyInto(buffer, 17, copied);
      assert buffer[..16] == front && buffer[16] == flag;
      assert buffer[16..] == [buffer[16]] + buffer[17..17 + |copied|] + buffer[17 + |copied|..];
    }

    method EncodeHeaderLength(headerLength: nat) returns (prefix: seq<byte>)
      ensures prefix == LengthPrefix(headerLength)
    {
      if headerLength == 0 {
        prefix := [];
      } else if headerLength < 65536 - 256 {
        prefix := BigEndian(headerLength, 2);
      } else if headerLength < 0x1_0000_0000 {
        prefix := [0xff, 0xfe] + BigEndian(headerLength, 4);
      } else {
        prefix := [0xff, 0xff] + BigEndian(headerLength, 8);
      }
    }

    method Update(input: seq<byte>) returns (outcome: Outcome)
      requires Valid()
      modifies this, buffer
      ensures Valid() && (view, outcome) == UpdateStep(old(view), input)
    {
      hide Meaning, CounterBlock;
      if input == [] {
        return Done([]);
      }
      if state == Start || state == KeySet {
        return Thrown(BadState);
      }
      if state == IVSet {
        UpdateHeader(input);
      } else if state == Authenticating && messageLength != totalMessage {
        return Thrown(InvalidArgument);
      } else {
        UpdateFooter(input);
      }
      outcome := Done([]);
    }

    method UpdateHeader(input: seq<byte>)
      requires Valid() && state == IVSet && input != []
      modifies this`buffered, this`totalHeader, this`view, buffer
      ensures Valid() && view == UpdateStep(old(view), input).0
    {
      hide Absorbing, HeaderX, PayloadX, HeaderStream, CounterBlock, Shl, ValidTagLength;
      ghost var m := view;
      view := UpdateStep(view, input).0;
      AuthenticateData(input, HeaderX(m), HeaderStream(m));
      HeaderGrows(m, view, input);
      totalHeader := (totalHeader + |input|) % TWO_TO_THE_64;
    }

    /** Footer data closes the payload's chain first; from here on the session is spoiled. */
    method UpdateFooter(input: seq<byte>)
      requires Valid() && input != [] && (state == Footer || (state == Authenticating && messageLength == totalMessage))
      modifies this`buffered, this`totalFooter, this`state, this`view, buffer
      ensures Valid() && view == UpdateStep(old(view), input).0
    {
      hide Absorbing, Meaning, CounterBlock, Shl, ValidTagLength;
      view := UpdateStep(view, input).0;
      if state == Authenticating {
        AuthenticateBuffered();
        state := Footer;
      }
      AuthenticateData(input, Zeros(16), []);
      totalFooter := (totalFooter + |input|) % TWO_TO_THE_64;
    }

    method ProcessData(input: seq<byte>) returns (outcome: Outcome)
      requires Valid()
      modifies this, buffer
      ensures Valid() && (view, outcome) == ProcessStep(old(view), input)
    {
      hide Meaning, CounterBlock, Transformed, Shl, ValidTagLength;
      var total := (totalMessage + |input|) % TWO_TO_THE_64;
      if state == Start || state == KeySet {
        Count(total, false);
        return Thrown(BadState);
      }
      if total > Shl(1, 8 * lengthOctets) - 1 {
        Count(total, true);
        return Thrown(InvalidArgument);
      }
      if state == Footer {
        Count(total, false);
        return Thrown(BadState);
      }
      if state == IVSet && aadLength != totalHeader {
        Count(total, true);
        return Thrown(InvalidArgument);
      }
      if state == IVSet {
        BeginPayload();
      }
      var output := Payload(input, total);
      outcome := Done(output);
    }

    /** A refused payload call still counts its length. */
    method Count(total: nat, ghost spoil: bool)
      requires Valid() && (spoil || state == Start || state == KeySet || state == Footer)
      modifies this`totalMessage, this`view
      ensures Valid() && view == old(view).(totalMessage := total, spoiled := old(view).spoiled || spoil)
    {
      hide Meaning, CounterBlock, Shl, ValidTagLength;
      totalMessage := total;
      view := view.(totalMessage := total, spoiled := view.spoiled || spoil);
    }

    /** The first payload call closes the header. */
    method BeginPayload()
      requires Valid() && state == IVSet && aadLength == totalHeader
      modifies this`buffered, this`state, this`view, buffer
      ensures Valid()
              && view == old(view).(phase := Authenticating, spoiled := old(view).spoiled || old(view).lengths.None?)
    {
      hide Absorbing, HeaderX, PayloadX, HeaderStream, CounterBlock, Shl, ValidTagLength;
      ghost var m := view;
      EndHeader(m);
      state := Authenticating;
      view := view.(phase := Authenticating, spoiled := view.spoiled || view.lengths.None?);
      SamePayloadX(m, view);
    }

    method Payload(input: seq<byte>, total: nat) returns (output: seq<byte>)
      requires Valid() && total == (totalMessage + |input|) % TWO_TO_THE_64 && total <= Shl(1, 8 * lengthOctets) - 1
               && state == Authenticating
      modifies this, buffer
      ensures Valid() && view == ProcessStep(old(view), input).0 && ProcessStep(old(view), input).1 == Done(output)
    {
      hide Absorbing, HeaderX, PayloadX, HeaderStream, CounterBlock, Transform, Shl, ValidTagLength;
      ghost var m := view;
      view := ProcessStep(view, input).0;
      totalMessage := total;
      output := CryptAndAuthenticate(input, PayloadX(m), m.message);
      PayloadGrows(m, view, if encrypting then input else output);
    }

    /** The key stream over the input; what is authenticated is the plaintext, on either side. */
    method CryptAndAuthenticate(input: seq<byte>, ghost x0: Block, ghost s: seq<byte>) returns (output: seq<byte>)
      requires buffer.Length == 32 && buffered < 16
      modifies this`buffered, this`ctrPosition, buffer
      ensures output == Transform(cipher, ctrIV, old(ctrPosition), input) && ctrPosition == old(ctrPosition) + |input|
              && buffered < 16
      ensures old(Absorbing(x0, s)) ==> Absorbing(x0, s + if encrypting then input else output)
    {
      hide Transform, Absorbed;
      output := Transform(cipher, ctrIV, ctrPosition, input);
      ctrPosition := ctrPosition + |input|;
      if encrypting {
        AuthenticateData(input, x0, s);
      } else {
        AuthenticateData(output, x0, s);
      }
    }

    /** `AuthenticateLastHeaderBlock`. */
    method EndHeader(ghost m: Machine)
      requires buffer.Length == 32 && buffered < 16 && m.Sound() && m.cipher == cipher
      modifies this`buffered, buffer
      ensures buffered == 0
      ensures buffer[16..] == Closed(cipher, old(buffer[16..]), old(buffer[..buffered]))
      ensures old(Absorbing(HeaderX(m), HeaderStream(m))) ==> Absorbing(PayloadX(m), [])
    {
      hide Chain, HeaderX, LengthPrefix, Absorbed, Padded, Closed;
      if Absorbing(HeaderX(m), HeaderStream(m)) {
        AbsorbPadding(cipher, HeaderX(m), HeaderStream(m), buffer[16..], buffer[..buffered]);
      }
      AuthenticateBuffered();
      AbsorbedEmpty(cipher, PayloadX(m));
      assert buffer[..0] == [];
    }

    /**
     The tag is the closed chain under key-stream block 0, in every session; where the machine gives it a meaning, that
     is it.
     */
    method TruncatedFinal(macSize: nat) returns (outcome: Outcome, ghost residue: Block)
      requires Valid() && macSize <= 16
      modifies this, buffer
      ensures Valid() && (view, outcome) == FinalStep(old(view), macSize, residue)
      ensures outcome.Done? ==> outcome.output == residue[..macSize]
      ensures residue
              == Residue(old(cipher), old(ctrIV), old(state) == Footer, old(buffer[16..]), old(buffer[..buffered]))
    {
      hide Absorbing, HeaderX, PayloadX, LengthPrefix, CounterBlock, Tag, Residue, Shl, ValidTagLength;
      ghost var m := view;
      residue := Residue(cipher, ctrIV, state == Footer, buffer[16..], buffer[..buffered]);
      view := FinalStep(view, macSize, residue).0;
      if totalFooter > 0 {
        return Thrown(InvalidArgument), residue;
      }
      if state == Start || state == KeySet {
        return Thrown(BadState), residue;
      }
      if state == IVSet && aadLength != totalHeader {
        return Thrown(InvalidArgument), residue;
      }
      ghost var x := buffer[16..];
      if state == IVSet {
        EndHeader(m);
        SameResidue(cipher, ctrIV, x, old(buffer[..buffered]), buffer[16..]);
        assert buffer[..0] == [];
      }
      if state != Footer && messageLength != totalMessage {
        return Thrown(InvalidArgument), residue;
      }
      var mac := EmitTag(macSize, m);
      state := KeySet;
      outcome := Done(mac);
    }

    /** The end of `AuthenticateLastConfidentialBlock`, then `AuthenticateLastFooterBlock`. */
    method EmitTag(macSize: nat, ghost m: Machine) returns (mac: seq<byte>)
      requires buffer.Length == 32 && buffered < 16 && m.Sound() && m.Running() && macSize <= 16
      requires m.cipher == cipher && ctrIV == CounterBlock(m.nonce, 0)
      modifies this`buffered, this`ctrPosition, buffer
      ensures buffered == 0
      ensures mac == Residue(cipher, ctrIV, state == Footer, old(buffer[16..]), old(buffer[..buffered]))[..macSize]
      ensures state != Footer && m.HeaderLength() == |m.header| && m.MessageLength() == |m.message|
              && old(Absorbing(PayloadX(m), m.message)) ==>
                mac == Tag(m.cipher, m.nonce, m.digestSize, m.header, m.message)[..macSize]
    {
      hide Chain, Padded, Absorbed, Closed;
      if Absorbing(PayloadX(m), m.message) {
        AbsorbPadding(cipher, PayloadX(m), m.message, buffer[16..], buffer[..buffered]);
      }
      if state != Footer {
        AuthenticateBuffered();
      }
      buffered := 0;
      var x: Block := buffer[16..];
      TransformIsBlock0(cipher, m.nonce, x, macSize);
      mac := Transform(cipher, ctrIV, 0, x[..macSize]);
      ctrPosition := macSize;
    }

    method Restart()
      requires Valid()
      modifies this`state, this`view
      ensures Valid() && view == RestartStep(old(view)).0
    {
      view := RestartStep(view).0;
      if state != Start {
        state := KeySet;
      }
    }
  }

  /** Once closed, the chain stays closed. */
  lemma {:induction false} SameResidue(e: Cipher, iv: Block, x: Block, pending: seq<byte>, y: Block)
    requires |pending| < 16 && y == Closed(e, x, pending)
    ensures Residue(e, iv, false, x, pending) == Residue(e, iv, false, y, [])
  {
  }

  lemma {:induction false} PrefixAbsorbed(e: Cipher, x: Block, headerLength: nat)
    ensures Absorbed(e, x, LengthPrefix(headerLength), x, LengthPrefix(headerLength))
  {
    var s := LengthPrefix(headerLength);
    assert Whole(s) == 0 && s[..0] == [];
  }

  lemma {:induction false} HeaderGrows(m: Machine, m': Machine, input: seq<byte>)
    requires m.Sound() && m'.Sound() && m.phase == IVSet && m' == UpdateStep(m, input).0 && input != []
    ensures HeaderX(m') == HeaderX(m) && HeaderStream(m') == HeaderStream(m) + input
    ensures m.totalHeader == |m.header| % TWO_TO_THE_64 ==> m'.totalHeader == |m'.header| % TWO_TO_THE_64
  {
    hide LengthPrefix;
    AddModulo(|m.header|, |input|);
  }

  lemma {:induction false} SamePayloadX(m: Machine, m': Machine)
    requires m.Sound() && m'.Sound() && m.Running() && m' == m.(phase := Authenticating, spoiled := m'.spoiled)
    ensures PayloadX(m') == PayloadX(m)
  {
    hide LengthPrefix, Chain;
  }

  lemma {:induction false} PayloadGrows(m: Machine, m': Machine, text: seq<byte>)
    requires m.Sound() && m'.Sound() && (m.phase == IVSet || m.phase == Authenticating) && m'.phase == Authenticating
    requires m' == m.(phase := Authenticating, totalMessage := (m.totalMessage + |text|) % TWO_TO_THE_64, message := m.message + text,
                      spoiled := m'.spoiled)
    ensures PayloadX(m') == PayloadX(m)
    ensures m.totalMessage == |m.message| % TWO_TO_THE_64 ==> m'.totalMessage == |m'.message| % TWO_TO_THE_64
  {
    hide LengthPrefix, Chain;
    AddModulo(|m.message|, |text|);
  }

  lemma {:induction false} AddModulo(a: nat, b: nat)
    ensures (a % TWO_TO_THE_64 + b) % TWO_TO_THE_64 == (a + b) % TWO_TO_THE_64
  {
    var q := a / TWO_TO_THE_64;
    assert a + b == (a % TWO_TO_THE_64 + b) + q * TWO_TO_THE_64;
  }
}
