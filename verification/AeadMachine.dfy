/**
 The state machine of `AuthenticatedSymmetricCipherBase` under CCM, seen from outside: which calls
 are accepted in which state, and what they return in terms of everything input since the last
 `Resynchronize`. `Ccm.CipherObject` implements it with one block of buffer.
 */
module AeadMachine {
  import opened Numbers
  import opened Bytes
  import opened CbcMac
  import opened CounterMode
  import opened Rfc3610
  import opened Options

  datatype Phase = Start | KeySet | IVSet | Authenticating | Footer
  datatype Error = BadState | InvalidArgument | InvalidKeyLength
  datatype Outcome = Done(output: seq<byte>) | Thrown(error: Error)
  datatype Lengths = Lengths(header: nat, message: nat)

  datatype Op =
    | SetKey(key: Option<Cipher>, tagLength: int, firstIV: Option<seq<byte>>)
    | Resynchronize(iv: seq<byte>)
    | SpecifyDataLengths(headerLength: nat, messageLength: nat)
    | Update(input: seq<byte>)
    | ProcessData(input: seq<byte>)
    | TruncatedFinal(macSize: nat, residue: Block)
    | Restart

  /**
   `spoiled` marks a session whose chaining value the source no longer keeps meaningful: data before
   the lengths were specified, lengths specified twice, footer data, or a call that threw half-way.
   */
  datatype Machine = Machine(
    encrypting: bool, phase: Phase, cipher: Cipher, digestSize: int, lengthOctets: nat,
    nonce: seq<byte>, lengths: Option<Lengths>, header: seq<byte>, message: seq<byte>,
    totalHeader: nat, totalMessage: nat, totalFooter: nat, spoiled: bool)
  {
    ghost function HeaderLength(): (n: nat) {
      if lengths.Some? then lengths.value.header else 0
    }

    ghost function MessageLength(): (n: nat) {
      if lengths.Some? then lengths.value.message else 0
    }

    ghost function MaxMessageLength(): (n: nat) {
      Shl(1, 8 * lengthOctets) - 1
    }

    ghost predicate Running() {
      phase in {IVSet, Authenticating, Footer}
    }

    ghost predicate Sound() {
      && lengthOctets <= 8
      && (phase != Start ==> ValidTagLength(digestSize))
      && (Running() ==> ValidNonce(nonce) && lengthOctets == 15 - |nonce|)
      && (phase == IVSet ==> message == [])
      && (phase == Footer ==> spoiled)
    }
  }

  /** A machine for which the tag it returns is the one RFC 3610 asks for. */
  ghost predicate Meaningful(m: Machine) {
    !m.spoiled && m.lengths.Some? && |m.header| < TWO_TO_THE_64 && |m.message| < TWO_TO_THE_64
  }

  /** Payload octets from position `start` on; key-stream block 0 is kept for the tag. */
  ghost function Transformed(e: Cipher, nonce: seq<byte>, start: nat, data: seq<byte>): (r: seq<byte>)
    requires ValidNonce(nonce)
    ensures |r| == |data|
  {
    Transform(e, CounterBlock(nonce, 0), 16 + start, data)
  }

  ghost function ResynchronizeStep(m: Machine, iv: seq<byte>): (r: (Machine, Outcome))
    ensures m.Sound() ==> r.0.Sound()
  {
    if m.phase == Start then (m, Thrown(BadState))
    else
      var cleared := m.(phase := KeySet, totalHeader := 0, totalMessage := 0, totalFooter := 0);
      if !ValidNonce(iv) then (cleared, Thrown(InvalidArgument))
      else
        (cleared.(phase := IVSet, lengthOctets := 15 - |iv|, nonce := iv, lengths := None, header := [], message := [],
                  spoiled := false),
         Done([]))
  }

  /**
   `None` is a key of a length the block cipher refuses. A key without an initialisation vector is kept, but the
   call throws all the same.
   */
  ghost function SetKeyStep(m: Machine, key: Option<Cipher>, digestSize: int, iv: Option<seq<byte>>): (r: (Machine, Outcome))
    ensures m.Sound() ==> r.0.Sound()
  {
    if key.None? then (m.(phase := Start), Thrown(InvalidKeyLength))
    else if !ValidTagLength(digestSize) then
      (m.(phase := Start, cipher := key.value, digestSize := digestSize), Thrown(InvalidArgument))
    else
      var keyed := m.(phase := KeySet, cipher := key.value, digestSize := digestSize, lengthOctets := 8);
      if iv.None? || !ValidNonce(iv.value) then (keyed, Thrown(InvalidArgument)) else ResynchronizeStep(keyed, iv.value)
  }

  ghost function SpecifyStep(m: Machine, headerLength: nat, messageLength: nat): (r: (Machine, Outcome))
    ensures m.Sound() ==> r.0.Sound()
  {
    if messageLength > m.MaxMessageLength() then (m, Thrown(InvalidArgument))
    else if m.phase != IVSet then (m, Thrown(BadState))
    else
      (m.(lengths := Some(Lengths(headerLength, messageLength)),
          spoiled := m.spoiled || m.lengths.Some? || m.header != []),
       Done([]))
  }

  ghost function UpdateStep(m: Machine, input: seq<byte>): (r: (Machine, Outcome))
    ensures m.Sound() ==> r.0.Sound()
  {
    if input == [] then (m, Done([]))
    else match m.phase
      case Start | KeySet => (m, Thrown(BadState))
      case IVSet =>
        (m.(header := m.header + input, totalHeader := (m.totalHeader + |input|) % TWO_TO_THE_64,
            spoiled := m.spoiled || m.lengths.None?),
         Done([]))
      case Authenticating =>
        if m.MessageLength() != m.totalMessage then (m, Thrown(InvalidArgument))
        else (m.(phase := Footer, totalFooter := (m.totalFooter + |input|) % TWO_TO_THE_64, spoiled := true), Done([]))
      case Footer =>
        (m.(totalFooter := (m.totalFooter + |input|) % TWO_TO_THE_64), Done([]))
  }

  ghost function ProcessStep(m: Machine, input: seq<byte>): (r: (Machine, Outcome))
    requires m.Sound()
    ensures r.0.Sound()
  {
    var counted := m.(totalMessage := (m.totalMessage + |input|) % TWO_TO_THE_64);
    if m.phase == Start || m.phase == KeySet then (counted, Thrown(BadState))
    else if counted.totalMessage > m.MaxMessageLength() then (counted.(spoiled := true), Thrown(InvalidArgument))
    else if m.phase == Footer then (counted, Thrown(BadState))
    else if m.phase == IVSet && m.HeaderLength() != m.totalHeader then
      (counted.(spoiled := true), Thrown(InvalidArgument))
    else
      var output := Transformed(m.cipher, m.nonce, |m.message|, input);
      (counted.(phase := Authenticating, message := m.message + (if m.encrypting then input else output),
                spoiled := m.spoiled || m.lengths.None?),
       Done(output))
  }

  /** `residue` is what comes out where the session gives the tag no meaning. */
  ghost function FinalStep(m: Machine, macSize: nat, residue: Block): (r: (Machine, Outcome))
    requires m.Sound() && macSize <= 16
    ensures r.0.Sound()
  {
    if m.totalFooter > 0 then (m, Thrown(InvalidArgument))
    else if m.phase == Start || m.phase == KeySet then (m, Thrown(BadState))
    else if m.phase == IVSet && m.HeaderLength() != m.totalHeader then (m, Thrown(InvalidArgument))
    else if m.phase != Footer && m.MessageLength() != m.totalMessage then
      (m.(spoiled := m.spoiled || m.phase == IVSet), Thrown(InvalidArgument))
    else
      var tag := if Meaningful(m) then Tag(m.cipher, m.nonce, m.digestSize, m.header, m.message) else residue;
      (m.(phase := KeySet), Done(tag[..macSize]))
  }

  ghost function RestartStep(m: Machine): (r: (Machine, Outcome))
    ensures m.Sound() ==> r.0.Sound()
  {
    (if m.phase == Start then m else m.(phase := KeySet), Done([]))
  }

  /** A call respects the widths of the source's types and its buffer. */
  ghost predicate Callable(op: Op) {
    && (op.SpecifyDataLengths? ==> op.headerLength < TWO_TO_THE_64 && op.messageLength < TWO_TO_THE_64)
    && (op.TruncatedFinal? ==> op.macSize <= 16)
  }

  ghost function Step(m: Machine, op: Op): (r: (Machine, Outcome))
    requires m.Sound() && Callable(op)
    ensures r.0.Sound()
  {
    match op
    case SetKey(e, d, iv) => SetKeyStep(m, e, d, iv)
    case Resynchronize(iv) => ResynchronizeStep(m, iv)
    case SpecifyDataLengths(h, l) => SpecifyStep(m, h, l)
    case Update(input) => UpdateStep(m, input)
    case ProcessData(input) => ProcessStep(m, input)
    case TruncatedFinal(size, residue) => FinalStep(m, size, residue)
    case Restart => RestartStep(m)
  }

  ghost function Run(m: Machine, ops: seq<Op>): (r: (Machine, seq<Outcome>))
    requires m.Sound() && forall k :: 0 <= k < |ops| ==> Callable(ops[k])
    ensures r.0.Sound() && |r.1| == |ops|
  {
    if ops == [] then (m, [])
    else
      var before := Run(m, ops[..|ops| - 1]);
      var last := Step(before.0, ops[|ops| - 1]);
      (last.0, before.1 + [last.1])
  }
}
