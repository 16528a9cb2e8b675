/** Whole runs of the authenticated-cipher machine: safety of every run, and what complete runs compute. */
module AeadRuns {
  import opened Numbers
  import opened Bytes
  import opened Chunks
  import opened CbcMac
  import opened CounterMode
  import opened Rfc3610
  import opened AeadMachine
  import opened Options

  // ---------- Safety of every run ----------

  /**
   What an observer of the calls and their outcomes knows: the state, the octets counted since the last
   synchronisation, in 64 bits, and the lengths declared for them.
   */
  datatype Observer = Observer(keyed: bool, synchronized: bool, payload: bool, footer: bool,
                               header: nat, message: nat, declared: Lengths)

  const UNSEEN: Observer := Observer(false, false, false, false, 0, 0, Lengths(0, 0))

  ghost function Observe(o: Observer, op: Op, outcome: Outcome): (r: Observer) {
    match op
    case SetKey(key, tagLength, _) =>
      UNSEEN.(keyed := key.Some? && ValidTagLength(tagLength), synchronized := outcome.Done?)
    case Resynchronize(_) =>
      if outcome.Done? then UNSEEN.(keyed := true, synchronized := true)
      else if outcome.error == InvalidArgument then o.(synchronized := false, payload := false, footer := false)
      else o
    case SpecifyDataLengths(header, message) => if outcome.Done? then o.(declared := Lengths(header, message)) else o
    case Update(input) =>
      if outcome.Thrown? || input == [] then o
      else if o.payload then o.(footer := true)
      else o.(header := (o.header + |input|) % TWO_TO_THE_64)
    case ProcessData(input) =>
      o.(payload := o.payload || outcome.Done?, message := (o.message + |input|) % TWO_TO_THE_64)
    case TruncatedFinal(_, _) => if outcome.Done? then o.(synchronized := false, payload := false, footer := false) else o
    case Restart => o.(synchronized := false, payload := false, footer := false)
  }

  ghost function Watch(ops: seq<Op>, outcomes: seq<Outcome>): (r: Observer)
    requires |ops| == |outcomes|
  {
    if ops == [] then UNSEEN
    else
      var n := |ops| - 1;
      Observe(Watch(ops[..n], outcomes[..n]), ops[n], outcomes[n])
  }

  ghost predicate Agrees(m: Machine, o: Observer) {
    && (o.keyed <==> m.phase != Start)
    && (o.synchronized <==> m.phase in {IVSet, Authenticating, Footer})
    && (o.payload <==> m.phase in {Authenticating, Footer})
    && (o.footer <==> m.phase == Footer)
    && (o.synchronized ==> o.header == m.totalHeader && o.message == m.totalMessage)
    && (o.synchronized ==> o.declared == Lengths(m.HeaderLength(), m.MessageLength()))
    && (o.payload ==> o.header == o.declared.header)
  }

  lemma {:induction false} StepAgrees(m: Machine, o: Observer, op: Op)
    requires m.Sound() && Callable(op) && Agrees(m, o)
    ensures Agrees(Step(m, op).0, Observe(o, op, Step(m, op).1))
    ensures op.ProcessData? && Step(m, op).1.Done? ==> MayProcess(o)
    ensures op.TruncatedFinal? && Step(m, op).1.Done? ==> MayEnd(o)
  {
    hide Tag, Transformed;
  }

  /** Payload may go through: key, nonce, the whole of the declared header, and no footer. */
  predicate MayProcess(o: Observer) {
    o.keyed && o.synchronized && !o.footer && o.header == o.declared.header
  }

  /** A tag may come out: key, nonce, the whole of the declared header and the whole of the declared message. */
  predicate MayEnd(o: Observer) {
    o.keyed && o.synchronized && o.header == o.declared.header && (!o.footer ==> o.message == o.declared.message)
  }

  ghost predicate AllCallable(ops: seq<Op>) {
    forall k :: 0 <= k < |ops| ==> Callable(ops[k])
  }

  lemma {:induction false} RunAgrees(m: Machine, ops: seq<Op>)
    requires m.Sound() && m.phase == Start && AllCallable(ops)
    ensures Agrees(Run(m, ops).0, Watch(ops, Run(m, ops).1))
  {
    hide Step, Observe;
    if ops != [] {
      var n := |ops| - 1;
      RunAgrees(m, ops[..n]);
      assert Run(m, ops).1[..n] == Run(m, ops[..n]).1;
      StepAgrees(Run(m, ops[..n]).0, Watch(ops[..n], Run(m, ops[..n]).1), ops[n]);
    }
  }

  /**
   In every run from a fresh object, payload goes through and a tag comes out only after a key and a
   `Resynchronize` that no earlier tag, key change or restart has used up, and only when exactly the declared header
   octets, and for the tag the declared message octets, have been seen; payload never follows footer data.
   */
  lemma {:induction false} Safety(m: Machine, ops: seq<Op>, k: nat)
    requires m.Sound() && m.phase == Start && AllCallable(ops) && k < |ops|
    ensures var outcomes := Run(m, ops).1;
            var seen := Watch(ops[..k], outcomes[..k]);
            && (ops[k].ProcessData? && outcomes[k].Done? ==> MayProcess(seen))
            && (ops[k].TruncatedFinal? && outcomes[k].Done? ==> MayEnd(seen))
  {
    hide Step, Observe;
    RunPrefix(m, ops, k + 1);
    RunPrefix(m, ops, k);
    RunAgrees(m, ops[..k]);
    assert ops[..k + 1][..k] == ops[..k];
    StepAgrees(Run(m, ops[..k]).0, Watch(ops[..k], Run(m, ops[..k]).1), ops[k]);
  }

  /** In a fresh session exactly the message lengths that fit the length field are accepted. */
  lemma {:induction false} AcceptedLengths(m: Machine, headerLength: nat, messageLength: nat)
    requires m.Sound() && m.phase == IVSet
    ensures SpecifyStep(m, headerLength, messageLength).1.Done? <==> messageLength < Shl(1, 8 * (15 - |m.nonce|))
  {
    hide Shl;
  }

  lemma {:induction false} RunPrefix(m: Machine, ops: seq<Op>, k: nat)
    requires m.Sound() && AllCallable(ops) && k <= |ops|
    ensures Run(m, ops).1[..k] == Run(m, ops[..k]).1
  {
    hide Step;
    if k == |ops| {
      assert ops[..k] == ops;
    } else {
      var n := |ops| - 1;
      RunPrefix(m, ops[..n], k);
      assert ops[..n][..k] == ops[..k];
    }
  }

  // ---------- Complete runs ----------

  ghost function Updates(chunks: seq<seq<byte>>): (ops: seq<Op>)
    ensures |ops| == |chunks| && AllCallable(ops)
  {
    seq(|chunks|, i requires 0 <= i < |chunks| => Update(chunks[i]))
  }

  ghost function Processes(chunks: seq<seq<byte>>): (ops: seq<Op>)
    ensures |ops| == |chunks| && AllCallable(ops)
  {
    seq(|chunks|, i requires 0 <= i < |chunks| => ProcessData(chunks[i]))
  }

  ghost predicate AllDone(outcomes: seq<Outcome>) {
    forall k :: 0 <= k < |outcomes| ==> outcomes[k].Done?
  }

  ghost function Outputs(outcomes: seq<Outcome>): (r: seq<byte>)
    requires AllDone(outcomes)
  {
    if outcomes == [] then []
    else Outputs(outcomes[..|outcomes| - 1]) + outcomes[|outcomes| - 1].output
  }

  lemma {:induction false} RunSplit(m: Machine, a: seq<Op>, b: seq<Op>)
    requires m.Sound() && AllCallable(a) && AllCallable(b)
    ensures AllCallable(a + b)
    ensures Run(m, a + b).0 == Run(Run(m, a).0, b).0
    ensures Run(m, a + b).1 == Run(m, a).1 + Run(Run(m, a).0, b).1
  {
    hide Step;
    if b == [] {
      assert a + b == a;
    } else {
      var n := |b| - 1;
      RunSplit(m, a, b[..n]);
      assert (a + b)[..|a + b| - 1] == a + b[..n];
    }
  }

  lemma {:induction false} RunSnoc(m: Machine, ops: seq<Op>, op: Op)
    requires m.Sound() && AllCallable(ops) && Callable(op) && AllDone(Run(m, ops).1) && Step(Run(m, ops).0, op).1.Done?
    ensures AllCallable(ops + [op])
    ensures Run(m, ops + [op]).0 == Step(Run(m, ops).0, op).0
    ensures AllDone(Run(m, ops + [op]).1)
    ensures Outputs(Run(m, ops + [op]).1) == Outputs(Run(m, ops).1) + Step(Run(m, ops).0, op).1.output
  {
    hide Step;
    assert (ops + [op])[..|ops|] == ops;
    var before := Run(m, ops).1;
    assert (before + [Step(Run(m, ops).0, op).1])[..|ops|] == before;
  }

  /** Header chunks, in any number and of any size, just extend the header. */
  lemma {:induction false} UpdatesRun(m: Machine, hs: seq<seq<byte>>)
    requires m.Sound() && m.phase == IVSet && m.lengths.Some? && m.totalHeader == |m.header|
    requires |m.header| + |Flat(hs)| < TWO_TO_THE_64
    ensures Run(m, Updates(hs)).0 == m.(header := m.header + Flat(hs), totalHeader := |m.header| + |Flat(hs)|)
    ensures AllDone(Run(m, Updates(hs)).1) && Outputs(Run(m, Updates(hs)).1) == []
  {
    hide Run, Outputs;
    if hs != [] {
      var n := |hs| - 1;
      UpdatesRun(m, hs[..n]);
      assert Updates(hs) == Updates(hs[..n]) + [Update(hs[n])];
      var before := Run(m, Updates(hs[..n])).0;
      assert Step(before, Update(hs[n])) == UpdateStep(before, hs[n]);
      RunSnoc(m, Updates(hs[..n]), Update(hs[n]));
      assert m.header + Flat(hs[..n]) + hs[n] == m.header + Flat(hs);
    } else {
      RunNothing(m);
      assert m.header + [] == m.header && Updates(hs) == [];
    }
  }

  lemma {:induction false} RunNothing(m: Machine)
    requires m.Sound()
    ensures Run(m, []).0 == m && Run(m, []).1 == [] && AllDone([]) && Outputs([]) == []
  {
  }

  ghost function PlainText(m: Machine, input: seq<byte>): (r: seq<byte>)
    requires ValidNonce(m.nonce)
    ensures |r| == |input|
  {
    if m.encrypting then input else Transformed(m.cipher, m.nonce, |m.message|, input)
  }

  ghost predicate ReadyForPayload(m: Machine) {
    && m.Sound() && m.lengths.Some? && m.totalMessage == |m.message|
    && (m.phase == Authenticating || (m.phase == IVSet && m.HeaderLength() == m.totalHeader))
  }

  /** Payload chunks, in any number and of any size, are transformed as one text. */
  lemma {:induction false} ProcessesRun(m: Machine, ps: seq<seq<byte>>)
    requires ReadyForPayload(m) && |m.message| + |Flat(ps)| <= m.MaxMessageLength()
             && |m.message| + |Flat(ps)| < TWO_TO_THE_64
    ensures Run(m, Processes(ps)).0 == m.(phase := if ps == [] then m.phase else Authenticating,
                                          message := m.message + PlainText(m, Flat(ps)),
                                          totalMessage := |m.message| + |Flat(ps)|)
    ensures AllDone(Run(m, Processes(ps)).1)
    ensures Outputs(Run(m, Processes(ps)).1) == Transformed(m.cipher, m.nonce, |m.message|, Flat(ps))
  {
    hide Transformed, Run, Outputs;
    if ps != [] {
      var n := |ps| - 1;
      ProcessesRun(m, ps[..n]);
      assert Processes(ps) == Processes(ps[..n]) + [ProcessData(ps[n])];
      var before := Run(m, Processes(ps[..n])).0;
      assert Step(before, ProcessData(ps[n])) == ProcessStep(before, ps[n]);
      OneMoreChunk(m, before, Flat(ps[..n]), ps[n]);
      RunSnoc(m, Processes(ps[..n]), ProcessData(ps[n]));
    } else {
      RunNothing(m);
      assert m.message + PlainText(m, []) == m.message && Processes(ps) == [];
      assert Transformed(m.cipher, m.nonce, |m.message|, []) == [];
    }
  }

  lemma {:induction false} TransformedSplit(e: Cipher, nonce: seq<byte>, start: nat, a: seq<byte>, b: seq<byte>)
    requires ValidNonce(nonce)
    ensures Transformed(e, nonce, start, a + b)
            == Transformed(e, nonce, start, a) + Transformed(e, nonce, start + |a|, b)
  {
    TransformSplit(e, CounterBlock(nonce, 0), 16 + start, a, b);
  }

  lemma {:induction false} OneMoreChunk(m: Machine, b: Machine, done: seq<byte>, chunk: seq<byte>)
    requires ReadyForPayload(m) && |m.message| + |done + chunk| <= m.MaxMessageLength()
             && |m.message| + |done + chunk| < TWO_TO_THE_64
    requires b.Sound() && (b.phase == m.phase || b.phase == Authenticating)
    requires b == m.(phase := b.phase, message := m.message + PlainText(m, done), totalMessage := |m.message| + |done|)
    ensures ProcessStep(b, chunk).0 == m.(phase := Authenticating, message := m.message + PlainText(m, done + chunk),
                                          totalMessage := |m.message| + |done + chunk|)
    ensures ProcessStep(b, chunk).1.Done?
    ensures Transformed(m.cipher, m.nonce, |m.message|, done) + ProcessStep(b, chunk).1.output
            == Transformed(m.cipher, m.nonce, |m.message|, done + chunk)
  {
    hide Transformed, Shl, PlainText;
    TransformedSplit(m.cipher, m.nonce, |m.message|, done, chunk);
    PlainTextSplit(m, done, chunk);
    var more := if m.encrypting then chunk else Transformed(m.cipher, m.nonce, |b.message|, chunk);
    assert b.message + more == m.message + PlainText(m, done + chunk);
  }

  lemma {:induction false} PlainTextSplit(m: Machine, done: seq<byte>, chunk: seq<byte>)
    requires ValidNonce(m.nonce)
    ensures |PlainText(m, done)| == |done|
    ensures var more := if m.encrypting then chunk
                        else Transformed(m.cipher, m.nonce, |m.message + PlainText(m, done)|, chunk);
            m.message + PlainText(m, done) + more == m.message + PlainText(m, done + chunk)
  {
    hide Transformed;
    TransformedSplit(m.cipher, m.nonce, |m.message|, done, chunk);
    var more := if m.encrypting then chunk else Transformed(m.cipher, m.nonce, |m.message + PlainText(m, done)|, chunk);
    assert PlainText(m, done) + more == PlainText(m, done + chunk);
    assert m.message + PlainText(m, done) + more == m.message + (PlainText(m, done) + more);
  }

  /** Synchronise, give the lengths, then header and payload in any pieces. */
  ghost function DataOps(iv: seq<byte>, hs: seq<seq<byte>>, ps: seq<seq<byte>>): (ops: seq<Op>)
    requires |Flat(hs)| < TWO_TO_THE_64 && |Flat(ps)| < TWO_TO_THE_64
    ensures AllCallable(ops)
  {
    Opening(iv, |Flat(hs)|, |Flat(ps)|) + Updates(hs) + Processes(ps)
  }

  ghost function Opening(iv: seq<byte>, headerLength: nat, messageLength: nat): (ops: seq<Op>)
    requires headerLength < TWO_TO_THE_64 && messageLength < TWO_TO_THE_64
    ensures AllCallable(ops)
  {
    [Resynchronize(iv), SpecifyDataLengths(headerLength, messageLength)]
  }

  ghost predicate ValidSession(m: Machine, iv: seq<byte>, hs: seq<seq<byte>>, ps: seq<seq<byte>>) {
    && m.Sound() && m.phase != Start && ValidNonce(iv)
    && |Flat(hs)| < TWO_TO_THE_64 && |Flat(ps)| < TWO_TO_THE_64 && |Flat(ps)| < Shl(1, 8 * (15 - |iv|))
  }

  ghost function SessionText(m: Machine, iv: seq<byte>, ps: seq<seq<byte>>): (text: seq<byte>)
    requires ValidNonce(iv)
  {
    if m.encrypting then Flat(ps) else Transformed(m.cipher, iv, 0, Flat(ps))
  }

  /** The machine after the opening calls. */
  ghost function Opened(m: Machine, iv: seq<byte>, headerLength: nat, messageLength: nat): (r: Machine)
    requires ValidNonce(iv)
  {
    m.(phase := IVSet, lengthOctets := 15 - |iv|, nonce := iv, lengths := Some(Lengths(headerLength, messageLength)),
       header := [], message := [], totalHeader := 0, totalMessage := 0, totalFooter := 0, spoiled := false)
  }

  /** The machine just before the tag is asked for: nothing is spoiled, and the lengths match. */
  ghost function BeforeTag(m: Machine, iv: seq<byte>, hs: seq<seq<byte>>, ps: seq<seq<byte>>): (r: Machine)
    requires ValidSession(m, iv, hs, ps)
  {
    Opened(m, iv, |Flat(hs)|, |Flat(ps)|).(
      phase := if ps == [] then IVSet else Authenticating, header := Flat(hs), message := SessionText(m, iv, ps),
      totalHeader := |Flat(hs)|, totalMessage := |Flat(ps)|)
  }

  /** The calls `ops` all succeed, leave `m'`, and return `output` in all. */
  ghost predicate Returns(m: Machine, ops: seq<Op>, m': Machine, output: seq<byte>)
    requires m.Sound() && AllCallable(ops)
  {
    Run(m, ops).0 == m' && AllDone(Run(m, ops).1) && Outputs(Run(m, ops).1) == output
  }

  lemma {:induction false} ReturnsSplit(m: Machine, a: seq<Op>, m1: Machine, out1: seq<byte>, b: seq<Op>, m2: Machine,
                                        out2: seq<byte>)
    requires m.Sound() && AllCallable(a) && AllCallable(b) && Returns(m, a, m1, out1) && Returns(m1, b, m2, out2)
    ensures AllCallable(a + b) && Returns(m, a + b, m2, out1 + out2)
  {
    hide Run, Outputs;
    RunSplit(m, a, b);
    OutputsSplit(Run(m, a).1, Run(m1, b).1);
  }

  lemma {:induction false} OutputsSplit(a: seq<Outcome>, b: seq<Outcome>)
    requires AllDone(a) && AllDone(b)
    ensures AllDone(a + b) && Outputs(a + b) == Outputs(a) + Outputs(b)
  {
    if b == [] {
      assert a + b == a;
    } else {
      var n := |b| - 1;
      OutputsSplit(a, b[..n]);
      assert (a + b)[..|a| + n] == a + b[..n] && (a + b)[|a| + n] == b[n];
      assert Outputs(a + b) == Outputs(a + b[..n]) + b[n].output;
      assert Outputs(a) + (Outputs(b[..n]) + b[n].output) == Outputs(a) + Outputs(b[..n]) + b[n].output;
    }
  }

  lemma {:induction false} OpeningRun(m: Machine, iv: seq<byte>, headerLength: nat, messageLength: nat)
    requires m.Sound() && m.phase != Start && ValidNonce(iv) && headerLength < TWO_TO_THE_64
             && messageLength < TWO_TO_THE_64
    requires messageLength < Shl(1, 8 * (15 - |iv|))
    ensures Returns(m, Opening(iv, headerLength, messageLength), Opened(m, iv, headerLength, messageLength), [])
  {
    hide Run, Outputs;
    var op1, op2 := Resynchronize(iv), SpecifyDataLengths(headerLength, messageLength);
    RunNothing(m);
    assert Step(m, op1) == ResynchronizeStep(m, iv);
    RunSnoc(m, [], op1);
    var m1 := ResynchronizeStep(m, iv).0;
    assert Step(m1, op2) == SpecifyStep(m1, headerLength, messageLength);
    assert [] + [op1] == [op1];
    RunSnoc(m, [op1], op2);
    assert [op1] + [op2] == Opening(iv, headerLength, messageLength);
  }

  lemma {:induction false} DataRun(m: Machine, iv: seq<byte>, hs: seq<seq<byte>>, ps: seq<seq<byte>>)
    requires ValidSession(m, iv, hs, ps)
    ensures Returns(m, DataOps(iv, hs, ps), BeforeTag(m, iv, hs, ps), Transformed(m.cipher, iv, 0, Flat(ps)))
  {
    hide Transformed, Flat, Run, Outputs;
    var ops := Opening(iv, |Flat(hs)|, |Flat(ps)|);
    OpeningRun(m, iv, |Flat(hs)|, |Flat(ps)|);
    var m1 := Opened(m, iv, |Flat(hs)|, |Flat(ps)|);
    UpdatesRun(m1, hs);
    assert [] + Flat(hs) == Flat(hs);
    var m2 := m1.(header := Flat(hs), totalHeader := |Flat(hs)|);
    ReturnsSplit(m, ops, m1, [], Updates(hs), m2, []);
    ProcessesRun(m2, ps);
    assert [] + PlainText(m2, Flat(ps)) == SessionText(m, iv, ps);
    var m3 := BeforeTag(m, iv, hs, ps);
    ReturnsSplit(m, ops + Updates(hs), m2, [] + [], Processes(ps), m3, Transformed(m.cipher, iv, 0, Flat(ps)));
    assert [] + [] + Transformed(m.cipher, iv, 0, Flat(ps)) == Transformed(m.cipher, iv, 0, Flat(ps));
  }

  /** What a complete session returns: the payload transformed, then the tag. */
  ghost predicate SessionReturns(m: Machine, iv: seq<byte>, hs: seq<seq<byte>>, ps: seq<seq<byte>>, macSize: nat,
                                 residue: Block, output: seq<byte>)
    requires ValidSession(m, iv, hs, ps) && macSize <= 16
  {
    var ops := DataOps(iv, hs, ps) + [TruncatedFinal(macSize, residue)];
    AllDone(Run(m, ops).1) && Outputs(Run(m, ops).1) == output
  }

  /** What is authenticated is the plain text; RFC 3610 decrypts with the same key stream. */
  ghost function RfcText(m: Machine, iv: seq<byte>, ps: seq<seq<byte>>): (text: seq<byte>)
    requires ValidNonce(iv)
  {
    if m.encrypting then Flat(ps) else Crypt(m.cipher, iv, 0, Flat(ps))
  }

  /**
   A complete session never throws; it returns the payload encrypted or decrypted as one text, then the
   tag, as sections 2.2 to 2.4 of RFC 3610 define them for the whole header and the whole plain text.
   */
  lemma {:induction false} CompleteRun(m: Machine, iv: seq<byte>, hs: seq<seq<byte>>, ps: seq<seq<byte>>, macSize: nat,
                                       residue: Block)
    requires ValidSession(m, iv, hs, ps) && macSize <= 16
    ensures SessionReturns(m, iv, hs, ps, macSize, residue,
                           Crypt(m.cipher, iv, 0, Flat(ps))
                           + Tag(m.cipher, iv, m.digestSize, Flat(hs), RfcText(m, iv, ps))[..macSize])
  {
    hide Transformed, Transform, Crypt, Flat, Tag, Run, Outputs, DataOps;
    DataRun(m, iv, hs, ps);
    var before := BeforeTag(m, iv, hs, ps);
    var op := TruncatedFinal(macSize, residue);
    assert Step(before, op) == FinalStep(before, macSize, residue);
    RunSnoc(m, DataOps(iv, hs, ps), op);
    TransformedIsCrypt(m.cipher, iv, Flat(ps));
  }

  lemma {:induction false} TransformedIsCrypt(e: Cipher, iv: seq<byte>, data: seq<byte>)
    requires ValidNonce(iv) && |data| < Shl(1, 8 * (15 - |iv|))
    ensures Transformed(e, iv, 0, data) == Crypt(e, iv, 0, data)
  {
    TransformIsCrypt(e, iv, 0, data);
  }

  /** Decryption returns the plain text and the same tag, however either side cut up its input. */
  lemma {:induction false} RoundTrip(sender: Machine, receiver: Machine, iv: seq<byte>, hs: seq<seq<byte>>,
                                     hs': seq<seq<byte>>,
                                     ps: seq<seq<byte>>, cs: seq<seq<byte>>, macSize: nat,
                                     residue: Block, residue': Block, tag: seq<byte>)
    requires ValidSession(sender, iv, hs, ps) && ValidSession(receiver, iv, hs', cs) && macSize <= 16
    requires sender.encrypting && !receiver.encrypting
    requires sender.cipher == receiver.cipher && sender.digestSize == receiver.digestSize && Flat(hs) == Flat(hs')
    requires |tag| == macSize && SessionReturns(sender, iv, hs, ps, macSize, residue, Flat(cs) + tag)
    ensures SessionReturns(receiver, iv, hs', cs, macSize, residue', Flat(ps) + tag)
  {
    hide Transform, Crypt, Flat, Tag, Run, Outputs, DataOps;
    CompleteRun(sender, iv, hs, ps, macSize, residue);
    CompleteRun(receiver, iv, hs', cs, macSize, residue');
    TransformedIsCrypt(sender.cipher, iv, Flat(ps));
    TransformedIsCrypt(sender.cipher, iv, Flat(cs));
    var c := Crypt(sender.cipher, iv, 0, Flat(ps));
    var t := Tag(sender.cipher, iv, sender.digestSize, Flat(hs), Flat(ps))[..macSize];
    assert c + t == Flat(cs) + tag;
    assert |c| == |Flat(cs)|;
    assert c == (c + t)[..|c|] == Flat(cs) && t == (c + t)[|c|..] == tag;
    TransformTwice(sender.cipher, CounterBlock(iv, 0), 16, Flat(ps));
  }
}
