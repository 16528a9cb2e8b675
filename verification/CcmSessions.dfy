/** Whole sessions of the buffered CCM object, however header and payload are cut up. */
module CcmSessions {
  import opened Numbers
  import opened Bytes
  import opened Chunks
  import opened CbcMac
  import opened CounterMode
  import opened Rfc3610
  import opened AeadMachine
  import opened AeadRuns
  import Ccm
  import opened Options

  /** `Resynchronize`, then the lengths. */
  method Open(c: Ccm.CipherObject, iv: seq<byte>, headerLength: nat, messageLength: nat)
    requires c.Valid() && c.view.phase != Start && ValidNonce(iv) && headerLength < TWO_TO_THE_64
             && messageLength < TWO_TO_THE_64
    requires messageLength < Shl(1, 8 * (15 - |iv|))
    modifies c, c.buffer
    ensures c.Valid() && c.view == Opened(old(c.view), iv, headerLength, messageLength)
  {
    hide Shl, ValidTagLength;
    var synchronised := c.Resynchronize(iv);
    var specified := c.SpecifyDataLengths(headerLength, messageLength);
  }

  /** The header, chunk by chunk. */
  method FeedHeader(c: Ccm.CipherObject, hs: seq<seq<byte>>)
    requires c.Valid() && c.view.phase == IVSet && c.view.lengths.Some? && c.view.header == []
             && c.view.totalHeader == 0
    requires |Flat(hs)| < TWO_TO_THE_64
    modifies c, c.buffer
    ensures c.Valid() && c.view == old(c.view).(header := Flat(hs), totalHeader := |Flat(hs)|)
  {
    hide Flat, Ccm.CipherObject.Valid;
    ghost var m := c.view;
    var i := 0;
    FlatNothing();
    assert hs[..0] == [];
    while i < |hs|
      invariant 0 <= i <= |hs| && c.Valid()
      invariant c.view == m.(header := Flat(hs[..i]), totalHeader := |Flat(hs[..i])|)
    {
      FlatTake(hs, i);
      FlatBound(hs, i + 1);
      var outcome := c.Update(hs[i]);
      i := i + 1;
    }
    assert hs[..i] == hs;
  }

  lemma {:induction false} ViewIsSound(c: Ccm.CipherObject)
    requires c.Valid()
    ensures c.view.Sound() && c.view.cipher == c.cipher && c.view.digestSize == c.digestSize
            && c.view.encrypting == c.encrypting
  {
  }

  /** The payload, chunk by chunk. */
  method FeedPayload(c: Ccm.CipherObject, ps: seq<seq<byte>>) returns (output: seq<byte>)
    requires c.Valid() && ReadyForPayload(c.view)
    requires |c.view.message| + |Flat(ps)| <= c.view.MaxMessageLength() && |c.view.message| + |Flat(ps)| < TWO_TO_THE_64
    modifies c, c.buffer
    ensures c.Valid() && ReadyForPayload(old(c.view))
    ensures var m := old(c.view);
            && c.view == m.(phase := if ps == [] then m.phase else Authenticating,
                            message := m.message + PlainText(m, Flat(ps)), totalMessage := |m.message| + |Flat(ps)|)
            && output == Transformed(m.cipher, m.nonce, |m.message|, Flat(ps))
  {
    hide Flat, Ccm.CipherObject.Valid, Transformed, PlainText, Machine.MaxMessageLength;
    ghost var m := c.view;
    output := [];
    var i := 0;
    FlatNothing();
    NothingDone(m);
    assert ps[..0] == [];
    while i < |ps|
      invariant 0 <= i <= |ps| && c.Valid()
      invariant c.view == m.(phase := if i == 0 then m.phase else Authenticating,
                             message := m.message + PlainText(m, Flat(ps[..i])), totalMessage := |m.message| + |Flat(ps[..i])|)
      invariant output == Transformed(m.cipher, m.nonce, |m.message|, Flat(ps[..i]))
    {
      FlatTake(ps, i);
      FlatBound(ps, i + 1);
      ViewIsSound(c);
      OneMoreChunk(m, c.view, Flat(ps[..i]), ps[i]);
      var outcome := c.ProcessData(ps[i]);
      output := output + outcome.output;
      i := i + 1;
    }
    assert ps[..i] == ps;
  }

  lemma {:induction false} NothingDone(m: Machine)
    requires ValidNonce(m.nonce)
    ensures m.message + PlainText(m, []) == m.message && Transformed(m.cipher, m.nonce, |m.message|, []) == []
  {
  }

  /**
   A session of the buffered object: it returns the payload encrypted or decrypted as sections 2.3 and 2.4 of
   RFC 3610 say, and the tag of section 2.2 over the whole header and plain text, for every cutting of both.
   */
  method Session(c: Ccm.CipherObject, iv: seq<byte>, hs: seq<seq<byte>>, ps: seq<seq<byte>>, headerLength: nat,
                 messageLength: nat,
                 macSize: nat) returns (text: seq<byte>, tag: seq<byte>)
    requires c.Valid() && ValidSession(c.view, iv, hs, ps) && macSize <= 16
    requires headerLength == |Flat(hs)| && messageLength == |Flat(ps)|
    modifies c, c.buffer
    ensures c.Valid() && c.state == KeySet && c.cipher == old(c.cipher) && c.digestSize == old(c.digestSize)
    ensures text == Crypt(c.cipher, iv, 0, Flat(ps))
    ensures tag == Tag(c.cipher, iv, c.digestSize, Flat(hs), if c.encrypting then Flat(ps) else text)[..macSize]
  {
    hide Flat, Transformed, Crypt, Tag, Shl;
    ghost var m := c.view;
    Open(c, iv, headerLength, messageLength);
    FeedHeader(c, hs);
    text := FeedPayload(c, ps);
    TransformedIsCrypt(m.cipher, iv, Flat(ps));
    assert c.view == BeforeTag(m, iv, hs, ps);
    var outcome;
    ghost var residue;
    outcome, residue := c.TruncatedFinal(macSize);
    tag := outcome.output;
  }

  /**
   One object encrypts, another decrypts what comes out of it: the plain text returns and the tags agree, however either
   side cuts.
   */
  method SendAndReceive(sender: Ccm.CipherObject, receiver: Ccm.CipherObject, iv: seq<byte>, header: seq<byte>,
                        message: seq<byte>,
                        headerCuts: seq<nat>, headerCuts': seq<nat>, cuts: seq<nat>, cuts': seq<nat>, macSize: nat)
      returns (received: seq<byte>, tag: seq<byte>, tag': seq<byte>)
    requires sender != receiver && sender.buffer != receiver.buffer && sender.Valid() && receiver.Valid()
    requires sender.encrypting && !receiver.encrypting && sender.state != Start && receiver.state != Start
    requires sender.cipher == receiver.cipher && sender.digestSize == receiver.digestSize
    requires ValidNonce(iv) && |header| < TWO_TO_THE_64 && |message| < TWO_TO_THE_64
             && |message| < Shl(1, 8 * (15 - |iv|)) && macSize <= 16
    modifies sender, sender.buffer, receiver, receiver.buffer
    ensures sender.Valid() && receiver.Valid() && sender.state == receiver.state == KeySet
    ensures sender.cipher == old(sender.cipher) && sender.digestSize == old(sender.digestSize)
    ensures received == message && tag' == tag
    ensures tag == Tag(sender.cipher, iv, sender.digestSize, header, message)[..macSize]
  {
    hide Flat, Crypt, Tag, Shl, Cut, Ccm.CipherObject.Valid;
    FlatCut(header, headerCuts);
    FlatCut(header, headerCuts');
    FlatCut(message, cuts);
    ReadyToOpen(sender);
    ReadyToOpen(receiver);
    var sent;
    sent, tag := Session(sender, iv, Cut(header, headerCuts), Cut(message, cuts), |header|, |message|, macSize);
    CryptLength(sender.cipher, iv, message);
    FlatCut(sent, cuts');
    received, tag' := Session(receiver, iv, Cut(header, headerCuts'), Cut(sent, cuts'), |header|, |sent|, macSize);
    CryptTwice(sender.cipher, iv, message);
  }

  lemma {:induction false} ReadyToOpen(c: Ccm.CipherObject)
    requires c.Valid()
    ensures c.view.Sound() && c.view.phase == c.state
  {
  }

  lemma {:induction false} CryptLength(e: Cipher, iv: seq<byte>, data: seq<byte>)
    requires ValidNonce(iv)
    ensures |Crypt(e, iv, 0, data)| == |data|
  {
  }

  lemma {:induction false} CryptTwice(e: Cipher, iv: seq<byte>, data: seq<byte>)
    requires ValidNonce(iv) && |data| < Shl(1, 8 * (15 - |iv|))
    ensures Crypt(e, iv, 0, Crypt(e, iv, 0, data)) == data
  {
    hide Transform, Crypt, Shl;
    CryptLength(e, iv, data);
    TransformedIsCrypt(e, iv, data);
    TransformedIsCrypt(e, iv, Crypt(e, iv, 0, data));
    TransformTwice(e, CounterBlock(iv, 0), 16, data);
  }

  /**
   Lengths are never asked for: after key and nonce alone a tag comes out. It is what the last session left in the
   chaining half of the buffer, under key-stream block 0.
   */
  method TagWithoutLengths(c: Ccm.CipherObject, e: Cipher, iv: seq<byte>) returns (keyed: Outcome, tag: Outcome)
    requires c.Valid() && ValidNonce(iv)
    modifies c, c.buffer
    ensures c.Valid() && c.state == KeySet && keyed == Done([])
    ensures tag == Done(XorBytes(old(c.buffer[16..]), e(CounterBlock(iv, 0))))
  {
    hide Tag, CounterBlock, XorBytes;
    keyed := c.SetKey(Some(e), 16, Some(iv));
    ghost var residue;
    NothingPending(c);
    tag, residue := c.TruncatedFinal(16);
    assert residue[..16] == residue;
  }

  lemma {:induction false} NothingPending(c: Ccm.CipherObject)
    requires c.Valid() && c.view.phase == IVSet && c.view.lengths.None? && !c.view.spoiled
    ensures c.buffer[..c.buffered] == [] && c.ctrIV == CounterBlock(c.view.nonce, 0) && |c.buffer[16..]| == 16
    ensures Closed(c.cipher, c.buffer[16..], []) == c.buffer[16..]
  {
  }
}
