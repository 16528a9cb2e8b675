/** `CMAC_Base` of `cmac.cpp` over an arbitrary block cipher. */
module Cmac {
  import opened Numbers
  import opened Bytes
  import opened GaloisDoubling

  /** A keyed block cipher: any function that keeps the block size. */
  type Cipher = seq<byte> -> seq<byte>

  ghost predicate IsCipher(e: Cipher, size: nat) {
    size >= 1 && forall s :: |s| == size ==> |e(s)| == size
  }

  /** One step of the chain. */
  ghost function Step(e: Cipher, size: nat, x: seq<byte>, block: seq<byte>): (r: seq<byte>)
    requires IsCipher(e, size) && |x| == size && |block| == size
    ensures |r| == size
  {
    e(XorBytes(x, block))
  }

  /** The last block: complete, with the first subkey, or completed by a one and zeros, with the second. */
  ghost function LastBlock(size: nat, k1: seq<byte>, k2: seq<byte>, s: seq<byte>): (r: seq<byte>)
    requires |s| <= size && |k1| == |k2| == size
    ensures |r| == size
  {
    if |s| == size then XorBytes(s, k1) else XorBytes(s + [0x80] + Zeros(size - |s| - 1), k2)
  }

  /** Section 6.2 of NIST SP 800-38B, from the chaining value `x` on. */
  ghost function Mac(e: Cipher, size: nat, k1: seq<byte>, k2: seq<byte>, x: seq<byte>, s: seq<byte>): (r: seq<byte>)
    requires IsCipher(e, size) && |x| == |k1| == |k2| == size
    ensures |r| == size
    decreases |s|
  {
    if |s| <= size then Step(e, size, x, LastBlock(size, k1, k2, s))
    else Mac(e, size, k1, k2, Step(e, size, x, s[..size]), s[size..])
  }

  ghost function Subkey1(e: Cipher, size: nat): (k: seq<byte>)
    requires IsCipher(e, size)
    ensures |k| == size
  {
    MulU(e(Zeros(size)))
  }

  /** CMAC of a message, subkeys as in section 6.1 of NIST SP 800-38B. */
  ghost function OneShot(e: Cipher, size: nat, message: seq<byte>): (mac: seq<byte>)
    requires IsCipher(e, size)
    ensures |mac| == size
  {
    Mac(e, size, Subkey1(e, size), MulU(Subkey1(e, size)), Zeros(size), message)
  }

  /** Whole blocks, none of them the last. */
  ghost function Chain(e: Cipher, size: nat, x: seq<byte>, n: nat, s: seq<byte>): (r: seq<byte>)
    requires IsCipher(e, size) && |x| == size && |s| == n * size
    ensures |r| == size
    decreases n
  {
    if n == 0 then x
    else
      MulAtLeast(n, size);
      OneLess(n, size);
      Chain(e, size, Step(e, size, x, s[..size]), n - 1, s[size..])
  }

  lemma {:induction false} ChainOne(e: Cipher, size: nat, x: seq<byte>, n: nat, s: seq<byte>, block: seq<byte>)
    requires IsCipher(e, size) && |x| == size && |s| == n * size && |block| == size
    ensures |s + block| == (n + 1) * size
    ensures Chain(e, size, x, n + 1, s + block) == Step(e, size, Chain(e, size, x, n, s), block)
    decreases n
  {
    hide Step;
    OneLess(n + 1, size);
    if n == 0 {
      assert s + block == block && block[..size] == block && block[size..] == [];
    } else {
      MulAtLeast(n, size);
      OneLess(n, size);
      assert (s + block)[..size] == s[..size] && (s + block)[size..] == s[size..] + block;
      ChainOne(e, size, Step(e, size, x, s[..size]), n - 1, s[size..], block);
    }
  }

  /** As long as something follows, the blocks before it may be chained first. */
  lemma {:induction false} MacAfter(e: Cipher, size: nat, k1: seq<byte>, k2: seq<byte>, x: seq<byte>, n: nat,
                                    s: seq<byte>, rest: seq<byte>)
    requires IsCipher(e, size) && |x| == |k1| == |k2| == size && |s| == n * size && (rest != [] || n == 0)
    ensures Mac(e, size, k1, k2, x, s + rest) == Mac(e, size, k1, k2, Chain(e, size, x, n, s), rest)
    decreases n
  {
    hide Step, LastBlock;
    if n == 0 {
      assert s + rest == rest;
    } else {
      MulAtLeast(n, size);
      OneLess(n, size);
      assert (s + rest)[..size] == s[..size] && (s + rest)[size..] == s[size..] + rest;
      MacAfter(e, size, k1, k2, Step(e, size, x, s[..size]), n - 1, s[size..], rest);
    }
  }

  /** The register: `n` whole blocks chained, the pending octets added to the front. */
  ghost predicate Absorbed(e: Cipher, size: nat, n: nat, whole: seq<byte>, pending: seq<byte>, reg: seq<byte>) {
    && IsCipher(e, size) && |whole| == n * size && |pending| <= size
    && reg == XorBytes(Chain(e, size, Zeros(size), n, whole), pending + Zeros(size - |pending|))
  }

  /** Octets added to the register from `at` on. */
  ghost function Added(reg: seq<byte>, at: nat, x: seq<byte>): (r: seq<byte>)
    requires at + |x| <= |reg|
    ensures |r| == |reg|
  {
    reg[..at] + XorBytes(reg[at..at + |x|], x) + reg[at + |x|..]
  }

  /** Adding octets behind the pending ones is adding a longer block. */
  lemma {:induction false} AddedTo(x: seq<byte>, p: seq<byte>, q: seq<byte>)
    requires |p| + |q| <= |x|
    ensures Added(XorBytes(x, p + Zeros(|x| - |p|)), |p|, q) == XorBytes(x, p + q + Zeros(|x| - |p| - |q|))
  {
    hide XorByte;
    var size, reg := |x|, XorBytes(x, p + Zeros(|x| - |p|));
    forall i | |p| <= i < |p| + |q| ensures XorByte(reg[i], q[i - |p|]) == XorByte(x[i], q[i - |p|]) {
      XorByteZero(x[i]);
    }
  }

  lemma {:induction false} MorePending(e: Cipher, size: nat, n: nat, whole: seq<byte>, pending: seq<byte>,
                                       reg: seq<byte>, x: seq<byte>)
    requires Absorbed(e, size, n, whole, pending, reg) && |pending| + |x| <= size
    ensures |reg| == size && Absorbed(e, size, n, whole, pending + x, Added(reg, |pending|, x))
  {
    hide Chain, XorBytes, Added;
    AddedTo(Chain(e, size, Zeros(size), n, whole), pending, x);
  }

  /** A full register is encrypted. */
  lemma {:induction false} BlockDone(e: Cipher, size: nat, n: nat, whole: seq<byte>, pending: seq<byte>, reg: seq<byte>)
    requires Absorbed(e, size, n, whole, pending, reg) && |pending| == size
    ensures Absorbed(e, size, n + 1, whole + pending, [], e(reg))
  {
    hide Chain, XorBytes;
    assert pending + Zeros(0) == pending;
    ChainOne(e, size, Zeros(size), n, whole, pending);
    assert [] + Zeros(size) == Zeros(size);
    XorBytesZeros(e(reg));
  }

  /** The final step gives the reference value, provided a block was held back. */
  lemma {:induction false} FinalBlock(e: Cipher, size: nat, k1: seq<byte>, k2: seq<byte>, n: nat, whole: seq<byte>,
                                      pending: seq<byte>, reg: seq<byte>)
    requires Absorbed(e, size, n, whole, pending, reg) && (pending == [] ==> n == 0) && |k1| == |k2| == size
    ensures |reg| == size
    ensures var last := if |pending| == size then XorBytes(reg, k1) else XorBytes(Added(reg, |pending|, [0x80]), k2);
            e(last) == Mac(e, size, k1, k2, Zeros(size), whole + pending)
  {
    hide Chain, XorBytes, Added, Mac;
    MacAfter(e, size, k1, k2, Zeros(size), n, whole, pending);
    LastStep(e, size, k1, k2, Chain(e, size, Zeros(size), n, whole), pending);
  }

  lemma {:induction false} LastStep(e: Cipher, size: nat, k1: seq<byte>, k2: seq<byte>, x: seq<byte>,
                                    pending: seq<byte>)
    requires IsCipher(e, size) && |x| == |k1| == |k2| == size && |pending| <= size
    ensures var reg := XorBytes(x, pending + Zeros(size - |pending|));
            var last := if |pending| == size then XorBytes(reg, k1) else XorBytes(Added(reg, |pending|, [0x80]), k2);
            e(last) == Mac(e, size, k1, k2, x, pending)
  {
    hide XorBytes, Added;
    if |pending| == size {
      assert pending + Zeros(0) == pending;
      XorBytesAssociates(x, pending, k1);
    } else {
      AddedTo(x, pending, [0x80]);
      XorBytesAssociates(x, pending + [0x80] + Zeros(size - |pending| - 1), k2);
    }
  }

  lemma {:induction false} Fresh(e: Cipher, size: nat)
    requires IsCipher(e, size)
    ensures Absorbed(e, size, 0, [], [], Zeros(size))
  {
    assert [] + Zeros(size) == Zeros(size);
    XorBytesZeros(Zeros(size));
  }

  class CmacBase {
    const size: nat
    const reg: array<byte>     // the first third of `m_reg`
    const sub1: array<byte>    // the second third
    const sub2: array<byte>    // the last third
    var e: Cipher
    var counter: nat
    ghost var n: nat
    ghost var whole: seq<byte>      // the blocks of the message already encrypted
    ghost var pending: seq<byte>    // the octets in the register

    ghost function Message(): (m: seq<byte>)
      reads this`whole, this`pending
    {
      whole + pending
    }

    ghost predicate Shaped()
      reads this`e
    {
      && IsCipher(e, size) && reg.Length == sub1.Length == sub2.Length == size
      && reg != sub1 && reg != sub2 && sub1 != sub2
    }

    ghost predicate Keyed()
      reads this`e, sub1, sub2
    {
      Shaped() && sub1[..] == Subkey1(e, size) && sub2[..] == MulU(Subkey1(e, size))
    }

    /** Keyed, with the message so far absorbed and its last block held back. */
    ghost predicate Valid()
      reads this, reg, sub1, sub2
    {
      Keyed() && Absorbed(e, size, n, whole, pending, reg[..]) && counter == |pending| && (pending == [] ==> n == 0)
    }

    constructor (size: nat)
      ensures this.size == size && fresh(reg) && fresh(sub1) && fresh(sub2)
      ensures reg.Length == sub1.Length == sub2.Length == size && reg != sub1 && reg != sub2 && sub1 != sub2
    {
      this.size := size;
      reg, sub1, sub2 := new byte[size], new byte[size], new byte[size];
      e, counter, n, whole, pending := s => s, 0, 0, [], [];
    }

    /** `UncheckedSetKey`: refused exactly when a subkey needs a polynomial the block size does not have. */
    method UncheckedSetKey(e: Cipher) returns (ok: bool)
      requires IsCipher(e, size) && reg.Length == sub1.Length == sub2.Length == size && reg != sub1 && reg != sub2
               && sub1 != sub2
      modifies this, reg, sub1, sub2
      ensures ok
              <==> Supported(size) || (TopBit(Shifting(e(Zeros(size))), 0) == 0 && TopBit(Shifting(Subkey1(e, size)), 0) == 0)
      ensures ok ==> Valid() && this.e == e && Message() == []
    {
      hide Absorbed, MulU;
      this.e := e;
      ok := DeriveSubkeys();
      forall i | 0 <= i < size { reg[i] := 0; }
      assert reg[..] == Zeros(size);
      counter, n, whole, pending := 0, 0, [], [];
      Fresh(e, size);
    }

    /** The encrypted zero block times x, and times x again. */
    method DeriveSubkeys() returns (ok: bool)
      requires Shaped()
      modifies sub1, sub2
      ensures ok
              <==> Supported(size) || (TopBit(Shifting(e(Zeros(size))), 0) == 0 && TopBit(Shifting(Subkey1(e, size)), 0) == 0)
      ensures ok ==> Keyed()
    {
      hide MulU;
      var block := e(Zeros(size));
      forall i | 0 <= i < size { sub1[i] := block[i]; }
      assert sub1[..] == block;
      ok := MultiplyByX(sub1);
      if !ok {
        return;
      }
      ghost var k := sub1[..];
      forall i | 0 <= i < size { sub2[i] := sub1[i]; }
      assert sub2[..] == k;
      ok := MultiplyByX(sub2);
      assert sub1[..] == k;
    }

    /** `xorbuf` into the register. */
    method XorIn(at: nat, x: seq<byte>)
      requires at + |x| <= reg.Length
      modifies reg
      ensures reg[..] == Added(old(reg[..]), at, x)
    {
      hide XorByte;
      ghost var was := reg[..];
      var i := 0;
      while i < |x|
        invariant 0 <= i <= |x|
        invariant forall j :: 0 <= j < reg.Length ==> reg[j] == if at <= j < at + i then XorByte(was[j], x[j - at]) else was[j]
      {
        reg[at + i] := XorByte(reg[at + i], x[i]);
        i := i + 1;
      }
      assert reg[..] == Added(was, at, x);
    }

    /** `ProcessBlock` on the register. */
    method Encrypt()
      requires Shaped()
      modifies reg
      ensures reg[..] == e(old(reg[..]))
    {
      var block := e(reg[..]);
      forall i | 0 <= i < size { reg[i] := block[i]; }
      assert reg[..] == block;
    }

    /** Octets join the pending ones in the register. */
    method Pend(x: seq<byte>)
      requires Shaped() && Absorbed(e, size, n, whole, pending, reg[..]) && counter == |pending|
               && counter + |x| <= size
      modifies this`counter, this`pending, reg
      ensures Absorbed(e, size, n, whole, pending, reg[..]) && pending == old(pending) + x && counter == |pending|
    {
      hide Absorbed, Added;
      MorePending(e, size, n, whole, pending, reg[..], x);
      XorIn(counter, x);
      pending := pending + x;
      counter := counter + |x|;
    }

    /** A full register is encrypted and the counter cleared. */
    method FinishBlock()
      requires Shaped() && Absorbed(e, size, n, whole, pending, reg[..]) && |pending| == size
      modifies this`counter, this`n, this`whole, this`pending, reg
      ensures Absorbed(e, size, n, whole, pending, reg[..]) && pending == [] && counter == 0
      ensures whole == old(whole) + old(pending)
    {
      hide Absorbed;
      BlockDone(e, size, n, whole, pending, reg[..]);
      Encrypt();
      n, whole, pending := n + 1, whole + pending, [];
      counter := 0;
    }

    /** Pending octets first; a full register is encrypted once more octets are known to follow. */
    method FillRegister(input: seq<byte>) returns (used: nat)
      requires Valid() && counter > 0 && |input| > 0
      modifies this`counter, this`n, this`whole, this`pending, reg
      ensures used <= |input| && Keyed() && Absorbed(e, size, n, whole, pending, reg[..]) && counter == |pending|
      ensures Message() == old(Message()) + input[..used]
      ensures if used < |input| then pending == [] else pending != []
    {
      hide Absorbed, MulU;
      PendingFits(e, size, n, whole, pending, reg[..]);
      used := if size - counter <= |input| then size - counter else |input|;
      Pend(input[..used]);
      assert Message() == old(Message()) + input[..used];
      if counter == size && used < |input| {
        FinishBlock();
        assert Message() == old(Message()) + input[..used];
      }
    }

    /** Whole blocks straight from the input, as long as more than a block is left. */
    method WholeBlocks(input: seq<byte>) returns (used: nat)
      requires Shaped() && Absorbed(e, size, n, whole, pending, reg[..]) && pending == [] && counter == 0
      modifies this`counter, this`n, this`whole, this`pending, reg
      ensures used <= |input| && (input != [] ==> 0 < |input| - used <= size)
      ensures Absorbed(e, size, n, whole, pending, reg[..]) && pending == [] && counter == 0
      ensures whole == old(whole) + input[..used]
    {
      hide Absorbed, Shaped;
      SomeSize();
      used := 0;
      while |input| - used > size
        invariant 0 <= used <= |input| && (input != [] ==> used < |input|) && Shaped()
        invariant Absorbed(e, size, n, whole, pending, reg[..]) && pending == [] && counter == 0
        invariant whole == old(whole) + input[..used]
      {
        var block := input[used..used + size];
        ghost var before := whole;
        Pend(block);
        FinishBlock();
        assert whole == before + block;
        assert input[..used] + block == input[..used + size];
        assert old(whole) + input[..used] + block == old(whole) + input[..used + size];
        used := used + size;
      }
    }

    lemma {:induction false} SomeSize()
      requires Shaped()
      ensures size >= 1
    {
    }

    /** Everything from a clear counter on: the last block, complete or not, stays in the register. */
    method TakeRest(rest: seq<byte>)
      requires Keyed() && rest != [] && Absorbed(e, size, n, whole, pending, reg[..]) && pending == [] && counter == 0
      modifies this`counter, this`n, this`whole, this`pending, reg
      ensures Valid() && Message() == old(Message()) + rest
    {
      hide Absorbed, MulU;
      var more := WholeBlocks(rest);
      var last := rest[more..];
      assert rest[..more] + last == rest;
      Pend(last);
      assert Message() == old(whole) + rest[..more] + last == old(whole) + rest;
    }

    method Update(input: seq<byte>)
      requires Valid()
      modifies this`counter, this`n, this`whole, this`pending, reg
      ensures Valid() && Message() == old(Message()) + input
    {
      hide Absorbed, MulU, Keyed;
      if |input| == 0 {
        assert Message() + input == Message();
        return;
      }
      if counter == 0 {
        TakeRest(input);
      } else {
        var used := FillRegister(input);
        var rest := input[used..];
        assert input[..used] + rest == input;
        ghost var before := Message();
        if rest != [] {
          TakeRest(rest);
          assert Message() == before + rest;
        }
        assert old(Message()) + input[..used] + rest == old(Message()) + input;
      }
    }

    /** The tag of the message, and the object is back in its keyed start state. */
    method TruncatedFinal(length: nat) returns (ok: bool, mac: seq<byte>)
      requires Valid()
      modifies this`counter, this`n, this`whole, this`pending, reg
      ensures ok <==> length <= size
      ensures ok ==> mac == OneShot(e, size, old(Message()))[..length] && Message() == []
      ensures !ok ==> Message() == old(Message())
      ensures Valid()
    {
      hide Absorbed, Added, MulU, Mac;
      if length > size {
        return false, [];
      }
      PendingFits(e, size, n, whole, pending, reg[..]);
      FinalBlock(e, size, sub1[..], sub2[..], n, whole, pending, reg[..]);
      var k := sub1[..];
      if counter < size {
        XorIn(counter, [0x80]);
        k := sub2[..];
      }
      AddAll(reg[..], k);
      XorIn(0, k);
      Encrypt();
      ok, mac := true, reg[..length];
      assert mac == reg[..][..length];
      forall i | 0 <= i < size { reg[i] := 0; }
      assert reg[..] == Zeros(size);
      counter, n, whole, pending := 0, 0, [], [];
      Fresh(e, size);
    }
  }

  lemma {:induction false} PendingFits(e: Cipher, size: nat, n: nat, whole: seq<byte>, pending: seq<byte>,
                                       reg: seq<byte>)
    requires Absorbed(e, size, n, whole, pending, reg)
    ensures |pending| <= size
  {
  }

  lemma {:induction false} AddAll(reg: seq<byte>, k: seq<byte>)
    requires |k| == |reg|
    ensures Added(reg, 0, k) == XorBytes(reg, k)
  {
    assert reg[0..|k|] == reg;
  }

  // ---------- Short messages, written out ----------

  /** The empty message: a one, zeros, and the second subkey. */
  lemma {:induction false} EmptyMac(e: Cipher, size: nat)
    requires IsCipher(e, size)
    ensures OneShot(e, size, []) == e(XorBytes([0x80] + Zeros(size - 1), MulU(MulU(e(Zeros(size))))))
  {
    hide XorBytes, MulU;
    var last := XorBytes([0x80] + Zeros(size - 1), MulU(MulU(e(Zeros(size)))));
    assert [] + [0x80] + Zeros(size - 0 - 1) == [0x80] + Zeros(size - 1);
    ZerosXorBytes(last);
  }

  /** One complete block: the first subkey, and nothing appended. */
  lemma {:induction false} OneBlockMac(e: Cipher, size: nat, block: seq<byte>)
    requires IsCipher(e, size) && |block| == size
    ensures OneShot(e, size, block) == e(XorBytes(block, MulU(e(Zeros(size)))))
  {
    hide XorBytes, MulU;
    ZerosXorBytes(XorBytes(block, MulU(e(Zeros(size)))));
  }

  /** One block, and one octet more. */
  lemma {:induction false} NextBlockMac(e: Cipher, size: nat, block: seq<byte>, b: byte)
    requires IsCipher(e, size) && |block| == size >= 2
    ensures var k2 := MulU(MulU(e(Zeros(size))));
            OneShot(e, size, block + [b]) == e(XorBytes(e(block), XorBytes([b, 0x80] + Zeros(size - 2), k2)))
  {
    hide XorBytes, MulU;
    var s := block + [b];
    assert s[..size] == block && s[size..] == [b];
    assert [b] + [0x80] + Zeros(size - 1 - 1) == [b, 0x80] + Zeros(size - 2);
    ZerosXorBytes(block);
    var k1 := Subkey1(e, size);
    assert Step(e, size, Zeros(size), block) == e(block);
    assert Mac(e, size, k1, MulU(k1), Zeros(size), s) == Mac(e, size, k1, MulU(k1), e(block), [b]);
  }
}
