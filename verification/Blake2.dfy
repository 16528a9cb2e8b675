/** The streaming layer of `blake2.cpp` over an arbitrary compression function. */
module Blake2 {
  import opened Numbers
  import opened Bytes
  import opened Options

  /**
   The compression function takes the chaining value, a block, the low and high words of the
   counter, and the two finalisation flags. `iv` is the initial value in memory, `words` reads a chaining value from
   memory, and `word` is two to the word size.
   */
  datatype Params<!H> = Params(iv: seq<byte>, words: seq<byte> -> H,
                               compress: (H, seq<byte>, nat, nat, bool, bool) -> H,
                               blockSize: nat, word: nat, treeMode: bool)

  ghost predicate Sensible<H>(P: Params<H>) {
    1 <= P.blockSize < P.word
  }

  /** The first chaining value: the parameter block, exclusive-or the initial value. */
  function Start<H>(P: Params<H>, block: seq<byte>): (h: H)
    requires |block| == |P.iv|
  {
    P.words(XorBytes(block, P.iv))
  }

  ghost function Low<H>(P: Params<H>, t: nat): (r: nat)
    requires Sensible(P)
  {
    t % P.word
  }

  ghost function High<H>(P: Params<H>, t: nat): (r: nat)
    requires Sensible(P)
  {
    (t / P.word) % P.word
  }

  /** Compression with the byte offset `t` split over the two counter words. */
  ghost function F<H>(P: Params<H>, h: H, block: seq<byte>, t: nat, last: bool): (r: H)
    requires Sensible(P)
  {
    P.compress(h, block, Low(P, t), High(P, t), last, last && P.treeMode)
  }

  /** The last block filled up with zeros. */
  function Filled<H>(P: Params<H>, s: seq<byte>): (r: seq<byte>)
    requires |s| <= P.blockSize
  {
    s + Zeros(P.blockSize - |s|)
  }

  /** Section 3.3 of RFC 7693: all blocks but the last, then the last with the flag set; `t` octets came before. */
  ghost function Hash<H>(P: Params<H>, h: H, t: nat, s: seq<byte>): (r: H)
    requires Sensible(P)
    decreases |s|
  {
    if |s| <= P.blockSize then F(P, h, Filled(P, s), t + |s|, true)
    else Hash(P, F(P, h, s[..P.blockSize], t + P.blockSize, false), t + P.blockSize, s[P.blockSize..])
  }

  /** Whole blocks, none of them the last. */
  ghost function Absorb<H>(P: Params<H>, h: H, t: nat, n: nat, s: seq<byte>): (r: H)
    requires Sensible(P) && |s| == n * P.blockSize
    decreases n
  {
    if n == 0 then h
    else
      MulAtLeast(n, P.blockSize);
      OneLess(n, P.blockSize);
      Absorb(P, F(P, h, s[..P.blockSize], t + P.blockSize, false), t + P.blockSize, n - 1, s[P.blockSize..])
  }

  /** As long as something follows, the blocks before it may be absorbed first. */
  lemma {:induction false} HashAfter<H>(P: Params<H>, h: H, t: nat, n: nat, s: seq<byte>, rest: seq<byte>)
    requires Sensible(P) && |s| == n * P.blockSize && (rest != [] || n == 0)
    ensures Hash(P, h, t, s + rest) == Hash(P, Absorb(P, h, t, n, s), t + |s|, rest)
    decreases n
  {
    hide F;
    var b := P.blockSize;
    if n == 0 {
      assert s + rest == rest;
    } else {
      MulAtLeast(n, b);
      OneLess(n, b);
      assert (s + rest)[..b] == s[..b] && (s + rest)[b..] == s[b..] + rest;
      HashAfter(P, F(P, h, s[..b], t + b, false), t + b, n - 1, s[b..], rest);
    }
  }

  lemma {:induction false} AbsorbOne<H>(P: Params<H>, h: H, t: nat, n: nat, s: seq<byte>, block: seq<byte>)
    requires Sensible(P) && |s| == n * P.blockSize && |block| == P.blockSize
    ensures |s + block| == (n + 1) * P.blockSize
    ensures Absorb(P, h, t, n + 1, s + block) == F(P, Absorb(P, h, t, n, s), block, t + |s| + P.blockSize, false)
    decreases n
  {
    hide F;
    var b := P.blockSize;
    OneLess(n + 1, b);
    if n == 0 {
      assert s + block == block && block[..b] == block && block[b..] == [];
    } else {
      MulAtLeast(n, b);
      OneLess(n, b);
      assert (s + block)[..b] == s[..b] && (s + block)[b..] == s[b..] + block;
      AbsorbOne(P, F(P, h, s[..b], t + b, false), t + b, n - 1, s[b..], block);
    }
  }

  /**
   From `start`, with `origin` octets before, `n` blocks of the stream are compressed and counted; the rest is pending.
   */
  ghost predicate Absorbed<H>(P: Params<H>, start: H, origin: nat, stream: seq<byte>, n: nat, h: H, t0: nat, t1: nat,
                              pending: seq<byte>) {
    && Sensible(P)
    && |stream| == n * P.blockSize + |pending| && |pending| <= P.blockSize
    && pending == stream[n * P.blockSize..]
    && h == Absorb(P, start, origin, n, stream[..n * P.blockSize])
    && t0 == Low(P, origin + n * P.blockSize) && t1 == High(P, origin + n * P.blockSize)
  }

  lemma {:induction false} MorePending<H>(P: Params<H>, start: H, origin: nat, stream: seq<byte>, n: nat, h: H,
                                          t0: nat, t1: nat, pending: seq<byte>, x: seq<byte>)
    requires Absorbed(P, start, origin, stream, n, h, t0, t1, pending) && |pending| + |x| <= P.blockSize
    ensures Absorbed(P, start, origin, stream + x, n, h, t0, t1, pending + x)
  {
    hide Absorb;
    var k := n * P.blockSize;
    assert (stream + x)[..k] == stream[..k] && (stream + x)[k..] == pending + x;
  }

  /** The two counter words after an increment, as `IncrementCounter` computes them. */
  function Count(word: nat, t0: nat, t1: nat, count: nat): (r: (nat, nat))
    requires word >= 1
  {
    var low := (t0 + count % word) % word;
    (low, (t1 + if low < count then 1 else 0) % word)
  }

  lemma {:induction false} LowWord(word: nat, r: nat, x: nat, count: nat)
    requires r < word && count < word
    ensures var carry := if r + count < word then 0 else 1;
            Count(word, r, x, count) == (r + count - carry * word, (x + carry) % word)
  {
    DivUnique(count, word, 0, count);
    if r + count < word {
      DivUnique(r + count, word, 0, r + count);
    } else {
      DivUnique(r + count, word, 1, r + count - word);
    }
  }

  lemma {:induction false} Offset(word: nat, k: nat, count: nat)
    requires count < word
    ensures var carry := if k % word + count < word then 0 else 1;
            (k + count) % word == k % word + count - carry * word && (k + count) / word == k / word + carry
  {
    var q, r := k / word, k % word;
    assert k == q * word + r;
    if r + count < word {
      DivUnique(k + count, word, q, r + count);
    } else {
      assert k + count == (q + 1) * word + (r + count - word);
      DivUnique(k + count, word, q + 1, r + count - word);
    }
  }

  /** The carry is right, so the two words hold the count modulo the double-word size. */
  lemma {:induction false} CountIsOffset(word: nat, k: nat, count: nat)
    requires count < word
    ensures Count(word, k % word, (k / word) % word, count) == ((k + count) % word, ((k + count) / word) % word)
  {
    hide Count;
    var q := k / word;
    LowWord(word, k % word, q % word, count);
    Offset(word, k, count);
    ModTwice(q, word);
    ModNext(q, word);
  }

  lemma {:induction false} ModTwice(q: nat, word: nat)
    requires word >= 1
    ensures (q % word + 0) % word == q % word
  {
    DivUnique(q % word, word, 0, q % word);
  }

  lemma {:induction false} ModNext(q: nat, word: nat)
    requires word >= 1
    ensures (q % word + 1) % word == (q + 1) % word
  {
    var d, r := q / word, q % word;
    assert q == d * word + r;
    if r + 1 < word {
      DivUnique(q + 1, word, d, r + 1);
      DivUnique(r + 1, word, 0, r + 1);
    } else {
      assert q + 1 == (d + 1) * word + 0;
      DivUnique(q + 1, word, d + 1, 0);
      DivUnique(word, word, 1, 0);
    }
  }

  /** A full pending block is compressed. */
  lemma {:induction false} BlockDone<H>(P: Params<H>, start: H, origin: nat, stream: seq<byte>, n: nat, h: H, t0: nat,
                                        t1: nat, pending: seq<byte>)
    requires Absorbed(P, start, origin, stream, n, h, t0, t1, pending) && |pending| == P.blockSize
    ensures var t := Count(P.word, t0, t1, P.blockSize);
            Absorbed(P, start, origin, stream, n + 1, P.compress(h, pending, t.0, t.1, false, false), t.0, t.1, [])
  {
    hide Absorb, Count;
    var k := n * P.blockSize;
    CountIsOffset(P.word, origin + k, P.blockSize);
    AbsorbOne(P, start, origin, n, stream[..k], pending);
    assert (n + 1) * P.blockSize == k + P.blockSize;
    assert stream[..k] + pending == stream == stream[..k + P.blockSize];
    assert stream[k + P.blockSize..] == [];
  }

  /** The final compression gives the reference value, provided a block was held back. */
  lemma {:induction false} FinalBlock<H>(P: Params<H>, start: H, origin: nat, stream: seq<byte>, n: nat, h: H, t0: nat,
                                         t1: nat, pending: seq<byte>)
    requires Absorbed(P, start, origin, stream, n, h, t0, t1, pending) && (stream != [] ==> pending != [])
    ensures var t := Count(P.word, t0, t1, |pending|);
            P.compress(h, Filled(P, pending), t.0, t.1, true, P.treeMode) == Hash(P, start, origin, stream)
  {
    hide Absorb, Count;
    var k := n * P.blockSize;
    CountIsOffset(P.word, origin + k, |pending|);
    if n >= 1 {
      MulAtLeast(n, P.blockSize);
    }
    assert stream[..k] + pending == stream;
    HashAfter(P, start, origin, n, stream[..k], pending);
  }

  class Blake2<!H(!new)> {
    const P: Params<H>
    const key: seq<byte>            // empty, or the key filled up to one block
    const octets: H -> seq<byte>    // the chaining value in memory
    const digestSize: nat
    var block: seq<byte>            // the parameter block: digest length, key length, and the rest
    var h: H
    var t0: nat
    var t1: nat
    var f0: bool
    var f1: bool
    const buffer: array<byte>
    var length: nat
    ghost var stream: seq<byte>     // the key block and the message so far
    ghost var n: nat                // blocks compressed
    ghost var start: H              // the chaining value of the parameter block
    ghost var origin: nat           // what the counter started from

    ghost predicate Configured()
    {
      && Sensible(P) && buffer.Length == P.blockSize && (key == [] || |key| == P.blockSize)
      && forall h' :: |octets(h')| >= digestSize
    }

    /** Nothing is compressed as the last block before the end, so a block is always held back. */
    ghost predicate Valid()
      reads this, buffer
    {
      && Configured() && length <= buffer.Length && !f0 && !f1 && |block| == |P.iv| && start == Start(P, block)
      && Absorbed(P, start, origin, stream, n, h, t0, t1, buffer[..length]) && (stream != [] ==> length > 0)
    }

    /**
     A key is filled up with zeros to one block, no key is no block; the parameter block holds the key's own length.
     */
    constructor (P: Params<H>, userKey: seq<byte>, octets: H -> seq<byte>, digestSize: nat,
                 salt: seq<byte>, personalization: seq<byte>)
      requires Sensible(P) && |userKey| <= P.blockSize && Fits(P, salt, personalization)
      requires forall h' :: |octets(h')| >= digestSize
      ensures Valid() && stream == key == (if userKey == [] then [] else Filled(P, userKey)) && fresh(buffer)
      ensures origin == 0 && block == Lengths(digestSize, |userKey|) + Tail(P, salt, personalization)
      ensures this.P == P && this.octets == octets && this.digestSize == digestSize
    {
      this.P, this.octets, this.digestSize := P, octets, digestSize;
      key := if userKey == [] then [] else Filled(P, userKey);
      block := Lengths(digestSize, |userKey|) + Tail(P, salt, personalization);
      buffer := new byte[P.blockSize];
      h, t0, t1, f0, f1, length := P.words([]), 0, 0, false, false, 0;
      stream, n, start, origin := [], 0, h, 0;
      new;
      Restart();
    }

    /** `Restart`: back to the object's own parameter block, counting from zero. */
    method Restart()
      requires Configured() && |block| == |P.iv|
      modifies this`h, this`t0, this`t1, this`f0, this`f1
      modifies this`stream, this`n, this`start, this`origin, this`length, buffer
      ensures Valid() && stream == key && origin == 0
    {
      Begin(0, 0);
    }

    /**
     `Restart` with a caller's parameter block and counter; no counter counts from zero. The two lengths are replaced
     by the object's own, and the key length recorded is that of the filled key.
     */
    method RestartFrom(other: seq<byte>, counter: Option<(nat, nat)>)
      requires Configured() && |other| == |P.iv| >= 2
               && (counter.Some? ==> counter.value.0 < P.word && counter.value.1 < P.word)
      modifies this, buffer
      ensures Valid() && stream == key && block == Lengths(digestSize, |key|) + other[2..]
      ensures origin == if counter.Some? then counter.value.1 * P.word + counter.value.0 else 0
    {
      block := Lengths(digestSize, |key|) + other[2..];
      if counter.Some? {
        Begin(counter.value.0, counter.value.1);
      } else {
        Begin(0, 0);
      }
    }

    /** The chaining value of the parameter block; a key is the first block of the stream. */
    method Begin(c0: nat, c1: nat)
      requires Configured() && |block| == |P.iv| && c0 < P.word && c1 < P.word
      modifies this`h, this`t0, this`t1, this`f0, this`f1
      modifies this`stream, this`n, this`start, this`origin, this`length, buffer
      ensures Valid() && stream == key && origin == c1 * P.word + c0
    {
      assert Sensible(P);
      hide Absorbed, Configured, Sensible, Start;
      t0, t1, f0, f1, length := c0, c1, false, false, 0;
      h := Start(P, block);
      stream, n, start, origin := [], 0, h, c1 * P.word + c0;
      Fresh(P, start, c0, c1);
      assert buffer[..0] == [];
      FeedKey();
    }

    method FeedKey()
      requires Valid() && stream == []
      modifies this`h, this`t0, this`t1, this`stream, this`n, this`length, buffer
      ensures Valid() && stream == key
    {
      hide Valid;
      if |key| > 0 {
        Update(key);
        assert [] + key == key;
      }
    }

    method IncrementCounter(count: nat)
      requires Configured()
      modifies this`t0, this`t1
      ensures (t0, t1) == Count(P.word, old(t0), old(t1), count)
    {
      t0 := (t0 + count % P.word) % P.word;
      t1 := (t1 + if t0 < count then 1 else 0) % P.word;
    }

    method Compress(input: seq<byte>)
      modifies this`h
      ensures h == P.compress(old(h), input, t0, t1, f0, f1)
    {
      h := P.compress(h, input, t0, t1, f0, f1);
    }

    /** A block that is not the last: counted first, then compressed. */
    method CompressBlock(full: seq<byte>, ghost pending: seq<byte>, ghost x: seq<byte>)
      requires Configured() && !f0 && !f1 && Absorbed(P, start, origin, stream, n, h, t0, t1, pending)
      requires full == pending + x && |full| == P.blockSize
      modifies this`h, this`t0, this`t1, this`stream, this`n
      ensures stream == old(stream) + x && Absorbed(P, start, origin, stream, n, h, t0, t1, [])
    {
      hide Absorbed, Count;
      MorePending(P, start, origin, stream, n, h, t0, t1, pending, x);
      stream := stream + x;
      BlockDone(P, start, origin, stream, n, h, t0, t1, full);
      IncrementCounter(P.blockSize);
      Compress(full);
      n := n + 1;
    }

    /** Pending octets and the start of the input fill a block, which is compressed; more whole blocks follow. */
    method CompleteBlocks(input: seq<byte>) returns (used: nat)
      requires Valid() && length + |input| > P.blockSize
      modifies this`h, this`t0, this`t1, this`stream, this`n, this`length, buffer
      ensures Configured() && length == 0 && !f0 && !f1 && 0 < |input| - used <= P.blockSize
      ensures stream == old(stream) + input[..used] && Absorbed(P, start, origin, stream, n, h, t0, t1, [])
    {
      hide Absorbed;
      used := P.blockSize - length;
      ghost var pending := buffer[..length];
      forall i | 0 <= i < used { buffer[length + i] := input[i]; }
      assert buffer[..] == pending + input[..used];
      CompressBlock(buffer[..], pending, input[..used]);
      length := 0;
      ghost var before := stream;
      var more := WholeBlocks(input[used..]);
      assert input[..used] + input[used..][..more] == input[..used + more];
      assert stream == before + input[used..][..more];
      used := used + more;
    }

    /** Whole blocks straight from the input, as long as more than a block is left. */
    method WholeBlocks(input: seq<byte>) returns (used: nat)
      requires Configured() && !f0 && !f1 && input != [] && Absorbed(P, start, origin, stream, n, h, t0, t1, [])
      modifies this`h, this`t0, this`t1, this`stream, this`n
      ensures 0 < |input| - used <= P.blockSize
      ensures stream == old(stream) + input[..used] && Absorbed(P, start, origin, stream, n, h, t0, t1, [])
    {
      hide Absorbed, Configured;
      used := 0;
      SomeSize();
      while |input| - used > P.blockSize
        invariant Configured() && !f0 && !f1 && 0 <= used < |input|
        invariant stream == old(stream) + input[..used] && Absorbed(P, start, origin, stream, n, h, t0, t1, [])
      {
        var full := input[used..used + P.blockSize];
        CompressBlock(full, [], full);
        Further(old(stream), input, used, P.blockSize);
        used := used + P.blockSize;
      }
    }

    static lemma {:induction false} Further(s: seq<byte>, input: seq<byte>, used: nat, more: nat)
      requires used + more <= |input|
      ensures s + input[..used] + input[used..used + more] == s + input[..used + more]
    {
    }

    lemma {:induction false} SomeSize()
      requires Configured()
      ensures buffer.Length == P.blockSize >= 1
    {
    }

    method Update(input: seq<byte>)
      requires Valid()
      modifies this`h, this`t0, this`t1, this`stream, this`n, this`length, buffer
      ensures Valid() && stream == old(stream) + input
    {
      hide Absorbed, Configured;
      SomeSize();
      var rest := input;
      if length + |input| > P.blockSize {
        var used := CompleteBlocks(input);
        rest := input[used..];
        assert input == input[..used] + rest;
        assert buffer[..0] == [];
      }
      Keep(rest);
    }

    /** Copies the tail behind the pending octets. */
    method Keep(rest: seq<byte>)
      requires Configured() && length + |rest| <= P.blockSize
               && Absorbed(P, start, origin, stream, n, h, t0, t1, buffer[..length])
      modifies this`length, this`stream, buffer
      ensures length == old(length) + |rest| && stream == old(stream) + rest
      ensures Absorbed(P, start, origin, stream, n, h, t0, t1, buffer[..length])
    {
      hide Absorbed;
      ghost var pending := buffer[..length];
      MorePending(P, start, origin, stream, n, h, t0, t1, pending, rest);
      forall i | 0 <= i < |rest| { buffer[length + i] := rest[i]; }
      length := length + |rest|;
      assert buffer[..length] == pending + rest;
      stream := stream + rest;
    }

    /** The digest of the key block and the message, and the object starts over. */
    method TruncatedFinal(size: nat) returns (ok: bool, hash: seq<byte>)
      requires Valid()
      modifies this`h, this`t0, this`t1, this`f0, this`f1
      modifies this`stream, this`n, this`start, this`origin, this`length, buffer
      ensures ok <==> size <= digestSize
      ensures ok ==> hash == octets(Hash(P, old(start), old(origin), old(stream)))[..size]
      ensures ok ==> Valid() && stream == key && origin == 0
      ensures !ok ==> Valid() && stream == old(stream) && origin == old(origin)
    {
      hide Absorbed, Count, Hash;
      if size > digestSize {
        return false, [];
      }
      FinalBlock(P, start, origin, stream, n, h, t0, t1, buffer[..length]);
      f0 := true;
      if P.treeMode {
        f1 := true;
      }
      IncrementCounter(length);
      ghost var pending := buffer[..length];
      forall i | length <= i < P.blockSize { buffer[i] := 0; }
      assert buffer[..] == Filled(P, pending);
      Compress(buffer[..]);
      ok, hash := true, octets(h)[..size];
      Restart();
    }
  }

  lemma {:induction false} Fresh<H>(P: Params<H>, start: H, c0: nat, c1: nat)
    requires Sensible(P) && c0 < P.word && c1 < P.word
    ensures Absorbed(P, start, c1 * P.word + c0, [], 0, start, c0, c1, [])
  {
    DivUnique(c1 * P.word + c0, P.word, c1, c0);
    DivUnique(c1, P.word, 0, c1);
  }

  /** The first two octets of a parameter block. */
  function Lengths(digestSize: nat, keyLength: nat): (r: seq<byte>)
    ensures |r| == 2
  {
    [digestSize % 256, keyLength % 256]
  }

  /** Salt and personalisation take a quarter of the parameter block each. */
  ghost predicate Fits<H>(P: Params<H>, salt: seq<byte>, personalization: seq<byte>) {
    |P.iv| % 4 == 0 && |P.iv| >= 16 && |salt| <= |P.iv| / 4 && |personalization| <= |P.iv| / 4
  }

  /** The rest of a parameter block: fanout and depth one, no tree, salt and personalisation, filled up with zeros. */
  function Tail<H>(P: Params<H>, salt: seq<byte>, personalization: seq<byte>): (r: seq<byte>)
    requires Fits(P, salt, personalization)
    ensures |r| == |P.iv| - 2
  {
    var quarter := |P.iv| / 4;
    [1, 1] + Zeros(2 * quarter - 4) + salt + Zeros(quarter - |salt|) +
    personalization + Zeros(quarter - |personalization|)
  }

  /** Section 2.5 of RFC 7693: the first word of the block, read as little-endian, is 0x0101kknn; the rest is zero. */
  lemma {:induction false} PlainBlock<H>(P: Params<H>, digestSize: byte, keyLength: byte, i: nat)
    requires Fits(P, [], []) && i < |P.iv|
    ensures var b := Lengths(digestSize, keyLength) + Tail(P, [], []);
            var nn: nat, kk: nat, b0: nat, b1: nat, b2: nat, b3: nat := digestSize, keyLength, b[0], b[1], b[2], b[3];
            && b0 + 0x100 * b1 + 0x10000 * b2 + 0x1000000 * b3 == 0x01010000 + 0x100 * kk + nn
            && (i >= 4 ==> b[i] == 0)
  {
  }

  /** Salt and personalisation stand in the third and the fourth quarter. */
  lemma {:induction false} SaltPlace<H>(P: Params<H>, lengths: seq<byte>, salt: seq<byte>, personalization: seq<byte>)
    requires Fits(P, salt, personalization) && |lengths| == 2
    ensures var b, half, quarter := lengths + Tail(P, salt, personalization), |P.iv| / 2, |P.iv| / 4;
            b[half..half + |salt|] == salt && b[half + quarter..half + quarter + |personalization|] == personalization
  {
  }

  /** Objects that differ only in their digest size start differently. */
  lemma {:induction false} DigestTells<H(!new)>(P: Params<H>, octets: H -> seq<byte>, d: byte, d': byte, keyLength: nat,
                                                rest: seq<byte>)
    requires 2 + |rest| == |P.iv| && forall s :: |s| == |P.iv| ==> octets(P.words(s)) == s
    ensures Start(P, Lengths(d, keyLength) + rest) == Start(P, Lengths(d', keyLength) + rest) <==> d == d'
  {
    hide Start;
    var a, b := Lengths(d, keyLength) + rest, Lengths(d', keyLength) + rest;
    StartTells(P, octets, a, b);
    assert a[0] == d && b[0] == d';
  }

  /** Different blocks start differently, where a chaining value can be read back from memory. */
  lemma {:induction false} StartTells<H(!new)>(P: Params<H>, octets: H -> seq<byte>, a: seq<byte>, b: seq<byte>)
    requires |a| == |b| == |P.iv| && forall s :: |s| == |P.iv| ==> octets(P.words(s)) == s
    ensures Start(P, a) == Start(P, b) <==> a == b
  {
    if Start(P, a) == Start(P, b) {
      assert octets(P.words(XorBytes(a, P.iv))) == XorBytes(a, P.iv);
      assert octets(P.words(XorBytes(b, P.iv))) == XorBytes(b, P.iv);
      XorBytesTwice(a, P.iv);
      XorBytesTwice(b, P.iv);
    }
  }

  /** The object's own block, with the key length that a restart from a copy writes, is the same only without a key. */
  lemma {:induction false} KeyLengthTells<H>(P: Params<H>, userKey: seq<byte>, digestSize: nat, rest: seq<byte>)
    requires Sensible(P) && |userKey| < P.blockSize < 256
    ensures var key := if userKey == [] then [] else Filled(P, userKey);
            var own := Lengths(digestSize, |userKey|) + rest;
            Lengths(digestSize, |key|) + own[2..] == own <==> userKey == []
  {
    var key := if userKey == [] then [] else Filled(P, userKey);
    var own := Lengths(digestSize, |userKey|) + rest;
    assert own[2..] == rest;
    assert (Lengths(digestSize, |key|) + own[2..])[1] == |key| % 256 && own[1] == |userKey| % 256;
  }

  /**
   Restarting from a copy of the object's own parameter block should change nothing. The object starts where it did
   exactly when there is no key: keys are shorter than a block, and a block is at most 255.
   */
  method CopyOfOwnBlock<H(!new)>(P: Params<H>, userKey: seq<byte>, octets: H -> seq<byte>, digestSize: nat,
                                 salt: seq<byte>, personalization: seq<byte>) returns (b: Blake2<H>)
    requires Sensible(P) && |userKey| < P.blockSize < 256 && Fits(P, salt, personalization)
    requires (forall h :: |octets(h)| >= digestSize) && forall s :: |s| == |P.iv| ==> octets(P.words(s)) == s
    ensures b.Valid() && b.origin == 0 && b.stream == b.key
    ensures b.start == Start(P, Lengths(digestSize, |userKey|) + Tail(P, salt, personalization)) <==> userKey == []
  {
    hide Absorbed, Start, Filled, Tail;
    b := new Blake2(P, userKey, octets, digestSize, salt, personalization);
    ghost var own := b.block;
    KeyLengthTells(P, userKey, digestSize, Tail(P, salt, personalization));
    b.RestartFrom(b.block, Some((0, 0)));
    StartTells(P, octets, own, b.block);
  }

  /** BLAKE2s with a key of one octet: the recorded key length turns from 1 to 64. */
  lemma {:induction false} KeyLengthReplaced<H>(P: Params<H>, k: byte, rest: seq<byte>)
    requires Sensible(P) && P.blockSize == 64
    ensures var own := Lengths(32, 1) + rest;
            var again := Lengths(32, |Filled(P, [k])|) + own[2..];
            own[1] == 1 && again[1] == 64 && own[2..] == again[2..]
  {
    var own := Lengths(32, 1) + rest;
    assert own[2..] == rest;
    assert (Lengths(32, 64) + rest)[2..] == rest;
  }

  // ---------- Short messages, written out ----------

  /** Up to one block, the empty message included: one compression, as the last, with the message's length counted. */
  lemma {:induction false} ShortHash<H>(P: Params<H>, h: H, s: seq<byte>)
    requires Sensible(P) && |s| <= P.blockSize
    ensures Hash(P, h, 0, s) == P.compress(h, s + Zeros(P.blockSize - |s|), |s|, 0, true, P.treeMode)
  {
    DivUnique(|s|, P.word, 0, |s|);
    DivUnique(0, P.word, 0, 0);
  }

  /** One block and something behind it: the first is not the last, and the count goes on. */
  lemma {:induction false} TwoBlockHash<H>(P: Params<H>, h: H, block: seq<byte>, s: seq<byte>)
    requires Sensible(P) && |block| == P.blockSize && 0 < |s| <= P.blockSize && 2 * P.blockSize < P.word
    ensures var h' := P.compress(h, block, P.blockSize, 0, false, false);
            Hash(P, h, 0, block + s)
            == P.compress(h', s + Zeros(P.blockSize - |s|), P.blockSize + |s|, 0, true, P.treeMode)
  {
    var b := P.blockSize;
    assert (block + s)[..b] == block && (block + s)[b..] == s;
    DivUnique(b, P.word, 0, b);
    DivUnique(b + |s|, P.word, 0, b + |s|);
    DivUnique(0, P.word, 0, 0);
  }
}
