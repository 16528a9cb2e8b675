/** `Adler32` of `adler32.cpp`: running sums with deferred reductions. */
module Adler {
  import opened Numbers
  import opened Bytes

  const BASE: nat := 65521

  /** The smallest width `unsigned long` may have: arithmetic on it must not overflow. */
  type word32 = n: nat | n < 0x1_0000_0000

  /** One plus the sum of all octets. */
  ghost function Sum(data: seq<byte>): (r: nat) {
    if data == [] then 1 else Sum(data[..|data| - 1]) + data[|data| - 1]
  }

  /** The sum of all those sums, section 8.2 of RFC 1950. */
  ghost function SumOfSums(data: seq<byte>): (r: nat) {
    if data == [] then 0 else SumOfSums(data[..|data| - 1]) + Sum(data)
  }

  ghost predicate Same(x: nat, y: nat) {
    x % BASE == y % BASE
  }

  lemma {:induction false} SameAdd(x: nat, y: nat, u: nat, v: nat)
    requires Same(x, y) && Same(u, v)
    ensures Same(x + u, y + v)
  {
    var r, s := x % BASE, u % BASE;
    ModAdd(x, u);
    ModAdd(y, v);
  }

  lemma {:induction false} ModAdd(x: nat, u: nat)
    ensures (x + u) % BASE == (x % BASE + u % BASE) % BASE
  {
  }

  lemma {:induction false} SameReduced(x: nat)
    ensures Same(x % BASE, x) && (x >= BASE ==> Same(x - BASE, x))
  {
  }

  lemma {:induction false} SumsNext(data: seq<byte>, b: byte)
    ensures Sum(data + [b]) == Sum(data) + b && SumOfSums(data + [b]) == SumOfSums(data) + Sum(data + [b])
  {
    assert (data + [b])[..|data|] == data;
  }

  /** `s1` and `s2` are the two sums of what has been read, up to multiples of the base. */
  ghost predicate Tracks(s1: nat, s2: nat, data: seq<byte>) {
    Same(s1, Sum(data)) && Same(s2, SumOfSums(data))
  }

  /** Up to eight octets without a reduction; nothing exceeds 32 bits. */
  method AddOctets(s1: word32, s2: word32, input: seq<byte>, ghost data: seq<byte>) returns (s1': word32, s2': word32)
    requires Tracks(s1, s2, data) && s1 < BASE && |input| <= 8 && s2 < 0x1_0000_0000 - 540480
    ensures Tracks(s1', s2', data + input) && s1' <= s1 + 255 * |input| && s2' <= s2 + 67560 * |input|
  {
    hide Same, Sum, SumOfSums;
    s1', s2' := s1, s2;
    var i := 0;
    assert data + input[..0] == data;
    while i < |input|
      invariant 0 <= i <= |input| && Tracks(s1', s2', data + input[..i])
      invariant s1' <= s1 + 255 * i && s2' <= s2 + 67560 * i
    {
      ghost var read := data + input[..i];
      SumsNext(read, input[i]);
      assert read + [input[i]] == data + input[..i + 1];
      SameItself(input[i]);
      SameAdd(s1', Sum(read), input[i], input[i]);
      SameAdd(s2', SumOfSums(read), s1' + input[i], Sum(read) + input[i]);
      s1' := s1' + input[i];
      s2' := s2' + s1';
      i := i + 1;
    }
    assert input[..i] == input;
  }

  lemma {:induction false} SameItself(x: nat)
    ensures Same(x, x)
  {
  }

  lemma {:induction false} ReduceTracks(s1: nat, s2: nat, data: seq<byte>)
    requires Tracks(s1, s2, data)
    ensures Tracks(s1 % BASE, s2, data) && Tracks(s1, s2 % BASE, data) && (s1 >= BASE ==> Tracks(s1 - BASE, s2, data))
  {
    hide Sum, SumOfSums;
    SameReduced(s1);
    SameReduced(s2);
  }

  /** The octets that do not fill a step of eight, then one reduction of both sums. */
  method AddHead(s1: word32, s2: word32, head: seq<byte>, ghost data: seq<byte>) returns (s1': word32, s2': word32)
    requires Tracks(s1, s2, data) && s1 < BASE && s2 < BASE && |head| < 8
    ensures Tracks(s1', s2', data + head) && s1' < BASE && s2' < BASE
  {
    hide Tracks;
    s1', s2' := AddOctets(s1, s2, head, data);
    ReduceTracks(s1', s2', data + head);
    if s1' >= BASE {
      s1' := s1' - BASE;
    }
    ReduceTracks(s1', s2', data + head);
    s2' := s2' % BASE;
  }

  /** One step of eight octets: a subtraction reduces the first sum, the second is reduced when `left` says so. */
  method AddEight(s1: word32, s2: word32, eight: seq<byte>, left: nat, ghost data: seq<byte>)
      returns (s1': word32, s2': word32)
    requires Tracks(s1, s2, data) && s1 < BASE && |eight| == 8 && left % 8 == 0 && s2 < BASE + 540480 * Blocks(left + 8)
    ensures Tracks(s1', s2', data + eight) && s1' < BASE && s2' < BASE + 540480 * Blocks(left)
  {
    hide Tracks, Blocks;
    BlocksBound(left + 8);
    s1', s2' := AddOctets(s1, s2, eight, data);
    ReduceTracks(s1', s2', data + eight);
    if s1' >= BASE {
      s1' := s1' - BASE;
    }
    ReduceTracks(s1', s2', data + eight);
    if left % 0x8000 == 0 {
      s2' := s2' % BASE;
    }
  }

  /** Everything `Update` reads. */
  method AddAll(s1: word32, s2: word32, input: seq<byte>, ghost data: seq<byte>) returns (s1': word32, s2': word32)
    requires Tracks(s1, s2, data) && s1 < BASE && s2 < BASE
    ensures Tracks(s1', s2', data + input) && s1' < BASE && s2' < BASE
  {
    hide Tracks, Blocks;
    s1', s2' := s1, s2;
    var length := |input|;
    if length % 8 != 0 {
      s1', s2' := AddHead(s1, s2, input[..length % 8], data);
      length := length - length % 8;
    } else {
      assert data + input[..0] == data;
    }
    while length > 0
      invariant 0 <= length <= |input| && length % 8 == 0 && s1' < BASE
      invariant Tracks(s1', s2', data + input[..|input| - length])
      invariant s2' < BASE + 540480 * Blocks(length)
    {
      var at := |input| - length;
      var eight := input[at..at + 8];
      s1', s2' := AddEight(s1', s2', eight, length - 8, data + input[..at]);
      assert data + input[..at] + eight == data + input[..at + 8];
      length := length - 8;
    }
    NoBlocks();
    assert input[..|input|] == input;
  }

  class Adler32 {
    var s1: nat
    var s2: nat
    ghost var message: seq<byte>

    /** Both fields are the reduced sums of the message so far; they fit into 16 bits. */
    ghost predicate Valid()
      reads this
    {
      s1 == Sum(message) % BASE && s2 == SumOfSums(message) % BASE
    }

    constructor ()
      ensures Valid() && message == []
    {
      s1, s2, message := 1, 0, [];
    }

    method Update(input: seq<byte>)
      requires Valid()
      modifies this
      ensures Valid() && message == old(message) + input
    {
      hide Sum, SumOfSums, Same, Tracks;
      StartTracks(message);
      var x, y := AddAll(s1, s2, input, message);
      message := message + input;
      EndTracks(x, y, message);
      s1, s2 := x, y;
    }

    /** The digest, most significant octet first and cut off after `size` octets; the object starts over. */
    method TruncatedFinal(size: nat) returns (ok: bool, hash: seq<byte>)
      requires Valid()
      modifies this
      ensures ok <==> size <= 4
      ensures ok ==> hash == BigEndian(65536 * (SumOfSums(old(message)) % BASE) + Sum(old(message)) % BASE, 4)[..size]
      ensures Valid() && message == if ok then [] else old(message)
    {
      hide Sum, SumOfSums;
      if size > 4 {
        return false, [];
      }
      DigestOctets(s1, s2);
      var digest: seq<byte> := [s2 / 256, s2 % 256, s1 / 256, s1 % 256];
      ok, hash := true, digest[..size];
      NoSums();
      s1, s2, message := 1, 0, [];
    }
  }

  lemma {:induction false} NoSums()
    ensures Sum([]) == 1 && SumOfSums([]) == 0
  {
  }

  lemma {:induction false} DigestOctets(s1: nat, s2: nat)
    requires s1 < BASE && s2 < BASE
    ensures BigEndian(65536 * s2 + s1, 4) == [s2 / 256, s2 % 256, s1 / 256, s1 % 256]
  {
    var n := 65536 * s2 + s1;
    assert n % 256 == s1 % 256 && n / 256 == 256 * s2 + s1 / 256;
    assert n / 256 % 256 == s1 / 256 && n / 256 / 256 == s2;
    assert BigEndian(s2, 2) == BigEndian(s2 / 256, 1) + [s2 % 256];
  }

  lemma {:induction false} StartTracks(data: seq<byte>)
    ensures Tracks(Sum(data) % BASE, SumOfSums(data) % BASE, data)
  {
    hide Sum, SumOfSums;
    SameReduced(Sum(data));
    SameReduced(SumOfSums(data));
  }

  lemma {:induction false} EndTracks(s1: nat, s2: nat, data: seq<byte>)
    requires Tracks(s1, s2, data) && s1 < BASE && s2 < BASE
    ensures s1 == Sum(data) % BASE && s2 == SumOfSums(data) % BASE
  {
    hide Sum, SumOfSums;
  }

  /** Eight-octet steps since the second sum was last reduced. */
  ghost function Blocks(length: nat): (r: nat) {
    if length % 0x8000 == 0 then 0 else (0x8000 - length % 0x8000) / 8
  }

  lemma {:induction false} NoBlocks()
    ensures Blocks(0) == 0
  {
  }

  lemma {:induction false} BlocksBound(length: nat)
    requires length % 8 == 0 && length > 0
    ensures BASE + 540480 * Blocks(length) < 0x1_0000_0000 - 540480
    ensures (length - 8) % 0x8000 != 0 ==> Blocks(length - 8) >= Blocks(length) + 1
  {
    var m := length % 0x8000;
    EightLess(length / 0x8000, m);
  }

  lemma {:induction false} EightLess(q: nat, m: nat)
    requires m < 0x8000 && m % 8 == 0 && 0x8000 * q + m > 0
    ensures (0x8000 * q + m - 8) % 0x8000 == if m == 0 then 0x7ff8 else m - 8
  {
    if m == 0 {
      DivUnique(0x8000 * q - 8, 0x8000, q - 1, 0x7ff8);
    } else {
      DivUnique(0x8000 * q + m - 8, 0x8000, q, m - 8);
    }
  }

  // ---------- The sums from the other end ----------

  /** An octet in front adds itself to the first sum, and to the second as often as octets follow, itself included. */
  lemma {:induction false} FrontOctet(x: byte, data: seq<byte>)
    ensures Sum([x] + data) == Sum(data) + x
    ensures SumOfSums([x] + data) == SumOfSums(data) + 1 + (|data| + 1) * x
  {
    var s := [x] + data;
    if data == [] {
      assert s == [x] && s[..0] == [];
    } else {
      var n := |data| - 1;
      FrontOctet(x, data[..n]);
      assert s[..|s| - 1] == [x] + data[..n] && s[|s| - 1] == data[n];
      assert (|data| + 1) * x == (n + 1) * x + x;
    }
  }

  /** The checksum of the single octet 0x61 is 0x00620062, and that of no octets 1. */
  lemma {:induction false} KnownSums()
    ensures Sum([]) == 1 && SumOfSums([]) == 0 && Sum([0x61]) == 0x62 && SumOfSums([0x61]) == 0x62
  {
    FrontOctet(0x61, []);
    assert [0x61] + [] == [0x61];
  }

  lemma {:induction false} EqualOctets(n: nat)
    ensures Sum(seq(n, i => 0xff)) == 1 + 255 * n
  {
    if n > 0 {
      EqualOctets(n - 1);
      assert seq(n, i => 0xff)[..n - 1] == seq(n - 1, i => 0xff);
    }
  }

  /** The first sum wraps at 65521: 257 octets of 0xff leave 15. */
  lemma {:induction false} WrappedSum()
    ensures Sum(seq(257, i => 0xff)) % BASE == 15
  {
    EqualOctets(257);
  }
}
