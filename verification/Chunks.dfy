/** Texts that arrive in chunks of any number and size. */
module Chunks {
  import opened Bytes

  /** The chunks, joined. */
  ghost function Flat(chunks: seq<seq<byte>>): (r: seq<byte>) {
    if chunks == [] then [] else Flat(chunks[..|chunks| - 1]) + chunks[|chunks| - 1]
  }

  lemma {:induction false} FlatNothing()
    ensures Flat([]) == []
  {
  }

  lemma {:induction false} FlatTake(chunks: seq<seq<byte>>, i: nat)
    requires i < |chunks|
    ensures Flat(chunks[..i + 1]) == Flat(chunks[..i]) + chunks[i]
  {
    assert chunks[..i + 1][..i] == chunks[..i];
  }

  lemma {:induction false} FlatBound(chunks: seq<seq<byte>>, i: nat)
    requires i <= |chunks|
    ensures |Flat(chunks[..i])| <= |Flat(chunks)|
    decreases |chunks| - i
  {
    if i < |chunks| {
      FlatTake(chunks, i);
      FlatBound(chunks, i + 1);
    } else {
      assert chunks[..i] == chunks;
    }
  }

  /** A text cut into chunks of given sizes, and the rest. */
  function Cut(text: seq<byte>, sizes: seq<nat>): (chunks: seq<seq<byte>>) {
    if sizes == [] || sizes[0] > |text| then [text] else [text[..sizes[0]]] + Cut(text[sizes[0]..], sizes[1..])
  }

  lemma {:induction false} FlatAppend(a: seq<seq<byte>>, b: seq<seq<byte>>)
    ensures Flat(a + b) == Flat(a) + Flat(b)
  {
    if b == [] {
      assert a + b == a;
    } else {
      var n := |b| - 1;
      FlatAppend(a, b[..n]);
      assert (a + b)[..|a| + n] == a + b[..n] && (a + b)[|a| + n] == b[n];
      assert Flat(a + b) == Flat(a + b[..n]) + b[n];
      assert Flat(a) + (Flat(b[..n]) + b[n]) == Flat(a) + Flat(b[..n]) + b[n];
    }
  }

  lemma {:induction false} FlatOne(chunk: seq<byte>)
    ensures Flat([chunk]) == chunk
  {
    assert [chunk][..0] == [];
  }

  lemma {:induction false} FlatCut(text: seq<byte>, sizes: seq<nat>)
    ensures Flat(Cut(text, sizes)) == text
    decreases |sizes|
  {
    hide Flat;
    if sizes == [] || sizes[0] > |text| {
      FlatOne(text);
    } else {
      var n := sizes[0];
      FlatCut(text[n..], sizes[1..]);
      FlatOne(text[..n]);
      FlatAppend([text[..n]], Cut(text[n..], sizes[1..]));
      assert text[..n] + text[n..] == text;
    }
  }
}
