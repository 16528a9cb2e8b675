/**
 Whole messages through `BaseN_Encoder`, `Grouper` and `BaseN_Decoder`, however each of them gets its input in pieces.
 */
module CodecSessions {
  import opened Bytes
  import opened Chunks
  import opened BaseN
  import opened BaseNEncoder
  import opened BaseNDecoder
  import opened DecodingTable
  import opened Grouping

  /** An encoder at the beginning of a message puts out the encoding of the whole message. */
  method Encode(encoder: Encoder, chunks: seq<seq<byte>>) returns (text: seq<byte>)
    requires encoder.Valid() && encoder.message == [] && encoder.before == encoder.output
    modifies encoder, encoder.outBuf
    ensures encoder.Valid() && encoder.message == [] && encoder.before == encoder.output && encoder.Configured()
    ensures text == Encoded(encoder.alphabet, encoder.bitsPerChar, encoder.blockSize, encoder.padding, Flat(chunks))
  {
    assert encoder.Configured();
    hide Flat, Encoder.Valid, Encoded;
    var start, i := encoder.output, 0;
    FlatNothing();
    assert chunks[..0] == [];
    while i < |chunks|
      invariant 0 <= i <= |chunks| && encoder.Valid() && encoder.message == Flat(chunks[..i]) && encoder.before == start
    {
      FlatTake(chunks, i);
      encoder.Put2(chunks[i], false);
      i := i + 1;
    }
    assert chunks[..i] == chunks && Flat(chunks) + [] == Flat(chunks);
    encoder.Put2([], true);
    text := encoder.output[|start|..];
  }

  /** A grouper at the beginning of a text puts out the whole text in groups. */
  method Group(grouper: Grouper, chunks: seq<seq<byte>>) returns (text: seq<byte>)
    requires grouper.Valid() && grouper.message == [] && grouper.before == grouper.output
    modifies grouper
    ensures grouper.Valid() && grouper.message == [] && grouper.before == grouper.output
    ensures text == Grouped(Flat(chunks), grouper.groupSize, grouper.separator) + grouper.terminator
  {
    hide Flat, Grouper.Valid, Grouped;
    var start, i := grouper.output, 0;
    FlatNothing();
    assert chunks[..0] == [];
    while i < |chunks|
      invariant 0 <= i <= |chunks| && grouper.Valid() && grouper.message == Flat(chunks[..i]) && grouper.before == start
    {
      FlatTake(chunks, i);
      grouper.Put2(chunks[i], false);
      i := i + 1;
    }
    assert chunks[..i] == chunks && Flat(chunks) + [] == Flat(chunks);
    grouper.Put2([], true);
    text := grouper.output[|start|..];
  }

  /** A decoder at the beginning of a text puts out the decoding of the whole text. */
  method Decode(decoder: Decoder, chunks: seq<seq<byte>>) returns (data: seq<byte>)
    requires decoder.Valid() && decoder.message == [] && decoder.before == decoder.output
    modifies decoder, decoder.outBuf
    ensures decoder.Valid() && decoder.message == [] && decoder.before == decoder.output && decoder.Configured()
    ensures data == Decoded(decoder.lookup, decoder.bitsPerChar, Flat(chunks))
  {
    assert decoder.Configured();
    hide Flat, Decoder.Valid, Decoded;
    var start, i := decoder.output, 0;
    FlatNothing();
    assert chunks[..0] == [];
    while i < |chunks|
      invariant 0 <= i <= |chunks| && decoder.Valid() && decoder.message == Flat(chunks[..i]) && decoder.before == start
    {
      FlatTake(chunks, i);
      decoder.Put2(chunks[i], false);
      i := i + 1;
    }
    assert chunks[..i] == chunks && Flat(chunks) + [] == Flat(chunks);
    decoder.Put2([], true);
    data := decoder.output[|start|..];
  }

  /** A message goes through all three and comes back, whatever pieces each of them gets. */
  method EncodeGroupDecode(encoder: Encoder, grouper: Grouper, decoder: Decoder, caseInsensitive: bool,
                           message: seq<byte>, cuts: seq<nat>, cuts': seq<nat>, cuts'': seq<nat>)
      returns (data: seq<byte>)
    requires encoder.Valid() && encoder.message == [] && encoder.before == encoder.output
    requires grouper.Valid() && grouper.message == [] && grouper.before == grouper.output
    requires decoder.Valid() && decoder.message == [] && decoder.before == decoder.output
    requires encoder.bitsPerChar == decoder.bitsPerChar && |encoder.alphabet| <= 256
    requires IsTable(decoder.lookup, encoder.alphabet, caseInsensitive) && Distinct(encoder.alphabet, caseInsensitive)
    requires encoder.padding == -1 || Outside(encoder.alphabet, caseInsensitive, encoder.padding)
    requires AllOutside(encoder.alphabet, caseInsensitive, grouper.separator)
    requires AllOutside(encoder.alphabet, caseInsensitive, grouper.terminator)
    modifies encoder, encoder.outBuf, grouper, decoder, decoder.outBuf
    ensures encoder.Valid() && grouper.Valid() && decoder.Valid()
    ensures data == message
  {
    hide Flat, Encoder.Valid, Grouper.Valid, Decoder.Valid, Encoded, Grouped, Decoded;
    hide IsTable, Distinct, Outside, AllOutside;
    FlatCut(message, cuts);
    var text := Encode(encoder, Cut(message, cuts));
    FlatCut(text, cuts');
    var groups := Group(grouper, Cut(text, cuts'));
    FlatCut(groups, cuts'');
    data := Decode(decoder, Cut(groups, cuts''));
    CodecRoundTrip(encoder.alphabet, decoder.lookup, caseInsensitive, encoder.bitsPerChar, encoder.blockSize,
                   encoder.padding, grouper.groupSize, grouper.separator, grouper.terminator, message);
  }
}
