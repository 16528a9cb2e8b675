# Verified models of the algorithms under external/cryptopp

The coin's hard algorithms live in the Crypto++ sources it carries. This project models twelve of those
files and proves that their fast, buffered or table-driven forms compute what a short definition or a
published standard asks for, on every input and for every way of cutting the input into calls.

- **Groups and rings** (`algebra.cpp`): scalar multiplication by signed sliding windows, by a sparse two-base
  table and by a heap of exponents, over any group given as values with laws; greatest common divisors and
  inverses by the extended Euclidean algorithm. `Numbers`, `Groups`, `Windows`, `ScalarMultiplication`,
  `CascadeTable`, `Cascade`, `StdHeap`, `GeneralCascade`, `QuotientRing`.
- **Blum-Blum-Shub** (`blumshub.cpp`): the closed form of the output stream, and when `Seek` agrees with it.
  Fermat's little theorem is proved on the way. `PrimeFields`, `Fermat`, `BlumBlumShub`.
- **CCM** (`authenc.cpp`, `ccm.cpp`): a state machine over whole histories (`AeadMachine`), the buffered object
  that refines it (`Ccm`), whole sessions of one and of two such objects (`CcmSessions`), and theorems about all
  runs of the machine (`AeadRuns`) against RFC 3610 (`Rfc3610`, `CbcMac`, `CounterMode`).
- **Streaming** (`cmac.cpp`, `blake2.cpp`, `adler32.cpp`): `GaloisDoubling`, `Cmac`, `Blake2`, `Adler`.
- **Batched blocks** (`adv-simd.h`): overlapping regions of one memory, in both directions, and which overlaps a
  batch bears. `BlockBatches`, `BlockOverlaps`, `CounterOverlaps`.
- **Codecs** (`basecode.cpp`, `asn.cpp`, `asn.h`): bits repacked for every radix from 2 to 128, lengths, object
  identifiers, integers, and re-encoding of nested objects. `BitStrings`, `BitBuffer`, `BaseN`, `BaseNEncoder`,
  `BaseNDecoder`, `DecodingTable`, `Grouping`, `CodecSessions`, `AsnLengths`, `Reencoding`, `ObjectIds`, `UnsignedIntegers`.
- **Camellia** (`camellia.cpp`): two forms of the round, the key table in memory order, and inversion.
  `CamelliaRounds`, `Camellia`, `CamelliaKeys`, and `CamelliaRfc` with the key schedule and the procedure of RFC 3713.

`Integer` is the mathematical integer. A block cipher is an arbitrary function on blocks, the compression
function of BLAKE2 and the substitution box of Camellia are arbitrary functions, a queue or an attached filter
is an octet sequence, and the standard library's heap calls have their contracts only. `Times(g, x, n)` is
`n` added copies of `x`. Machine widths are written out where they matter: 64-bit lengths and totals, 32-bit
arcs, 32-bit running sums, and counter words that wrap.

Seven promises turned out to hold only under a condition. Each has the exact condition, for all inputs, and a
concrete input that fails it:

- `MultiplicativeInverse` stops as soon as a remainder is zero modulo `m`, so an argument that is not reduced is
  answered with zero although it may have an inverse (`QuotientRing.MultiplicativeInverse`,
  `QuotientRing.UnreducedFails`).
- `BlumBlumShub::Seek` reduces its exponent modulo (p-1)(q-1); when that gives zero, a seed that shares a factor
  with the modulus lands on the wrong state. With both primes 3 modulo 4, as the header asks, this never happens
  (`BlumBlumShub.Generator.Seek`, `BlumBlumShub.SeekFailure`, `BlumBlumShub.BlumPrimesSeek`).
- `DERReencode` copies definite-length objects unchanged and keeps strings in pieces, so its output is DER exactly
  when it meets no constructed string and copies nothing that is not DER already. DER here means sections 10.1 and
  10.2 of X.690, the forms of lengths and strings (`Reencoding.ReencodedIsDer`, `Reencoding.HiddenIndefinite`,
  `Reencoding.ConstructedStringKept`).
- An object identifier survives encoding only if its first two arcs share one octet without loss
  (`ObjectIds.OidRoundTrip`, `ObjectIds.ArcsLost`).
- A BOOLEAN decodes back only if it was 0 or 255 (`UnsignedIntegers.UnsignedRoundTrip`,
  `UnsignedIntegers.BooleanLost`).
- A BLAKE2 object restarted from a copy of its own parameter block starts where it did only without a key: the key
  length written into the copy is that of the zero-filled key block (`Blake2.CopyOfOwnBlock`,
  `Blake2.KeyLengthReplaced`).
- With moving pointers and no counter, the batches of `adv-simd.h` leave what single blocks would leave exactly when
  the output does not run ahead of anything that is read by less than a batch (`BlockOverlaps.Exact4x1`,
  `BlockOverlaps.Exact6x2`, `BlockOverlaps.ForwardCbcClashes`). In counter mode a batch does so exactly when no store
  reaches the counter or a later exclusive-or block, and no such block but the last holds the octet that counts
  (`CounterOverlaps.ExactCounter`).

CCM also emits a tag when the lengths were never specified: what the session before it left in the chaining half of
the buffer, under key-stream block 0 (`CcmSessions.TagWithoutLengths`).

## Model

| member | source | states |
|---|---|---|
| Windows.SkipZeroBits | external/cryptopp/algebra.cpp:222-233 | the count stops at the first set bit, or nothing is left above the start; only zero bits are skipped |
| Windows.WindowSlider.constructor | external/cryptopp/algebra.cpp:208-218 | before the first window everything of the exponent is still to come, for every exponent length and chosen width |
| Windows.WindowSlider.FindNextWindow | external/cryptopp/algebra.cpp:220-247 | the signed odd digit and what lies beyond it add up to what lay beyond the previous window; the next window begins past the current one and within the limit, so the slider finishes |
| Windows.WindowSlider.TakeWindow | external/cryptopp/algebra.cpp:237-246 | taking the window below the next bit, or its negative complement with a carry, keeps the value and leaves an odd digit below the window's size |
| ScalarMultiplication.DigitMoves | external/cryptopp/algebra.cpp:280-288 | adding a doubling of the base to bucket j adds exactly the window's digit at its position to the odd-weighted sum of the buckets |
| ScalarMultiplication.ConsumeWindow | external/cryptopp/algebra.cpp:280-288 | after a window is added to or subtracted from its bucket, buckets plus windows to come still make the exponent |
| ScalarMultiplication.OddSumBySuffixSums | external/cryptopp/algebra.cpp:302-312 | the suffix-sum pass over the buckets computes the sum of (2j+1) times bucket j |
| ScalarMultiplication.Collect | external/cryptopp/algebra.cpp:301-312 | the final pass over one exponent's buckets gives the base times their odd-weighted sum |
| ScalarMultiplication.Sweep | external/cryptopp/algebra.cpp:277-290 | one round handles every window that begins at the current position, loses none, and reports whether any slider is left |
| ScalarMultiplication.SimultaneousMultiply | external/cryptopp/algebra.cpp:255-314 | every result is its exponent times the base, for all lists of non-negative exponents; inverses are needed only when the group calls them fast, commutativity never; the loop ends |
| ScalarMultiplication.ScalarMultiply | external/cryptopp/algebra.cpp:90-95 | the exponent times the base |
| CascadeTable.FillOddX | external/cryptopp/algebra.cpp:118-119 | the odd multiples of x alone |
| CascadeTable.FillColumn | external/cryptopp/algebra.cpp:121-122 | from its first entry a column gets a·x + b·y for every b, and no filled entry changes |
| CascadeTable.FillOddColumns | external/cryptopp/algebra.cpp:120-122 | all columns with odd a are complete |
| CascadeTable.FillOddY | external/cryptopp/algebra.cpp:124-125 | the odd multiples of y alone |
| CascadeTable.FillRow | external/cryptopp/algebra.cpp:127-128 | an odd row becomes complete from its odd entries |
| CascadeTable.FillOddRows | external/cryptopp/algebra.cpp:126-128 | all rows with odd b are complete |
| CascadeTable.BuildTable | external/cryptopp/algebra.cpp:103-129 | every entry with an odd coordinate holds its combination of x and y, for every width |
| Cascade.StripZeros | external/cryptopp/algebra.cpp:142-151 | common factors of two move from before to after the addition; the count before it never underflows, and a non-zero pair ends with an odd coordinate |
| Cascade.Flush | external/cryptopp/algebra.cpp:142-166 | the pending bits of both exponents enter the result; the table entry read has an odd coordinate and is filled |
| Cascade.Evaluate | external/cryptopp/algebra.cpp:131-169 | from a complete table the loop over the bits gives e1·x + e2·y for all exponents and widths |
| Cascade.CascadeScalarMultiply | external/cryptopp/algebra.cpp:97-170 | e1·x + e2·y in every commutative group, also with zero exponents, for all three widths |
| StdHeap.PopHeap | external/cryptopp/algebra.cpp:185-185 | a rearrangement that moves the maximum to the end and leaves a heap before it |
| StdHeap.PushHeap | external/cryptopp/algebra.cpp:198-198 | a rearrangement that takes the last element into the heap |
| GeneralCascade.SumPermutes | external/cryptopp/algebra.cpp:184-199 | the sum of multiples does not depend on the order in which the heap holds the terms |
| GeneralCascade.DivisionKeepsSum | external/cryptopp/algebra.cpp:190-196 | replacing the largest exponent by its remainder and moving the quotient into the other base keeps the sum |
| GeneralCascade.DivideStep | external/cryptopp/algebra.cpp:187-200 | one turn keeps the sum and the heap order, and the exponents' total falls |
| GeneralCascade.OnlyLastLeft | external/cryptopp/algebra.cpp:187-202 | when the second largest exponent is zero the last term is the whole sum |
| GeneralCascade.GeneralCascadeMultiplication | external/cryptopp/algebra.cpp:172-204 | the sum of all exponents times their bases, for every non-empty list, and the loop ends |
| QuotientRing.Gcd | external/cryptopp/algebra.cpp:56-68 | a common divisor that every common divisor divides |
| QuotientRing.DivisionStep | external/cryptopp/algebra.cpp:77-85 | coefficients that tie both remainders to the inputs, and the inputs to both remainders, survive a division |
| QuotientRing.MultiplicativeInverse | external/cryptopp/algebra.cpp:70-88 | the answer is an inverse when there is one and zero otherwise, exactly if the argument is reduced, the modulus is one, or there is no inverse; an unreduced argument is answered with zero |
| QuotientRing.UnreducedFails | external/cryptopp/algebra.cpp:70-88 | 5 has an inverse modulo 3, but zero is no inverse |
| PrimeFields.PrimeDividesFactor | external/cryptopp/blumshub.cpp:48-62 | a prime that divides a product divides a factor |
| Fermat.FermatLittle | external/cryptopp/blumshub.cpp:55-62 | a to the power p-1 is 1 modulo a prime p that does not divide a |
| Fermat.ReduceExponent | external/cryptopp/blumshub.cpp:55-62 | reducing a positive exponent modulo (p-1)(q-1) keeps the power modulo p·q exactly when the reduced exponent is positive or the base is coprime |
| BlumBlumShub.StreamTail | external/cryptopp/blumshub.cpp:36-40 | generating from a later position gives the tail of what is generated from the start |
| BlumBlumShub.Generator.constructor | external/cryptopp/blumshub.cpp:9-15 | a new generator delivers bit 0 of the stream of its squared seed |
| BlumBlumShub.Generator.GenerateBit | external/cryptopp/blumshub.cpp:17-26 | the next bit is bit i of the closed form: register i / maxBits, which is the seed squared that many times |
| BlumBlumShub.RegisterBits | external/cryptopp/blumshub.cpp:17-26 | the first k bits of a register, read as a number, are its low maxBits bits without the last maxBits - k: bits leave from the most significant of the kept ones down |
| BlumBlumShub.SmallGenerator | external/cryptopp/blumshub.cpp:9-26 | the generator with 7, 11 and seed 5 delivers 0 and then 1 |
| BlumBlumShub.Generator.GenerateByte | external/cryptopp/blumshub.cpp:28-34 | eight stream bits, most significant first |
| BlumBlumShub.Generator.GenerateBlock | external/cryptopp/blumshub.cpp:36-40 | any number of stream octets, and the position moves by eight bits each |
| BlumBlumShub.Generator.Seek | external/cryptopp/blumshub.cpp:55-62 | for distinct primes the state is that of sequential generation up to 8·index bits exactly when the reduced exponent is positive or the seed is coprime to the modulus |
| BlumBlumShub.BlumPrimesSeek | external/cryptopp/blumshub.h:44-49 | with both factors 3 modulo 4 the reduced exponent is always positive |
| BlumBlumShub.SeekFailure | external/cryptopp/blumshub.cpp:55-62 | a generator with the primes 2 and 3 and seed 3 is in a wrong state after seeking to any index |
| CounterMode.TransformSplit | external/cryptopp/modes.cpp:105-149 | transforming two pieces one after the other is transforming them as one |
| CounterMode.TransformTwice | external/cryptopp/modes.cpp:105-149 | transforming twice from the same position gives the data back |
| Rfc3610.TransformIsCrypt | external/cryptopp/ccm.cpp:27-48 | counting in the whole block gives the key stream of section 2.3 of RFC 3610, which counts in the length field only, up to the greatest message |
| Rfc3610.AllowedSizes | external/cryptopp/ccm.cpp:11-34 | tag lengths and nonces are accepted exactly for the values of M and L that section 2 of RFC 3610 lists |
| Rfc3610.FirstBlockReads | external/cryptopp/ccm.cpp:58-64 | a reader of the bit fields of section 2.2 of RFC 3610 gets back header flag, tag length, nonce and message length, for every length the field holds |
| Rfc3610.CounterBlockReads | external/cryptopp/ccm.cpp:36-38 | a counter block gives back its nonce and its number |
| Rfc3610.FirstIsNoCounter | external/cryptopp/ccm.cpp:58-64 | the first block of the authentication is no counter block of any nonce |
| Rfc3610.PacketTag | external/cryptopp/ccm.cpp:27-135 | the tag of a packet shaped like those of section 8 of RFC 3610, block by block, for every cipher |
| Rfc3610.PacketText | external/cryptopp/ccm.cpp:27-48 | and its encryption under key-stream blocks 1 and 2 |
| AeadMachine.Run | external/cryptopp/authenc.cpp:48-175 | every run of calls, refused ones included, keeps a valid tag length once keyed, a valid nonce while synchronised, no payload before the first payload call, and one outcome per call |
| AeadRuns.StepAgrees | external/cryptopp/authenc.cpp:48-175 | every single call keeps what an observer of calls and outcomes can know, the declared and the delivered lengths included, in step with the state |
| AeadRuns.Safety | external/cryptopp/authenc.cpp:48-175 | in every run payload goes through and a tag comes out only after a key and a synchronisation that no tag, key change or restart has used up, payload never follows footer data, and when lengths were declared payload waits for the whole header and the tag for exactly the declared message |
| AeadRuns.AcceptedLengths | external/cryptopp/cryptlib.cpp:239-251 | in a fresh session a message length is accepted exactly when it fits the length field |
| AeadRuns.UpdatesRun | external/cryptopp/authenc.cpp:75-101 | header chunks of any number and size amount to one header |
| AeadRuns.ProcessesRun | external/cryptopp/authenc.cpp:103-133 | payload chunks of any number and size are transformed as one text |
| AeadRuns.CompleteRun | external/cryptopp/authenc.cpp:48-175 | a run with lengths given first never throws and returns the payload and the tag of sections 2.2 to 2.4 of RFC 3610 for the whole header and plain text |
| AeadRuns.RoundTrip | external/cryptopp/authenc.cpp:103-133 | decryption returns the plain text and the same tag, however the two runs cut up header and payload |
| CcmSessions.Open | external/cryptopp/authenc.cpp:62-73 | a keyed object is ready for a header and a payload of the stated lengths |
| CcmSessions.FeedHeader | external/cryptopp/authenc.cpp:75-101 | header chunks of any number and size leave the buffered object where the whole header would |
| CcmSessions.FeedPayload | external/cryptopp/authenc.cpp:103-133 | payload chunks come out transformed as one text, and the object holds the whole plain text |
| CcmSessions.Session | external/cryptopp/authenc.cpp:62-175 | the buffered object returns the encryption or decryption of sections 2.3 and 2.4 of RFC 3610 and the tag of section 2.2, for every cutting of header and payload |
| CcmSessions.SendAndReceive | external/cryptopp/authenc.cpp:62-175 | what one object encrypts another decrypts to the same message with the same tag, however each side cuts header and text |
| CcmSessions.TagWithoutLengths | external/cryptopp/authenc.cpp:135-175 | after key and nonce alone a tag comes out: the old chaining half under key-stream block 0 |
| Ccm.CipherObject.constructor | external/cryptopp/authenc.h:43-44 | a new object is in its start state |
| Ccm.CipherObject.AuthenticateBlocks | external/cryptopp/ccm.cpp:92-97 | whole blocks extend the CBC-MAC chain and the remainder is returned |
| Ccm.CipherObject.AuthenticateData | external/cryptopp/authenc.cpp:11-46 | chaining value and pending octets stand for the longer stream, whatever was pending, and fewer than 16 octets stay pending |
| Ccm.CipherObject.AuthenticateBuffered | external/cryptopp/ccm.cpp:99-129 | the pending octets, zero-padded, close the chain, whatever it held; nothing happens when nothing is pending |
| Ccm.CipherObject.SetKey | external/cryptopp/authenc.cpp:48-60 | the machine's key step: refused key and tag lengths and the state they leave, the keyed state left when the nonce is missing or refused, and otherwise a synchronised object; the chaining half is not touched |
| Ccm.CipherObject.Resynchronize | external/cryptopp/authenc.cpp:62-73 | the machine's synchronisation step, including refused nonces |
| Ccm.CipherObject.Resync | external/cryptopp/ccm.cpp:27-48 | counter block 0 is in the buffer and in the counter mode, and a fresh session starts |
| Ccm.CipherObject.SpecifyDataLengths | external/cryptopp/ccm.cpp:50-90 | the machine's length step; in a fresh session the buffer then stands for the first block and the length prefix |
| Ccm.CipherObject.FirstMacBlock | external/cryptopp/ccm.cpp:58-64 | the chaining half is the encrypted first block of section 2.2 of RFC 3610 |
| Rfc3610.PrefixReads | external/cryptopp/ccm.cpp:66-89 | the two, six and ten octet forms of the header length cannot be confused: every 64-bit length reads back in front of any header |
| Ccm.CipherObject.Update | external/cryptopp/authenc.cpp:75-101 | the machine's step for header and footer data in every state |
| Ccm.CipherObject.ProcessData | external/cryptopp/authenc.cpp:103-133 | the machine's payload step in every state, output and errors included |
| Ccm.CipherObject.TruncatedFinal | external/cryptopp/authenc.cpp:135-175 | the machine's tag step; the tag is that of RFC 3610 where the session gives it a meaning, and in every other session the closed chain under key-stream block 0 |
| Ccm.CipherObject.EmitTag | external/cryptopp/ccm.cpp:115-135 | the padded payload closes the chain and key-stream block 0 encrypts it, in every state; after a complete session this is the tag of RFC 3610 |
| Ccm.CipherObject.Restart | external/cryptopp/authenc.h:51-51 | back to a keyed object without a nonce |
| GaloisDoubling.Double | external/cryptopp/cmac.cpp:13-21 | two octets at a time from the end, the octets are shifted left by one bit and the carry is the bit that left; with an odd number the first octet stays |
| GaloisDoubling.MulUIsTimesX | external/cryptopp/cmac.cpp:11-56 | for every supported size the result is the polynomial times x modulo the field's polynomial |
| GaloisDoubling.MultiplyByX | external/cryptopp/cmac.cpp:11-56 | for every length, fails exactly when a bit leaves at the top and the size has no polynomial, and otherwise multiplies by x |
| GaloisDoubling.PolynomialTerms | external/cryptopp/cmac.cpp:23-55 | the polynomials of the five sizes by their exponents |
| GaloisDoubling.MulUTells | external/cryptopp/cmac.cpp:11-56 | doubling is one to one at every supported size |
| GaloisDoubling.MulUOctets | external/cryptopp/cmac.cpp:11-43 | for 64 and 128 bits, every octet of the result from two octets of the argument and the constants 0x1b and 0x87 |
| GaloisDoubling.KnownSubkeys | external/cryptopp/cmac.cpp:11-43 | the two subkeys of section 4 of RFC 4493 |
| Cmac.MacAfter | external/cryptopp/cmac.cpp:93-106 | blocks with something behind them may be chained before the rest is known |
| Cmac.FinalBlock | external/cryptopp/cmac.cpp:125-131 | encrypting the register with the first or second subkey gives the value of section 6.2 of NIST SP 800-38B, provided a block was held back |
| Cmac.EmptyMac | external/cryptopp/cmac.cpp:118-131 | the empty message is padded and takes the second subkey |
| Cmac.OneBlockMac | external/cryptopp/cmac.cpp:118-131 | a complete block takes the first subkey and no padding |
| Cmac.NextBlockMac | external/cryptopp/cmac.cpp:73-131 | one octet more chains the block and pads the octet |
| Cmac.CmacBase.UncheckedSetKey | external/cryptopp/cmac.cpp:58-71 | for every block size both subkeys and an empty message, or an error exactly when a needed polynomial is missing; for the supported sizes the subkeys of section 6.1 of NIST SP 800-38B |
| Cmac.CmacBase.FillRegister | external/cryptopp/cmac.cpp:82-98 | the register is encrypted only when more octets are known to follow |
| Cmac.CmacBase.Update | external/cryptopp/cmac.cpp:73-116 | any chunk extends the message; the last block stays in the register |
| Cmac.CmacBase.TruncatedFinal | external/cryptopp/cmac.cpp:118-137 | the one-shot tag of the concatenated chunks, cut to size, and the keyed start state again |
| Blake2.CountIsOffset | external/cryptopp/blake2.cpp:415-421 | the carry between the two counter words is right: together they hold the count modulo the double-word size |
| Blake2.HashAfter | external/cryptopp/blake2.cpp:356-388 | blocks with something behind them may be compressed before the rest is known |
| Blake2.FinalBlock | external/cryptopp/blake2.cpp:390-409 | compressing the zero-filled held-back block with the flags set gives the value of section 3.3 of RFC 7693 |
| Blake2.ShortHash | external/cryptopp/blake2.cpp:390-409 | up to one block is one compression, counted to the message's length and marked last |
| Blake2.TwoBlockHash | external/cryptopp/blake2.cpp:356-409 | a longer message compresses its first block unmarked and counts on |
| Blake2.Blake2.constructor | external/cryptopp/blake2.cpp:232-285 | a key is the first block of the stream, filled with zeros; no key is no block; the parameter block records digest size, key length, salt and personalisation |
| Blake2.PlainBlock | external/cryptopp/blake2.cpp:252-284 | without salt and personalisation the block is the word 0x0101kknn of section 2.5 of RFC 7693 and zeros |
| Blake2.SaltPlace | external/cryptopp/blake2.cpp:259-284 | salt and personalisation stand in the third and fourth quarter of the block |
| Blake2.DigestTells | external/cryptopp/blake2.cpp:255-257 | objects that differ only in the digest size start from different values |
| Blake2.Blake2.Restart | external/cryptopp/blake2.cpp:318-323 | the stream is the key block again, started from the object's own parameter block with a zero counter |
| Blake2.Blake2.RestartFrom | external/cryptopp/blake2.cpp:325-354 | the stream is the key block again, started from the caller's block with the two lengths replaced, and the count goes on from the caller's two words |
| Blake2.StartTells | external/cryptopp/blake2.cpp:346-348 | different parameter blocks give different starts, since the block is exclusive-ored into the initial value |
| Blake2.CopyOfOwnBlock | external/cryptopp/blake2.cpp:325-354 | an object restarted from a copy of its own block starts from the same chaining value exactly when it has no key |
| Blake2.KeyLengthReplaced | external/cryptopp/blake2.cpp:325-335 | a key of one octet is recorded as one of 64 |
| Blake2.Blake2.CompressBlock | external/cryptopp/blake2.cpp:365-367 | a block is counted before it is compressed and never as the last |
| Blake2.Blake2.CompleteBlocks | external/cryptopp/blake2.cpp:360-379 | at least one and at most a block's worth of octets is left over |
| Blake2.Blake2.Update | external/cryptopp/blake2.cpp:356-388 | any chunk extends the stream; a block is always held back |
| Blake2.Blake2.TruncatedFinal | external/cryptopp/blake2.cpp:390-413 | the hash of key block and message as section 3.3 of RFC 7693 defines it, from the block and count the stream was started with, for every chunking, in tree mode too, and the object starts over |
| Adler.AddOctets | external/cryptopp/adler32.cpp:17-24 | up to eight octets keep both sums congruent without a reduction and within 32 bits |
| Adler.AddEight | external/cryptopp/adler32.cpp:31-48 | one subtraction reduces the first sum; the second stays within its bound until it is reduced |
| Adler.BlocksBound | external/cryptopp/adler32.cpp:46-47 | between reductions the second sum stays below 2^32 |
| Adler.FrontOctet | external/cryptopp/adler32.cpp:8-54 | an octet in front enters the second sum once for every octet from it to the end |
| Adler.KnownSums | external/cryptopp/adler32.cpp:56-81 | the sums of no octet and of the octet 0x61 |
| Adler.WrappedSum | external/cryptopp/adler32.cpp:8-54 | 257 octets 0xff wrap the first sum to 15 |
| Adler.Adler32.Update | external/cryptopp/adler32.cpp:8-54 | both fields are the sums of section 8.2 of RFC 1950 over everything read so far, reduced, for every split |
| Adler.Adler32.TruncatedFinal | external/cryptopp/adler32.cpp:56-81 | the leading octets of the big-endian checksum, an error for more than four, and a fresh start |
| BlockBatches.ProgressUnique | external/cryptopp/adv-simd.h:1124-1247 | the memory after a call is determined by the memory before it |
| BlockBatches.StepsProgress | external/cryptopp/adv-simd.h:1124-1247 | when no block is written before it is last read, block after block gives every output in terms of the memory before the call, and nothing else changes |
| BlockBatches.ProcessBatch | external/cryptopp/adv-simd.h:1160-1220 | one batch leaves what loading all blocks, counting, transforming and storing them in order leaves, whatever overlaps |
| BlockBatches.OneBlockLoop | external/cryptopp/adv-simd.h:1223-1246 | memory ends as block after block would leave it, whatever overlaps and whether or not the pointers move |
| BlockBatches.ProcessBlocks4x1 | external/cryptopp/adv-simd.h:1124-1247 | for every overlap memory ends as batches of four and then single blocks leave it, forward, reverse, counter mode or fixed pointers; where no batch disturbs itself that is what single blocks alone would leave, and the remainder is returned |
| BlockBatches.ProcessBlocks6x2 | external/cryptopp/adv-simd.h:936-1122 | the same for batches of six, then two, then one |
| BlockBatches.BatchAgrees | external/cryptopp/adv-simd.h:1160-1220 | a batch none of whose blocks reads what the batch has stored, or counted differently, leaves what its single blocks would leave, for every cipher and memory |
| BlockBatches.ScheduleAgrees | external/cryptopp/adv-simd.h:936-1247 | a call none of whose batches disturbs itself leaves what the one-block loop would leave |
| BlockBatches.AheadUndisturbed | external/cryptopp/adv-simd.h:936-1247 | where no block is written before it is last read, no batch disturbs itself |
| BlockOverlaps.CallIsClear | external/cryptopp/adv-simd.h:936-1247 | with moving pointers and no counter, a call disturbs itself exactly when the output runs ahead of a region that is read by less than its first batch, unless the two regions cancel each other |
| BlockOverlaps.Exact4x1 | external/cryptopp/adv-simd.h:1124-1247 | batches of four agree with single blocks for every cipher and memory exactly when the call is clear for four |
| BlockOverlaps.Exact6x2 | external/cryptopp/adv-simd.h:936-1122 | the same for batches of six, or of two when the call is shorter |
| BlockOverlaps.FarEnough | external/cryptopp/adv-simd.h:1124-1247 | an output four blocks ahead of the input is clear for batches of four, although later batches read it |
| CounterOverlaps.ExactCounter | external/cryptopp/adv-simd.h:1160-1220 | a batch of counter mode leaves what its single blocks would leave, for every cipher and memory, exactly when no store reaches the counter or a later text block and no text block but the last holds the octet that counts |
| BlockBatches.InPlaceReadsAhead | external/cryptopp/adv-simd.h:1124-1247 | processing in place is admitted in both directions |
| BlockBatches.SeparateReadsAhead | external/cryptopp/adv-simd.h:1124-1247 | calls between separate regions are admitted, in both directions and all modes |
| BlockBatches.CounterReadsAhead | external/cryptopp/adv-simd.h:1124-1247 | counter mode over the text in place is admitted when the counter block lies outside it |
| BlockBatches.ReverseCbcReadsAhead | external/cryptopp/modes.cpp:224-236 | CBC decryption in place is admitted backwards |
| BlockOverlaps.ForwardCbcClashes | external/cryptopp/modes.cpp:224-236 | forwards the same call gives a wrong result in batches of four |
| BlockBatches.ReverseCbcResult | external/cryptopp/modes.cpp:224-236 | every block becomes the cipher of the old block combined with the old block before it |
| BlockBatches.ForwardCbcResult | external/cryptopp/modes.cpp:175-185 | CBC encryption, in place or apart: every block becomes the cipher of the old block combined with the new block before it |
| BlockBatches.FixedIsChain | external/cryptopp/ccm.cpp:92-97 | with input and output fixed on one block the text is chained into it, as CBC-MAC does |
| BaseN.PackUnique | external/cryptopp/basecode.cpp:48-113 | digits are determined by the bits they hold and a filling shorter than a digit |
| BaseN.BlockIsLeast | external/cryptopp/basecode.cpp:40-43 | no smaller number of characters makes whole octets |
| BaseN.TextLength | external/cryptopp/basecode.cpp:48-113 | as many digits as the bits need; padded text is whole blocks, filled up by less than a block |
| BaseN.ThreeOctets | external/cryptopp/basecode.cpp:48-113 | the four base-64 digits of any three octets |
| BaseN.OneOctet | external/cryptopp/basecode.cpp:96-113 | any single octet in base 64: two digits and two padding characters |
| BaseN.DigitsRoundTrip | external/cryptopp/basecode.cpp:48-176 | the octets read back from the digits of a message are the message, for every radix from 2 to 128 |
| BaseN.MergedSmall | external/cryptopp/basecode.cpp:145-160 | values below the radix follow one another without touching |
| BaseN.DecodeEncode | external/cryptopp/basecode.cpp:48-176 | decoding undoes encoding, padded or not, given a table that inverts the alphabet and skips the padding |
| BaseNEncoder.TakeBits | external/cryptopp/basecode.cpp:61-77 | the digit takes the next bits of the source octet, as many as it has room for, and the octet's rest moves up |
| BaseNEncoder.Encoder.constructor | external/cryptopp/basecode.cpp:22-46 | the block is 8 characters for an odd number of bits each, 4 for 2 or 6 and 2 for 4 |
| BaseNEncoder.Encoder.PutOctet | external/cryptopp/basecode.cpp:57-79 | the octet's eight bits, in order, join the bits in the buffer |
| BaseNEncoder.Encoder.Put2 | external/cryptopp/basecode.cpp:48-113 | however a message is cut up, its end brings the output to the encoding of the whole message, padding included |
| BaseNDecoder.ShortValue | external/cryptopp/basecode.cpp:147-149 | a value that fits joins the current octet; what is too wide for its character falls on the bits before it |
| BaseNDecoder.LongValue | external/cryptopp/basecode.cpp:150-154 | a value that spills over completes one octet and starts the next |
| BaseNDecoder.Decoder.PutValue | external/cryptopp/basecode.cpp:146-162 | the value's bits join the bits in the buffer, for every lookup array |
| BaseNDecoder.Decoder.Put2 | external/cryptopp/basecode.cpp:133-176 | however a text is cut up, and whatever the lookup array, its end brings the output to the decoding of the whole text; incomplete octets are dropped |
| DecodingTable.InitializeDecodingLookupArray | external/cryptopp/basecode.cpp:178-197 | every character maps to the last alphabet position it spells, or is skipped |
| DecodingTable.LettersSpell | external/cryptopp/basecode.cpp:178-197 | with case folding a letter is spelled by its two cases and anything else by itself alone |
| DecodingTable.TableInverts | external/cryptopp/basecode.cpp:178-197 | the table inverts the alphabet exactly when no later character spells an earlier one and the padding spells none |
| DecodingTable.OutsideIsSkipped | external/cryptopp/basecode.cpp:178-197 | exactly the characters that spell nothing are skipped |
| Grouping.Grouper.PutRun | external/cryptopp/basecode.cpp:221-232 | a separator comes only when another character follows a full group |
| Grouping.GroupedFront | external/cryptopp/basecode.cpp:214-243 | a text longer than a group is its first group, a separator and the rest grouped |
| Grouping.Grouper.Put2 | external/cryptopp/basecode.cpp:214-243 | however a text is cut up, a separator stands before every size-th character but the first, and the terminator at the end |
| Grouping.CodecRoundTrip | external/cryptopp/basecode.cpp:22-243 | encoding, grouping and decoding give back every message, for every radix from 2 to 128, with or without padding, separators and case folding, given distinct characters and the others outside the alphabet |
| CodecSessions.EncodeGroupDecode | external/cryptopp/basecode.cpp:48-243 | an encoder, a grouper and a decoder give back every message, whatever pieces each of the three gets |
| AsnLengths.DERLengthEncode | external/cryptopp/asn.cpp:17-36 | the shortest definite form is appended and its length returned |
| AsnLengths.ShortLengths | external/cryptopp/asn.cpp:17-36 | lengths of up to two octets, written out in the forms of section 8.1.3 of X.690 |
| AsnLengths.BERLengthDecode | external/cryptopp/asn.cpp:38-74 | the loop accepts, refuses and consumes what the recursive reading does |
| AsnLengths.DefiniteMeaning | external/cryptopp/asn.cpp:38-74 | a long form is accepted exactly when all its octets are there and their number fits into 64 bits, leading zeros allowed |
| AsnLengths.LengthRoundTrip | external/cryptopp/asn.cpp:17-74 | every 64-bit length decodes back and nothing after it is touched |
| AsnLengths.LengthIsShortest | external/cryptopp/asn.cpp:17-74 | no accepted encoding of a length is shorter (section 10.1 of X.690) |
| Reencoding.ParseSound | external/cryptopp/asn.cpp:216-231 | what is accepted is a well-formed object followed by the rest |
| Reencoding.ParseComplete | external/cryptopp/asn.cpp:216-231 | every well-formed object is accepted, whatever follows it |
| Reencoding.ParseExactly | external/cryptopp/asn.cpp:216-231 | an input is accepted exactly when it starts with a well-formed object, and there is only one |
| Reencoding.GeneralDecoder.Init | external/cryptopp/asn.cpp:409-420 | the header is accepted exactly when the tag matches, the length octets are good and an indefinite length has a constructed tag |
| Reencoding.ConstructedBit | external/cryptopp/asn.cpp:409-420 | constructed means bit 6 of the identifier octet, for every class and number (section 8.1.2.5 of X.690) |
| Reencoding.GeneralDecoder.TransferTo | external/cryptopp/asn.cpp:477-502 | as much as is asked for and there is moves to the target, and from a definite object no more than is left of its length |
| Reencoding.GeneralDecoder.MessageEnd | external/cryptopp/asn.cpp:461-475 | succeeds exactly when nothing of the contents is left |
| Reencoding.ReencodeChildren | external/cryptopp/asn.cpp:223-227 | the encoder holds the rewritten children in order, up to the end-of-contents octets |
| Reencoding.DERReencode | external/cryptopp/asn.cpp:216-231 | ends on every input, succeeds exactly on a well-formed object, consumes it and appends its definite, shortest-length form |
| Reencoding.ContextTagged | external/cryptopp/asn.cpp:216-231 | a context-specific object of indefinite length around an INTEGER is accepted and gets a definite length |
| Reencoding.WriteObject | external/cryptopp/asn.cpp:527-534 | tag, shortest length and contents are appended |
| Reencoding.RewrittenIsDer | external/cryptopp/asn.cpp:216-231 | the output is one well-formed definite object, and rewriting it changes nothing |
| Reencoding.ReencodedIsDer | external/cryptopp/asn.cpp:216-231 | the output has definite shortest lengths and primitive strings throughout exactly when no string met is constructed and everything copied unchanged already was so |
| Reencoding.StringTypes | external/cryptopp/asn.h:27-52 | the constructed strings by universal tag number, the string types that the header does not list included |
| Reencoding.HiddenIndefinite | external/cryptopp/asn.cpp:216-231 | an indefinite object inside a definite one is accepted and comes out unchanged, which is not DER |
| Reencoding.ConstructedStringKept | external/cryptopp/asn.cpp:216-231 | an octet string in pieces stays in pieces, which is not DER |
| Reencoding.ChildrenKept | external/cryptopp/asn.cpp:223-227 | the contents written for an indefinite object parse as its rewritten children, in order |
| Reencoding.DerSize | external/cryptopp/asn.cpp:527-534 | the output is at most five times as long as the input, so below 2^61 octets every length fits |
| ObjectIds.EncodeValue | external/cryptopp/asn.cpp:233-238 | base-128 digits without a leading zero digit, all but the last marked |
| ObjectIds.DecodeValue | external/cryptopp/asn.cpp:240-257 | one arc and its octet count, or an error on truncation or before a 32-bit overflow |
| ObjectIds.ArcRoundTrip | external/cryptopp/asn.cpp:233-257 | every 32-bit arc decodes back |
| ObjectIds.OID.DEREncode | external/cryptopp/asn.cpp:259-269 | tag, shortest length and the encoded arcs are appended |
| ObjectIds.KnownIdentifier | external/cryptopp/asn.cpp:259-269 | the octets of 1.2.840.113549 |
| ObjectIds.OID.BERDecode | external/cryptopp/asn.cpp:271-298 | succeeds exactly when the arcs fill the stated length, and then holds them |
| ObjectIds.OidRoundTrip | external/cryptopp/asn.cpp:259-298 | an identifier decodes back exactly when the second arc is below 40 and the shared octet is below 256 |
| ObjectIds.ArcsLost | external/cryptopp/asn.cpp:259-298 | 2.48 comes back as 3.8 and 2.999 as 1.15 |
| UnsignedIntegers.ContentsAreShortest | external/cryptopp/asn.h:461-476 | section 8.3 of X.690: the value, non-negative in two's complement, in the fewest octets |
| UnsignedIntegers.TrimBuffer | external/cryptopp/asn.h:471-475 | exactly the leading zeros that are not needed as a sign are dropped |
| UnsignedIntegers.DEREncodeUnsigned | external/cryptopp/asn.h:456-481 | the encoding is appended and its length returned, for every type width |
| UnsignedIntegers.KnownIntegers | external/cryptopp/asn.h:456-481 | the octets of 0, 5, 128 and both BOOLEANs |
| UnsignedIntegers.Accumulate | external/cryptopp/asn.h:521-532 | refuses exactly the values that do not fit the type, however many leading zeros they have |
| UnsignedIntegers.BERDecodeUnsigned | external/cryptopp/asn.h:492-536 | succeeds exactly on a good header and a value that fits and lies in the range |
| UnsignedIntegers.UnsignedRoundTrip | external/cryptopp/asn.h:456-536 | a value decodes back exactly when it is in range and, as a BOOLEAN, is 0 or 255 |
| UnsignedIntegers.BooleanLost | external/cryptopp/asn.h:456-536 | every non-zero BOOLEAN comes back as 255 |
| CamelliaRounds.SameMix | external/cryptopp/camellia.cpp:29-57 | rotations of one word and four spread tables add the same octets |
| CamelliaRounds.RoundIsSlowRound | external/cryptopp/camellia.cpp:29-57 | the two forms of the round agree for every input, key and substitution box |
| CamelliaRounds.RoundIsRfcF | external/cryptopp/camellia.cpp:48-57 | the table form of the round is the F-function of section 2.4.1 of RFC 3713 |
| CamelliaRounds.SampleOctets | external/cryptopp/camellia.cpp:29-57 | octet 3 of a word is its most significant one, and the two turns of an octet go left and right |
| Camellia.FLInverts | external/cryptopp/camellia.cpp:204-208 | the two halves of the layer are inverse to each other |
| CamelliaRfc.FLIsRfc | external/cryptopp/camellia.cpp:204-208 | the layer on 32-bit halves is FL and its inverse of sections 2.4.2 and 2.4.3 of RFC 3713 on 64-bit words |
| Camellia.DoubleRoundInverts | external/cryptopp/camellia.cpp:59-61 | two rounds with exchanged subkeys undo two rounds on exchanged halves |
| Camellia.Mirrored | external/cryptopp/camellia.cpp:200-247 | after every group of rounds decryption is in the mirrored state of encryption |
| Camellia.ReversedInverts | external/cryptopp/camellia.cpp:200-247 | processing with the reversed subkeys undoes processing, for every table of subkeys |
| CamelliaKeys.StoreOne | external/cryptopp/camellia.cpp:84-97 | a store at a computed address replaces one subkey and no other, in both directions and byte orders |
| CamelliaKeys.TableOrder | external/cryptopp/camellia.cpp:74-97 | the encryption table is read as written, the decryption table reversed by 64-bit words |
| CamelliaKeys.Complete128 | external/cryptopp/camellia.cpp:124-150 | every slot is written with the subkey of section 2.2 of RFC 3713 |
| CamelliaKeys.Complete256 | external/cryptopp/camellia.cpp:151-197 | the same for the longer keys |
| CamelliaKeys.Base.KsRound | external/cryptopp/camellia.cpp:98-102 | the asked-for words of the rotated key go to their slots, for rotations below and above 64 |
| CamelliaRfc.RotatedIsRfc | external/cryptopp/camellia.cpp:98-102 | the two words are those of the 128-bit key rotated left, for every amount that is used |
| CamelliaRfc.DeriveIsRfc | external/cryptopp/camellia.cpp:136-190 | the folded rounds derive the KA and KB of section 2.2 of RFC 3713 |
| CamelliaRfc.RightKeyIsRfc | external/cryptopp/camellia.cpp:161-168 | KR of section 2.2 of RFC 3713: the other half of a 256-bit key, or 64 bits and their complement |
| CamelliaRfc.ShorterKey | external/cryptopp/camellia.cpp:161-168 | a 192-bit key has the subkeys of the 256-bit key that ends in the complement of its last 64 bits |
| CamelliaRfc.Table128 | external/cryptopp/camellia.cpp:124-150 | pair by pair the subkeys of the table in section 2.2 of RFC 3713, the last pair exchanged |
| CamelliaRfc.Table256 | external/cryptopp/camellia.cpp:151-197 | the same for the longer keys |
| CamelliaRfc.SubkeysAreRfc | external/cryptopp/camellia.cpp:69-198 | the subkeys are those of section 2.2 of RFC 3713, for all three key sizes |
| CamelliaRfc.EncryptionIsRfc | external/cryptopp/camellia.cpp:69-247 | encrypting with a key's subkeys is the procedure of section 2.3 of RFC 3713, for every substitution box |
| CamelliaKeys.Base.UncheckedSetKey | external/cryptopp/camellia.cpp:69-198 | the table read in order is the key's subkeys, or the subkeys reversed in a decryption object, for all three key sizes |
| CamelliaKeys.Base.ProcessAndXorBlock | external/cryptopp/camellia.cpp:200-247 | the block goes through the rounds and layers of RFC 3713 with the table's subkeys, fast and slow rounds mixed, then the exclusive or |
| CamelliaKeys.EncryptThenDecrypt | external/cryptopp/camellia.cpp:69-247 | for every key size, block, substitution box and byte order decryption returns the plaintext |

## Left out

- The interfaces, records and JSON conversion under `include/`, the HTTP and line-editing libraries, scripts, build and benchmark files: only shallow properties.
- Other ciphers and hashes of the library, and the CBC-MAC class: repeats of the inversion and streaming arguments here.
- The literal tables of Camellia and BLAKE2, the compression function and the octet order of chaining values: kept as parameters; the spread tables are defined from the substitution box.
- SIMD intrinsics and the NEON, Altivec and PowerPC variants of `adv-simd.h`: a batch is a function that applies the cipher to each block.
- `EncodedObjectFilter::Put`, the blocking and resume macros of the filters and `NameValuePairs`: which octets move when depends on code outside these files.
- Exceptions on refused initialisation parameters of the base-N filters: the constructors take parameters that are in range.
- Tag numbers above 30, which take several octets: the decoder reads single-octet tags and so does the model.
- Reencoding.ReencodedIsDer: sections 10.3 and 11 of X.690 (order of sets, BOOLEAN values, unused bits, defaults) are not part of its notion of DER.
- Reencoding.DERReencode: says nothing about what destructors have already written to the destination when an exception is thrown.
- GeneralCascade.GeneralCascadeMultiplication: works on a sequence of terms; the scrambled order in which the source leaves the caller's range is not modelled.
- StdHeap.PushHeap: the library's own sifting is not modelled; callers use the contract only.
- `AbstractEuclideanDomain` and `QuotientRing` over domains other than the integers.
- Montgomery arithmetic and `ModularArithmetic`: powers and products are taken modulo n directly.
- BlockBatches.ScheduleAgrees: that the condition is also necessary is proved for moving pointers, without a counter or in counter mode; for fixed pointers, and for a counter combined with its exclusive-or block before the cipher, it is not; the library makes no such call in parallel.
- AeadMachine.Run: where a session gives its tag no meaning, the machine takes the tag as an argument of the call, because it depends on stale buffer contents; `Ccm.CipherObject.TruncatedFinal` states it.
- Cache-line countermeasures in Camellia, which do not change a result, and the octet order in which blocks and keys are read and written: blocks and keys are words.
- Secure erasure of buffers, alignment and the width of `unsigned int` bit positions.
