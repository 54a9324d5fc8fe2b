# Models of Crypto++ in Dafny

Crypto++ does its work in small stateful algorithms: windowed multiplication in groups, BER and DER
codecs, message authentication that is fed in pieces, filters that regroup bits, and fast forms of
slow loops. This project models those algorithms with their loops and fields and proves that each
computes what a plain definition says, for every input and every way of cutting the input up.

* **Algebra** (`Groups`, `WindowSlider`, `Simultaneous`, `Cascade`, `GeneralCascade`, `Euclid`):
  multiplication by signed sliding windows with buckets, by an interleaved two-base table, and by a
  heap of bases, each equal to repeated addition in any commutative group; the extended Euclidean
  algorithm over the integers.
* **BER and DER** (`Ber`, `Oid`, `BerTree`, `BerOpening`, `AsnSources`, `Asn`, `AsnScalars`): lengths,
  unsigned integers and object identifiers in both directions; nested decoders; the re-encoder that
  makes indefinite lengths definite. Octet-string functions are the specification; the methods over queues
  and nested decoders are proved against them.
* **MACs, hashes and authenticated encryption** (`Cmac`, `Blake2`, `Adler`, `AeadModes`, `Authenc`,
  `Aead`, `AuthenticatedCipher`): incremental objects against one-shot definitions, the state machine
  of authenticated modes with all its refusals, and the tags of RFC 8439 and RFC 3610. The machine
  is a record with one function for each call; the class has the source's fields and methods, each
  proved to be that function, and what holds of every run is proved of the functions.
* **Base 2^k text** (`BitStrings`, `BaseN`, `BaseNDecoder`, `Grouper`, `BaseNRoundTrip`): encoder,
  decoder, grouper and lookup table, and the round trip through all of them.
* **Fast forms** (`AdvSimd`, `AdvSimdBlocks`, `AdvSimdExactly`, `AdvSimdTemplates`, `Fermat`, `BlumShub`, `BlumShubGenerator`,
  `BlumShubStream`): blocks processed in batches against one at a time on one memory, and seeking in the
  Blum Blum Shub stream against generating.

`Numbers`, `Bytes`, `Wrappers` and `Ciphers` hold what they share. Integers are unbounded except where the source
wraps: `lword` totals, counter words, the counter byte, length octets, arcs and the Adler sums.

Where the code departs from its documentation or its standard, the model follows the code. In each of
these cases a lemma says exactly when the two agree, and another gives an input for which they do not:
`MultiplicativeInverse` returns 0 for elements that are not reduced; a BOOLEAN keeps only the truth of a
number; an object identifier whose joint first octet does not fit loses arcs, though X.690 allows larger ones under 2; `BERDecodeUnsigned` reads contents with the
top bit set as large numbers, where X.690 has negative ones; `DERReencode` copies indefinite lengths
inside definite elements; a decoder gives messages back only for alphabets without symbols that are read
alike; `Seek` is right for primes that are 3 modulo 4, as documented, but not for all primes and seeds:
`BlumShub.SeekExactly` says when the state it sets is right, `BlumShubStream.SeekIsSkipExactly` when what is
read from it is, which it can be from a wrong state.

Tags are of one octet in the code and in the model's elements; `BerTrees.HighTagIsCut` shows what happens
to a tag of several.

Run `dafny verify dfyconfig.toml` to check the project.

## Model

| member | source | states |
|---|---|---|
| Groups.TimesAdd | externals/cryptopp/algebra.h:36-128 | The scalar multiple that every algorithm is measured against is additive in its coefficient, in any commutative group and for coefficients of either sign. |
| WindowSliders.NextConserves | externals/cryptopp/algebra.cpp:220-247 | One `FindNextWindow` conserves the value: what was still to be recoded equals the new signed digit at its position plus what is left; the digit is odd, below 2^w, at least w positions above the last (w + 1 with fast negation); `finished` exactly when nothing is left. |
| WindowSliders.NextFindsWindow | externals/cryptopp/algebra.cpp:225-246 | When bits are left a window is found, with and without the borrow `exp += windowModulus`. |
| WindowSliders.NextShrinks | externals/cryptopp/algebra.cpp:220-247 | The recoding terminates: every call shrinks a measure. |
| WindowSliders.WindowsRecode | externals/cryptopp/algebra.cpp:206-253 | From any reachable state the windows still to come add up to exactly what is pending, and are odd, bounded and spaced. |
| WindowSliders.RecodingIsExact | externals/cryptopp/algebra.cpp:206-253 | Every exponent n >= 0 and every window size: the digits spell n, are odd, below 2^w in size, and at least w apart. |
| WindowSliders.WindowSlider.constructor | externals/cryptopp/algebra.cpp:208-218 | A slider starts with the whole exponent pending, and the window size the thresholds give for 0. |
| WindowSliders.WindowSizes | externals/cryptopp/algebra.cpp:214-215 | The window size chosen for 0 is 1 for exponents below 2^17, at most 2 below 2^24, 3 below 2^70, 4 below 2^197, 5 below 2^539 and 6 below 2^1434, and for no others. |
| WindowSliders.WindowSlider.FindNextWindow | externals/cryptopp/algebra.cpp:220-247 | The method, skip loop included, takes the fields to the state the lemmas are about. |
| SimultaneousMultiplication.SuffixSumsAreWeighted | externals/cryptopp/algebra.cpp:299-313 | The suffix-sum trick computes the sum of (2j+1) * bucket[j]. |
| SimultaneousMultiplication.BucketStep | externals/cryptopp/algebra.cpp:280-288 | Adding the current power to the bucket of the digit and moving on keeps buckets plus pending windows equal to the exponent, for negated digits too. |
| SimultaneousMultiplication.Collect | externals/cryptopp/algebra.cpp:301-313 | The final pass over one list of buckets returns the odd-weighted sum of the buckets, in the group. |
| SimultaneousMultiplication.Visit | externals/cryptopp/algebra.cpp:280-289 | Visiting one slider at the current bit keeps every exponent accounted for and misses no window position. |
| SimultaneousMultiplication.Pass | externals/cryptopp/algebra.cpp:277-290 | After a pass no unfinished slider waits for the current bit or an earlier one, and `notDone` tells whether any is unfinished. |
| SimultaneousMultiplication.SimultaneousMultiply | externals/cryptopp/algebra.cpp:255-314 | results[i] is exp[i] * base for every i and every list of nonnegative exponents, with and without fast inversion. |
| SimultaneousMultiplication.ScalarMultiply | externals/cryptopp/algebra.cpp:90-95 | The result is exponent * base. |
| CascadeMultiplication.FillTable | externals/cryptopp/algebra.cpp:105-129 | The fill loops leave p1*x + p2*y in every slot with an odd power (and promise nothing of the others). |
| CascadeMultiplication.WindowWidths | externals/cryptopp/algebra.cpp:99-103 | The window is one bit wide exactly when both exponents are below 2^46, and at most two when both are below 2^260. |
| CascadeMultiplication.StripTwos | externals/cryptopp/algebra.cpp:142-151 | Common factors of two leave the window and become doublings behind it, so that the slot looked up has an odd power or the window is empty. |
| CascadeMultiplication.ApplyWindow | externals/cryptopp/algebra.cpp:142-165 | One window, the first included: the result becomes the old one shifted by all squares plus the window. |
| CascadeMultiplication.Flush | externals/cryptopp/algebra.cpp:140-167 | The `if` body re-establishes that the result is the combination of the bits read so far. |
| CascadeMultiplication.CascadeScalarMultiply | externals/cryptopp/algebra.cpp:97-170 | For all e1, e2 >= 0 in any commutative group the result is e1*x + e2*y. |
| GeneralCascade.SumOfPermutation | externals/cryptopp/algebra.cpp:184-200 | The sum of base * exponent does not depend on the order, so that heap operations keep it. |
| GeneralCascade.RoundPreserves | externals/cryptopp/algebra.cpp:189-196 | Dividing the largest exponent by the next largest and accumulating the bases preserves the two terms. |
| GeneralCascade.PushHeap | externals/cryptopp/algebra.cpp:198 | A stand-in for `std::push_heap`: heap order and the same elements. |
| GeneralCascade.PopHeap | externals/cryptopp/algebra.cpp:199 | A stand-in for `std::pop_heap`: the largest goes last, the rest stay a heap, the same elements. |
| GeneralCascade.MakeHeap | externals/cryptopp/algebra.cpp:184 | A stand-in for `std::make_heap`: heap order and the same elements. |
| GeneralCascade.DivideLargest | externals/cryptopp/algebra.cpp:189-196 | The assignments of a round keep the sum and strictly lower the total of the exponents. |
| GeneralCascade.Round | externals/cryptopp/algebra.cpp:187-200 | Each round keeps "last is largest, the rest a heap", preserves the sum and strictly lowers the total of the exponents. |
| GeneralCascade.GeneralCascadeMultiplication | externals/cryptopp/algebra.cpp:172-204 | For n >= 1 nonnegative exponents the result is the sum of base_i * exponent_i. |
| Euclid.Gcd | externals/cryptopp/algebra.cpp:54-69 | The rotating slots end at a greatest common divisor. |
| Euclid.IsUnit | externals/cryptopp/algebra.h:425-426 | True exactly for the elements coprime to the modulus, and exactly for those with an inverse, reduced or not. |
| Euclid.UnitsAreCoprime | externals/cryptopp/algebra.h:425-426 | An inverse modulo m exists exactly for the elements coprime to m. |
| Euclid.MultiplicativeInverse | externals/cryptopp/algebra.cpp:70-88 | The three rotating slots compute the recursive specification of the extended algorithm, with the zero test modulo m. |
| Euclid.RunFindsCombination | externals/cryptopp/algebra.cpp:77-85 | The loop keeps g = a*v + m*u and ends at a greatest common divisor. |
| Euclid.BalancedStep | externals/cryptopp/algebra.cpp:77-85 | abs(v_next)*g_cur + abs(v_cur)*g_next = m with alternating signs is kept by every step. |
| Euclid.RunStaysBelow | externals/cryptopp/algebra.cpp:77-85 | For a reduced element the final coefficient is below m in size. |
| Euclid.InverseOfReduced | externals/cryptopp/algebra.cpp:70-88 | For abs(a) < m: a true inverse exactly when a is coprime to m, otherwise 0; below m in size for a >= 0. |
| Euclid.InverseOfUnreduced | externals/cryptopp/algebra.cpp:70-88 | For abs(a) >= m the result is 0, since the zero test is equality modulo m (algebra.h:401-402). |
| Euclid.InverseKeepsPromiseExactly | externals/cryptopp/algebra.cpp:70-88 | An inverse for coprime elements and 0 for others is returned if and only if abs(a) < m, or m = 1, or a is not coprime to m. |
| Euclid.UnreducedElementHasNoInverse | externals/cryptopp/algebra.cpp:70-88 | The input that shows it: 3 has the inverse 1 modulo 2, and the code returns 0. |
| Cmac.TimesXIsReduced | externals/cryptopp/cmac.cpp:29-71 | The specification of the subkey step is multiplication by x reduced modulo the polynomial. |
| Cmac.TailsOfPolynomials | externals/cryptopp/cmac.cpp:42-67 | The constants are the polynomials named there and in section 2.3 of RFC 4493, written out in powers of two. |
| Cmac.ShiftLeft | externals/cryptopp/cmac.cpp:17-24 | Two bytes a round with swapped carries is a shift of the whole big-endian number by one bit; the carry left is the bit that fell out. |
| Cmac.ShiftAndReduce | externals/cryptopp/cmac.cpp:17-72 | The shift, and the constant xored in if a bit fell out, is multiplication by x in GF(2^(8*len)). |
| Cmac.MulU | externals/cryptopp/cmac.cpp:15-73 | In place, for lengths 8, 16, 32, 64 and 128: the block times x (section 2.3 of RFC 4493 for 16). |
| Cmac.CmacBase.UncheckedSetKey | externals/cryptopp/cmac.cpp:79-92 | The subkeys are the encrypted zero block times x and times x squared, and nothing is absorbed. |
| Cmac.CmacBase.Update | externals/cryptopp/cmac.cpp:94-137 | Any input is absorbed behind what was; the invariant holds the last block back (0 < counter <= block size once there is data). |
| Cmac.FinishIsOneShot | externals/cryptopp/cmac.cpp:143-152 | Finishing the register gives the one-shot tag of section 2.4 of RFC 4493, K1 if and only if the last block is full. |
| Cmac.CmacBase.TruncatedFinal | externals/cryptopp/cmac.cpp:139-160 | The tag is the front of the one-shot tag of everything absorbed, the empty message included, and the object is freshly keyed again; a size too large is refused and changes nothing. |
| Blake2.CountUp | externals/cryptopp/blake2.cpp:661-673 | Adding to t[0] and carrying into t[1] when it wrapped counts the two-word number up. |
| Blake2.CounterIsExact | externals/cryptopp/blake2.cpp:661-673 | Below 2^64 (s) or 2^128 (b) the words are the exact number of bytes. |
| Blake2.AbsorbAppend | externals/cryptopp/blake2.cpp:555-561 | Compressing one more block is the compression with the number of bytes up to and including it. |
| Blake2.CompleteBlock | externals/cryptopp/blake2.cpp:542-553 | Held-back bytes completed to a block and compressed leave exactly the bytes after it. |
| Blake2.KeyBlock | externals/cryptopp/blake2.cpp:400-408 | The block that keys the hash is the key with zeros behind it (section 3.3 of RFC 7693). |
| Blake2.DataMore | externals/cryptopp/blake2.cpp:462-609 | What is hashed is the key block and then the message, however it is cut up. |
| Blake2.Blake2.Restart | externals/cryptopp/blake2.cpp:462-534 | A fresh state in which the padded key block, if there is a key, is the first data. |
| Blake2.Blake2.Update | externals/cryptopp/blake2.cpp:536-609 | Any chunk is absorbed; no block is compressed until more data is known to follow. |
| Blake2.AbsorbedFinish | externals/cryptopp/blake2.cpp:617-628 | The padded held-back bytes with the total count and the final flag complete the one-shot hash of section 3.3 of RFC 7693. |
| Blake2.Blake2.TruncatedFinal | externals/cryptopp/blake2.cpp:611-659 | The digest is the front of the one-shot digest of key block and message, and the object starts over; a size too large is refused. |
| Adler.FoldConcat | externals/cryptopp/adler32.cpp:8-54 | The bytewise definition (section 8.2 of RFC 1950) can be taken chunk by chunk. |
| Adler.BaseIsLargestPrime | externals/cryptopp/adler32.cpp:10 | The modulus is the largest prime below 65536 (section 8.2 of RFC 1950). |
| Adler.AddByte | externals/cryptopp/adler32.cpp:31-38 | A byte added to sums within their bounds stays within 32 bits and keeps them congruent to the definition. |
| Adler.ReduceFirst | externals/cryptopp/adler32.cpp:43-44 | One conditional subtraction brings s1 below 65521 after eight bytes. |
| Adler.RoomForEight | externals/cryptopp/adler32.cpp:29-47 | Reducing s2 only when the length left is a multiple of 0x8000 leaves at most 0x8000 bytes between reductions. |
| Adler.Adler32.Update | externals/cryptopp/adler32.cpp:8-54 | For every input and chunking the sums are those of the definition, both below 65521. |
| Adler.Adler32.TruncatedFinal | externals/cryptopp/adler32.cpp:56-80 | The front of the four bytes of s2 * 65536 + s1, and the object starts over. |
| AeadModes.AuthenticateConcat | externals/cryptopp/authenc.cpp:40-46 | Whole blocks can be authenticated in two parts. |
| AeadModes.CryptInvolution | externals/cryptopp/authenc.cpp:128-135 | Enciphering is its own inverse. |
| AeadMachine.FrontMore | externals/cryptopp/authenc.cpp:11-51 | What is authenticated and what is held after more data depends only on all data so far, not on how it was cut up. |
| AeadMachine.UpdateTracks | externals/cryptopp/authenc.cpp:80-107 | Header data before the message is tracked as header. |
| AeadMachine.ProcessTracks | externals/cryptopp/authenc.cpp:109-139 | Message data is tracked in both forms, in both directions, the first call closing the header. |
| AeadMachine.FinishIsOneShot | externals/cryptopp/authenc.cpp:141-184 | In every tracked run the tag is the one-shot tag, or refused exactly when there is none, and the state is KeySet afterwards. |
| AeadMachine.FooterIsFinal | externals/cryptopp/authenc.cpp:94-122 | Once a run has given header data behind message data, it goes on being accepted exactly as long as no further message data is given, however much footer data there is. |
| AeadMachine.RunInPhase | externals/cryptopp/authenc.cpp:80-139 | In every accepted run the state is the one its calls amount to: header until the first message data, footer from the first nonempty header data behind it, whose length is counted modulo 2^64. |
| AeadMachine.FooterTag | externals/cryptopp/authenc.cpp:141-155 | Behind footer data a tag is given if and only if its size is allowed and the length of all footer data is 0 modulo 2^64, so that the total of the source has wrapped around. |
| AeadMachine.RunTracks | externals/cryptopp/authenc.cpp:80-139 | Every run of calls between IV and tag that is not refused is tracked, however header and message are cut up. |
| Aead.AnyRun | externals/cryptopp/authenc.cpp:80-184 | Any legal run gives out the message in one piece under the key stream, and then the tag of header and message in one piece. |
| Aead.DecryptsWhatWasEncrypted | externals/cryptopp/authenc.cpp:109-184 | A decrypting object given what came out, cut up in any way, recovers the message and computes the same tag. |
| Aead.RefusedExactly | externals/cryptopp/authenc.cpp:111-126 | Message data is refused exactly when it makes the message too long, or is the first and the header does not have the specified length. |
| Aead.OrderedRunIsAccepted | externals/cryptopp/authenc.cpp:80-139 | Every run with the header before the message is accepted, if the message is not too long and the header fits. |
| Aead.ChaChaPolyTag | externals/cryptopp/chachapoly.cpp:65-95 | The one-shot tag is Poly1305 over header, pad, ciphertext, pad and the two 64-bit lengths: section 2.8 of RFC 8439. |
| Aead.MacKeyIsStandard | externals/cryptopp/chachapoly.cpp:21-37 | Poly1305 is keyed with the first half of key stream block 0 (section 2.6 of RFC 8439). |
| Bytes.LittleEndianReversed | externals/cryptopp/chachapoly.cpp:90-92 | The little-endian encoding is the big-endian one from the last byte to the first. |
| Aead.FirstBlockIsB0 | externals/cryptopp/ccm.cpp:61-63 | The first CBC-MAC block, nonce copied over the length bytes, is B_0 of section 2.2 of RFC 3610. |
| Aead.HeaderPrefixExactly | externals/cryptopp/ccm.cpp:65-89 | The prefix is the encoding of the length of the header in section 2.2 of RFC 3610: nothing, 2 bytes, ff fe and 4 bytes, or ff ff and 8 bytes that spell it; and nothing else is. |
| Aead.LimitsAreStandard | externals/cryptopp/ccm.h:43-56 | Accepted nonce and tag lengths are those of the two standards (for ChaCha20/Poly1305 chachapoly.h:56-69). |
| Aead.UnspecifiedLengths | externals/cryptopp/ccm.cpp:34-50 | Without `SpecifyDataLengths` CCM gives a tag for an empty header and message only. |
| Aead.CountedBlock | externals/cryptopp/ccm.cpp:36-45 | Counting the whole 16-byte block up touches only the counter field while the count fits it. |
| Aead.CcmStream | externals/cryptopp/ccm.cpp:36-45 | The key stream is that of section 2.3 of RFC 3610 for as long as the counter lasts. |
| Aead.ChainFlush | externals/cryptopp/ccm.cpp:99-129 | Authenticating data and flushing the rest of it is CBC chaining over the zero-padded data. |
| Aead.CcmOneShotTag | externals/cryptopp/ccm.cpp:50-135 | Once lengths are specified, the one-shot tag is that of sections 2.2 and 2.3 of RFC 3610, and there is one exactly when the lengths were right. |
| Aead.OneCallIsStandard | externals/cryptopp/cryptlib.cpp:247-263 | A whole call is accepted exactly when IV, message and tag are of fitting lengths, and then gives the ciphertext and the tag of the standard. |
| Aead.StandardCryptInvolution | externals/cryptopp/ccm.cpp:131-135 | Enciphering twice under one key and IV is doing nothing. |
| Aead.RunIsShort | externals/cryptopp/authenc.cpp:111-113 | No run that is not refused has a message over the limit. |
| Aead.AnyRunIsStandard | externals/cryptopp/authenc.cpp:80-184 | Any legal run, however cut up and in both directions, gives out the message under the standard's key stream and then the tag of RFC 8439 or RFC 3610; CCM gives one exactly when the lengths were those specified. |
| AuthenticatedCipher.AuthenticatedCipherBase.AuthenticateData | externals/cryptopp/authenc.cpp:11-51 | Leftover first, whole blocks next, the rest held: the fields become those of all data taken together. |
| AuthenticatedCipher.AuthenticatedCipherBase.SetKey | externals/cryptopp/authenc.cpp:53-65 | Any state becomes KeySet with nothing held; an IV among the parameters is then set, or refused. |
| AuthenticatedCipher.AuthenticatedCipherBase.Resynchronize | externals/cryptopp/authenc.cpp:67-78 | The transition of the machine, a refused IV included; the nonce is in the buffer. |
| AuthenticatedCipher.AuthenticatedCipherBase.SpecifyDataLengths | externals/cryptopp/ccm.cpp:50-90 | The transition of the machine, with the nonce read from the buffer; the length prefix is held as if it were header data. |
| AuthenticatedCipher.AuthenticatedCipherBase.Update | externals/cryptopp/authenc.cpp:80-107 | The transition of the machine for header and footer data. |
| AuthenticatedCipher.AuthenticatedCipherBase.ProcessData | externals/cryptopp/authenc.cpp:109-139 | The transition of the machine for message data, and its output. |
| AuthenticatedCipher.AuthenticatedCipherBase.TruncatedFinal | externals/cryptopp/authenc.cpp:141-184 | The transition of the machine at the tag, and the tag. |
| AuthenticatedCipher.AuthenticatedCipherBase.EncryptAndAuthenticate | externals/cryptopp/chachapoly.cpp:97-103 | Accepted exactly for fitting lengths, and then ciphertext and tag are those of the standard. |
| AuthenticatedCipher.AuthenticatedCipherBase.DecryptAndVerify | externals/cryptopp/chachapoly.cpp:105-111 | The message enciphers to the ciphertext, and the verdict is that the tag is the standard one. |
| BitStrings.FillCell | externals/cryptopp/basecode.cpp:54 | Oring bits shifted into place into the cell being filled appends them to the bits held. |
| BitStrings.SpreadDigits | externals/cryptopp/basecode.cpp:40-105 | The bits of the digits are the bits given, and fewer zeros than a digit has places. |
| BitStrings.OctetsOfSpread | externals/cryptopp/basecode.cpp:125-168 | Reading the bits of bytes off gives the bytes; up to seven bits more are dropped. |
| BaseN.OutputBlockSize | externals/cryptopp/basecode.cpp:32-35 | The block is the smallest of whole digits and whole bytes. |
| BaseN.PutByte | externals/cryptopp/basecode.cpp:48-71 | The loop appends the eight bits of the byte to those held, and stays inside the buffer. |
| BaseN.FinishMessage | externals/cryptopp/basecode.cpp:87-101 | What is flushed at the end, padding included, completes the encoding. |
| BaseN.BaseNEncoder.constructor | externals/cryptopp/basecode.cpp:14-38 | A fresh encoder with the smallest block of whole digits and bytes. |
| BaseN.BaseNEncoder.Put | externals/cryptopp/basecode.cpp:40-105 | For any chunking, what is put out for a message is its big-endian k-bit digits looked up in the alphabet, and padding to a whole block if there is a padding character. |
| BaseNDecoding.PutDigit | externals/cryptopp/basecode.cpp:138-154 | A value goes into one cell or two and never beyond the buffer, for any table; below 2^k it appends its k bits. |
| BaseNDecoding.BaseNDecoder.Put | externals/cryptopp/basecode.cpp:125-168 | For any chunking, what is put out for a text is the complete bytes of the bits of its accepted characters, if the table is one for digits of k bits. |
| BaseNRoundTrip.InitializeDecodingLookupArray | externals/cryptopp/basecode.cpp:170-189 | Every entry is the last symbol its character is read as, in either case if case is ignored, or -1. |
| BaseNRoundTrip.SymbolsAreDigits | externals/cryptopp/basecode.cpp:170-189 | In the table of a distinct alphabet every symbol is its own digit. |
| BaseNRoundTrip.StandsExactly | externals/cryptopp/basecode.cpp:174-187 | A character is read as a symbol if it is the symbol, or, where case is ignored, the other case of the same letter. |
| BaseNRoundTrip.DistinctIsInjective | externals/cryptopp/basecode.cpp:170-189 | Where case matters, an alphabet is distinct exactly when no symbol is repeated. |
| Grouping.GroupMore | externals/cryptopp/basecode.cpp:219-223 | Data that fits the last group is appended to it. |
| Grouping.GroupNext | externals/cryptopp/basecode.cpp:213-217 | Data behind a full group is preceded by a separator. |
| Grouping.Grouper.Put | externals/cryptopp/basecode.cpp:206-235 | For any chunking, a separator stands after every full group that more data follows, and the terminator at the end. |
| BaseNRoundTrip.RoundTrip | externals/cryptopp/basecode.cpp:40-235 | decode(group(encode(m))) = m for k from 1 to 7, every distinct alphabet, with or without padding, when padding, separator and terminator are outside the alphabet. |
| BaseNRoundTrip.RoundTripExactly | externals/cryptopp/basecode.cpp:40-235 | Every message comes back if and only if no character is read as two symbols, upper and lower case of a letter included where case is ignored; for every padding, separator and terminator outside the alphabet. |
| BaseNRoundTrip.RepeatedSymbolLoses | externals/cryptopp/basecode.cpp:170-189 | With equal symbols it is the encoding that loses: two messages have the same one, and no decoder gives back both. |
| Ber.DerLengthIsMinimal | externals/cryptopp/asn.cpp:20-39 | No BER encoding of a length is shorter than the DER one, and no other is as short. |
| Ber.LongLengthExactly | externals/cryptopp/asn.cpp:55-76 | A long length is accepted exactly when its octets are there and its value fits 64 bits, and then it is the exact value. |
| Ber.LengthRoundTrip | externals/cryptopp/asn.cpp:20-77 | Any 64-bit length is read back, and nothing behind it is touched. |
| Ber.ContentsAreMinimal | externals/cryptopp/asn.h:832-839 | The contents spell the value as a nonnegative two's complement number in the fewest octets (section 8.3.2 of X.690). |
| Ber.UnsignedExactly | externals/cryptopp/asn.h:857-900 | An encoding is accepted exactly when its contents are there and their unsigned value fits the type and the bounds; leading zeros and set top bits are accepted. |
| Ber.SignedExactly | externals/cryptopp/asn.h:885-899 | An accepted number is the two's complement value X.690 gives the contents if and only if their first bit is clear. |
| Ber.NegativeIsReadAsLarge | externals/cryptopp/asn.h:885-899 | The input that shows it: the INTEGER octet ff is -1 in X.690 and is accepted as 255. |
| Ber.UnsignedRoundTrip | externals/cryptopp/asn.h:820-900 | Encode and decode give the number back if and only if the tag is not BOOLEAN or the number is 0 or 0xff. |
| Ber.BooleanKeepsTruthOnly | externals/cryptopp/asn.h:824-828 | The input that shows it: 1 is encoded as the BOOLEAN octet ff, which is read as 255. |
| Ber.NumbersAsWritten | externals/cryptopp/asn.h:30-55 | Numbers with the universal tags 1, 2 and 10 as they come out, octet by octet. |
| Oids.ArcExactly | externals/cryptopp/asn.cpp:314-331 | An arc is accepted exactly when it fits 32 bits, and then it is the exact value. |
| Oids.ArcRoundTrip | externals/cryptopp/asn.cpp:307-331 | An encoded arc is read back exactly when it fits 32 bits, and nothing behind it is touched. |
| Oids.ArcIsMinimal | externals/cryptopp/asn.cpp:307-312 | No octets for an arc are fewer than the encoder's. |
| Oids.OidRoundTrip | externals/cryptopp/asn.cpp:333-372 | An identifier is read back if and only if its second arc is below 40 and 40*a0 + a1 <= 255. |
| Oids.JointArcIsLost | externals/cryptopp/asn.cpp:337 | The input that shows it: 2.999 is encoded as 1.15. |
| Oids.IdentifierAsWritten | externals/cryptopp/asn.cpp:333-343 | The identifier 1.2.840.113549 as it comes out, octet by octet. |
| BerTrees.ReencodesElement | externals/cryptopp/asn.cpp:271-286 | A well-formed element is consumed, no more and no less, and its normal form comes out. |
| BerTrees.AcceptedIsElement | externals/cryptopp/asn.cpp:271-286 | Whatever is consumed is a well-formed element, its contents taken as they are if its length is definite, and the output is its normal form. (Such contents are not looked into: 30 01 ff is accepted.) |
| BerTrees.ConstructedBit | externals/cryptopp/asn.h:94 | A tag is constructed exactly when bit 6 of the identifier octet is set (section 8.1.2.5 of X.690). |
| BerTrees.EmptyIndefinite | externals/cryptopp/asn.cpp:501-512 | An empty element of indefinite length is re-encoded for the tags with bit 6 set, with a length of 0, and refused for all others. |
| BerTrees.NormalizeKeepsValue | externals/cryptopp/asn.cpp:271-286 | The normal form has the same tree of tags and contents, whatever the lengths look like (section 8.1.3 of X.690). |
| BerTrees.ReencodingIsIdempotent | externals/cryptopp/asn.cpp:271-286 | The normal form is well-formed, and re-encoding it changes nothing. |
| BerTrees.DefiniteExactly | externals/cryptopp/asn.cpp:277-283 | The normal form has definite lengths only if and only if every indefinite element is reached through indefinite elements only; a constructed element that is not looked into counts on neither side. |
| BerTrees.HighTagIsCut | externals/cryptopp/asn.cpp:273-276 | Tags are of one octet: the element 1f 81 01, 01, ff of X.690, section 8.1.2.4, is taken for one with the length octets 81 01, and its last octet is left. |
| BerOpening.InnerIndefiniteSurvives | externals/cryptopp/asn.cpp:277-278 | The input that shows it: an indefinite SEQUENCE inside a definite one is copied, and the output, read to the bottom, is not all definite. |
| AsnSources.AvailableAfter | externals/cryptopp/asn.cpp:569-594 | Nested decoders read like a queue of what they make available. |
| AsnSources.LengthsAreKept | externals/cryptopp/asn.cpp:569-594 | Whatever is got through nested decoders, no decoder of definite length gives more than it declared, each is charged exactly what was got, and the queue loses just those octets. |
| Asn.Store.TransferTo | externals/cryptopp/asn.cpp:569-594 | The request is clamped and charged at every level. |
| Asn.Store.EndReached | externals/cryptopp/asn.cpp:527-536 | A definite length is used up, or the two end-of-contents octets are next. |
| Asn.Store.MessageEnd | externals/cryptopp/asn.cpp:553-567 | A definite length must be used up; the end-of-contents octets are removed. |
| Asn.OpenDecoder | externals/cryptopp/asn.cpp:501-512 | A decoder comes of exactly the right tag and a valid length, indefinite only if constructed, and only those octets are consumed. |
| Asn.BERLengthDecode | externals/cryptopp/asn.cpp:41-77 | The loop with its overflow guard reads what the specification reads. |
| Asn.DERLengthEncode | externals/cryptopp/asn.cpp:20-39 | The octets put out are those of the specification, and the count is theirs. |
| Asn.DERGeneralEncoder.MessageEnd | externals/cryptopp/asn.cpp:624-631 | Tag, length and contents go to the outer queue. |
| Asn.DERReencode | externals/cryptopp/asn.cpp:271-286 | The recursive method over nested decoders and encoders consumes and puts out exactly what the specification does, for well-formed and other input. |
| AsnScalars.DEREncodeUnsigned | externals/cryptopp/asn.h:820-845 | The buffer loops put out the specified octets, and the returned count is theirs. |
| AsnScalars.BERDecodeUnsigned | externals/cryptopp/asn.h:856-900 | The method accepts and returns what the specification does, and consumes just those octets. |
| AsnScalars.EncodeValue | externals/cryptopp/asn.cpp:307-312 | The loop over shifts puts out the base 128 octets. |
| AsnScalars.DecodeValue | externals/cryptopp/asn.cpp:314-331 | The loop with its overflow guard reads what the specification reads. |
| AsnScalars.OID.DEREncode | externals/cryptopp/asn.cpp:333-343 | Puts out the specified octets. |
| AsnScalars.OID.BERDecode | externals/cryptopp/asn.cpp:345-372 | Accepts and stores what the specification does, arcs taking exactly the declared length. |
| BerOpening.ElementOpens | externals/cryptopp/asn.cpp:501-512 | Every well-formed element, looked into to the bottom, is read back from its octets, and nothing behind it is touched. |
| BerOpening.OpenIsElement | externals/cryptopp/asn.cpp:501-512 | Whatever is read to the bottom is a well-formed element all of whose constructed parts are looked into. |
| BerOpening.OctetsDetermineElement | externals/cryptopp/asn.cpp:501-512 | Octets determine such an element, so that what is said of it is said of the octets. |
| BerOpening.DefiniteOutputExactly | externals/cryptopp/asn.cpp:271-286 | On octets: all lengths that come out are definite (section 10.1 of X.690) if and only if those that are read are definite or on chains of indefinite elements from the root. |
| AdvSimd.LaterOutput | externals/cryptopp/adv_simd.h:862-911 | What a batch computes for its later blocks is what is left to compute once the first is done, the counter byte included. |
| AdvSimd.BatchIsSerial | externals/cryptopp/adv_simd.h:862-923 | A batch of any number of blocks leaves memory as its blocks one at a time do, when no block stored is read later and the counter is apart. |
| AdvSimd.RegularIsClear | externals/cryptopp/adv_simd.h:842-858 | Regions that are the same or disjoint, in either direction, meet that condition. |
| AdvSimd.SafeIsClear | externals/cryptopp/adv_simd.h:842-858 | The prologue sets up such walks for every mix of flags with incremented pointers. |
| AdvSimd.SafeIsClearInBatches | externals/cryptopp/adv_simd.h:842-858 | Regions that are the same or disjoint, with incremented pointers, are clear for the batches of both templates. |
| AdvSimd.BatchedIsSerial | externals/cryptopp/adv_simd.h:862-923 | All batches of a loop, of any number of lanes, do what as many blocks one at a time do, when no batch stores what it reads later. |
| AdvSimd.Run6x2IsSerial | externals/cryptopp/adv_simd.h:634-819 | Batches of six, then of two, then single blocks do what blocks one at a time do, under that condition. |
| AdvSimd.ProcessBatch | externals/cryptopp/adv_simd.h:862-923 | The loads, xors, kernel and stores of a parallel round, for any number of lanes. |
| AdvSimd.ProcessOne | externals/cryptopp/adv_simd.h:926-947 | One round of the last loop. |
| AdvSimdBlocks.EachBlock | externals/cryptopp/adv_simd.h:829-950 | Block by block, in terms of the arguments, where nothing is stored that is read later: at the j-th output position stands E(in_j ^ x_j) with `BT_XorInput`, E(in_j) ^ x_j without, E(in_j) without an xor pointer; in_j is the j-th input block or the counter block plus j; in both directions. |
| AdvSimdBlocks.OneBlock | externals/cryptopp/adv_simd.h:926-947 | The same of a single block, for pointers that stay as well. |
| AdvSimdBlocks.NothingElse | externals/cryptopp/adv_simd.h:829-950 | No other byte changes, but the last of the counter, which goes up by the number of blocks modulo 256. |
| AdvSimdBlocks.ChainsXorBlocks | externals/cryptopp/ccm.cpp:92-97 | The call CCM makes, with pointers that stay and `BT_XorInput`: the data is chained onto the block as a CBC-MAC chains it, and no other byte changes. |
| AdvSimd.AdvancedProcessBlocks128_4x1_SSE | externals/cryptopp/adv_simd.h:829-950 | For every mix of flags: without `BT_AllowParallel` memory is that of one block at a time, counter byte included; with it, that of batches of four, loaded before they are stored, and then single blocks, which is the same as long as no batch stores what it reads later. The result is the length mod 16. |
| AdvSimd.AdvancedProcessBlocks128_6x2_SSE | externals/cryptopp/adv_simd.h:634-819 | The same with batches of six, then of two, then one block beside a zero block. |
| AdvSimdExactly.ChainingIsNotParallel | externals/cryptopp/adv_simd.h:842-844 | Blocks that stay and meet their output go wrong in any batch of two or more: a cipher and a memory are given. |
| AdvSimdExactly.StayingExactly | externals/cryptopp/adv_simd.h:842-844 | Pointers that stay may be worked on in parallel for all ciphers if and only if there is one round only or the two blocks do not meet. |
| AdvSimdExactly.MovingExactly | externals/cryptopp/adv_simd.h:842-858 | Without xor blocks, moving pointers may be worked on in parallel for all ciphers if and only if no block is stored where a later one is read. |
| AdvSimdTemplates.Moving4x1Exactly | externals/cryptopp/adv_simd.h:829-950 | The whole template of four lanes, without xor blocks and with pointers that move: right for all ciphers if and only if there are fewer than four blocks, or what is read does not lie behind what is stored, in the direction of the steps, by less than 64 bytes. |
| AdvSimdTemplates.Moving6x2Exactly | externals/cryptopp/adv_simd.h:634-819 | The same for six and two lanes: by less than 96 bytes, or than 32 if there are fewer than six blocks. |
| AdvSimdTemplates.Staying4x1Exactly | externals/cryptopp/adv_simd.h:829-950 | The whole template of four lanes with pointers that stay, for every length below 2^64: right for all ciphers if and only if there are fewer than four blocks or the block read does not meet the block stored. |
| AdvSimdTemplates.Staying6x2Exactly | externals/cryptopp/adv_simd.h:634-819 | The same for six and two lanes, if there are fewer than two blocks. |
| AdvSimdTemplates.SetupStaysOrMoves | externals/cryptopp/adv_simd.h:842-858 | Which of the two the flags set up when there is no counter and no xor pointer, and what the conditions are in terms of the arguments. |
| Fermat.LittleTheorem | externals/cryptopp/blumshub.cpp:59 | a^(p-1) = 1 modulo a prime p that does not divide a. |
| BlumShub.SquaredIsPower | externals/cryptopp/blumshub.cpp:17-26 | Squaring k times is raising to the power 2^k. |
| BlumShub.SeekExactly | externals/cryptopp/blumshub.cpp:59-60 | For distinct primes the exponent may be reduced mod (p-1)(q-1) if and only if neither prime divides the seed, or the reduced exponent is not zero. |
| BlumShub.BlumPrimesAlwaysSeek | externals/cryptopp/blumshub.h:56 | For distinct primes that are 3 modulo 4 the exponent is never zero, so every byte can be sought from every seed. |
| BlumShubGenerator.NextIsAt | externals/cryptopp/blumshub.cpp:17-26 | Squaring lazily with bitsLeft = 0 cannot be observed: the next bit is the one at the eager position. |
| BlumShubGenerator.MaxBits | externals/cryptopp/blumshub.cpp:12 | As many bits of each state are put out as the precision of the precision of n, less one: 2^bits is at most the precision, and the next power of two is above it. |
| BlumShubGenerator.SoughtExactly | externals/cryptopp/blumshub.cpp:55-62 | The state and bit count `Seek` sets are those of the byte exactly under that condition. |
| BlumShubGenerator.SeekIsSkip | externals/cryptopp/blumshub.cpp:55-62 | `Seek(i)` and then reading gives a fresh generator's stream with i bytes skipped, for every byte that can be sought. |
| BlumShubGenerator.FifteenCannotSeek | externals/cryptopp/blumshub.cpp:55-62 | The inputs that show the condition matters: with the primes 3 and 5 and the seed 3 every byte but the first comes out wrong after `Seek`, from its first bit on. |
| BlumShubStream.SeekIsSkipExactly | externals/cryptopp/blumshub.cpp:55-62 | On the stream, for all distinct primes, seeds and indexes: `Seek(i)` and reading, however much, is skipping i bytes if and only if the reduced exponent is not zero, or x0^((p-1)(q-1)) mod n ends in the low bits of 1. |
| BlumShubStream.StationaryIsOne | externals/cryptopp/blumshub.cpp:59-60 | That power is 1 exactly when neither prime divides the seed. |
| BlumShubStream.ZeroExponentState | externals/cryptopp/blumshub.cpp:59-60 | Where the exponent is reduced to zero, that power is the true state, whatever the index. |
| BlumShubStream.SixReadsRight | externals/cryptopp/blumshub.cpp:55-62 | A wrong state need not be seen: with the primes 2 and 3 and the seed 3 `Seek` sets a wrong state for every byte, and every byte read is right. |
| BlumShubGenerator.BlumBlumShubGenerator.GenerateByte | externals/cryptopp/blumshub.cpp:28-34 | Eight bits, the first most significant. |
| BlumShubGenerator.BlumBlumShubGenerator.GenerateBlock | externals/cryptopp/blumshub.cpp:36-40 | The next bytes of the stream, the state moved on by their bits. |
| BlumShubGenerator.BlumBlumShubGenerator.ProcessData | externals/cryptopp/blumshub.cpp:42-46 | The input xored with the stream. |
| BlumShubGenerator.BlumBlumShubGenerator.Seek | externals/cryptopp/blumshub.cpp:55-62 | The fields are those of byte `index` exactly when the byte can be sought. |

## Left out

- AuthenticatedCipher.AuthenticatedCipherBase.SetKey: the checks on key length and digest size are not modelled; the digest size is a valid one from the start.
- AuthenticatedCipher.AuthenticatedCipherBase.ProcessData: input and output are separate values, so in-place operation is not captured.
- AuthenticatedCipher.AuthenticatedCipherBase.TruncatedFinal: the digest limit is the mode's `DigestSize`; other policies of `ThrowIfInvalidTruncatedSize` are not modelled.
- Asn.DERReencode: after an error nothing is said of what the destructors of decoders and encoders have consumed and put out; recursion depth is not limited.
- Asn.Store.MessageEnd: the `m_finished` flag is kept, but the call made by the destructor of an unfinished decoder is not modelled.
- AdvSimdTemplates.Moving4x1Exactly: when parallel work with a counter, or with xor blocks that move, is safe is given by sufficient conditions only, `AdvSimd.ClearFor4x1`, `AdvSimd.ClearFor6x2` and `AdvSimd.Safe`.
- BerTrees.ReencodesElement: tags are of one octet, as in the code; identifiers of several octets (section 8.1.2.4 of X.690) are no elements of the model.
- AdvSimd.ProcessBatch: the unrolled lanes are written as loops over the lanes, and the kernels are any functions that act on each block alone.
- GeneralCascade.MakeHeap: the standard library's heap functions are not part of the repository; ordinary binary heaps with the promised contract stand in for them.
- Euclid.MultiplicativeInverse: `QuotientRing` over the integers only, not over polynomials; returned references into the ring are values.
- BaseN.BaseNEncoder.Put: a filter's output is appended to a string; blocking output and its resumption are not modelled. The same holds of the decoder and the grouper.
- BaseNDecoding.BaseNDecoder.Put: for a table with entries below 256 that are no digits of k bits nothing is said of what comes out, since stray bits are ored into the buffer; the same code runs, within the buffer.
- Blake2.Blake2.Restart: the overload with a caller's counter and parameter block is not modelled; the counter starts at 0 and the block is the object's own.
- Blake2.Blake2.TruncatedFinal: the compression function and the parameter block are taken as given, so salt, personalization and the block's layout are not modelled.
- Cmac.CmacBase.Update: the register and the two subkeys are three strings, where the source has one array of three blocks, so aliasing between them is not captured. Blake2's buffer and the buffer of authenticated modes are strings too.
- BlumShubGenerator.BlumBlumShubGenerator.Seek: `ModularArithmetic` and `a_exp_b_mod_c` are mathematical powers and remainders. The modulus is at least 2, since for 1 no bit is ever put out.
- Aead.ChaChaPolyTag: ChaCha20 and Poly1305 are any key stream and any function of key and message. XChaCha20/Poly1305 runs the same code with a longer IV.
- ByteQueue's blocks, X.509 and PKCS #8 objects, EncodedObjectFilter, strings and dates in ASN.1, Altivec and NEON templates, SIMD kernels, block cipher rounds and the many algorithms built on these parts: not modelled.
- `AbstractRing`'s exponentiation functions call the same algorithms on the multiplicative group.
