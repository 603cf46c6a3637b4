# IP Node: verified models of the IL2P codec, the AX.25 data link, the FFT and KISS framing

This project models four parts of the IP Node modem and proves what they are for.

* **The IL2P codec** (`src/il2p_*.c`, `src/ax25_pad.c`). An AX.25 frame is packed into a 13-byte
  bit-sliced header, scrambled by a nine-bit shift register, cut into near-equal payload blocks, and
  protected by shortened Reed-Solomon codes over GF(256). The decoder is syndromes,
  Berlekamp-Massey, Chien search and Forney. It is proved to correct every pattern of at most half
  as many wrong symbols as parity symbols, for every number of parity symbols; through all layers,
  a frame comes back with one wrong byte in its coded header and eight in each payload block.
* **The AX.25 data link state machine** (`src/ax25_link.c`, after sections 4.2 and 6.4 of AX.25
  v2.2): five states, modulo-8 counters, a window of unacknowledged frames, a receive buffer, two
  timers, a retry counter. Its invariants are proved to hold over every run of received frames,
  timer expiries, channel changes and new data, and what a run can and cannot do is proved from a
  relation that every step of the machine is shown to keep.
* **The mixed-radix FFT** (`src/fft.c`), over exact complex numbers and an exact table of roots of
  unity: every output is its coefficient of the discrete Fourier transform.
* **KISS framing** (`src/kiss_pt.c`) as a stream codec.

## How the files fit together

| files | subject |
|---|---|
| `gf256`, `polynomials`, `power_sums`, `error_values`, `berlekamp_massey` | the field with 256 elements, polynomials over it, Massey's bound, Forney's formula, the Berlekamp-Massey invariant |
| `rs_tables`, `rs_encode`, `rs_errors`, `rs_soundness`, `rs_locator`, `rs_search`, `rs_decode` | Reed-Solomon tables, encoder and decoder as loops over arrays |
| `rs_outcome`, `rs_cases` | the decoder as a function of the received block: when it corrects to a codeword, gives up or never ends, with examples of each |
| `bits`, `scramble` | bytes as bits, the scrambler |
| `buffers`, `payload`, `ax25_pad`, `header_bits`, `header`, `codec` | payload blocks, AX.25 frames, the IL2P header, whole frames |
| `link_timers`, `link_sender`, `link_receiver`, `link_spec`, `link`, `link_runs` | the data link: its parts, its actions and events, the state machine, and whole runs |
| `complex`, `dft`, `fft_five`, `fft` | the transform |
| `kiss` | KISS |

Each source loop that changes things is a `method` over an `array` or the fields of a `class`, proved
against a specification function or predicate; the properties are lemmas about those. A parameter
marked `ghost` names the unknown that a result is about, such as the codeword that was sent.
Lemmas whose names end in `Figures` state a specification function once more in bytes, bits and
numbers, for whoever reads the wire and not the model; those that begin with `Known` are examples in
full.

## What the proofs found

* **Chien search.** The index of the search at `src/il2p_init.c:275` has eight bits, so its bound of
  255 never ends the loop; only the break at line 299 does, and the test at line 303 never fails.
  The search ends exactly when the locator has a root and is not constant (`RsSearch.ChienSearch`).
  A locator with too few roots meets them again, and a place is stored twice. The results `NoEnd`
  and `Loops` stand for a search that never ends.
* **Beyond half the parity.** The degree of the locator is not compared with the length that
  Berlekamp-Massey found. So a word can be reported as corrected without being a codeword.
  `RsDecode.DecodeRsChar` computes `RsOutcome.Decoding`, a function of the received block, for every
  block, and `RsOutcome.DecodingExact` states by the syndromes alone when it never ends, when it
  gives up and when it corrects to a codeword: the locator must have as many roots as its degree,
  and its degree must be the length found. `RsCases.TwoParitySymbols` is the closed form for the
  header, where it never ends exactly when the first syndrome is not zero and the second is.
  `RsCases.SomeNeverEnds` and `RsCases.SomeCorrectedWrongly` give, for every number of parity
  symbols from two and from four on, a block on which it never ends and one that it reports as
  corrected though it is no codeword; `RsCases.HangingBlock` and `RsCases.WronglyCorrectedBlock`
  are two in figures, and `Codec.HangingHeader` a received header.
* **Decoding that never ends.** `Codec.WhenFrameLoops` states for every received buffer when
  `il2p_decode_frame` does not return: by the two syndromes of the header, or for a payload block
  behind a header that can be read.
* **Evaluating omega.** The loop at `src/il2p_init.c:345` counts an unsigned index down while it is
  not negative, which never fails. The model runs it down to zero, as intended.
* **Command and response.** `src/ax25_pad.c:334-335` reads bytes 0 and 1, which are callsign
  characters, for the C bits. Every frame built here therefore reads as having both C bits set
  (`Ax25Pad.GetFrameType`), the IL2P C bit is always one, and frames come back as commands.
  `Codec.ExactRoundTrip` gives the exact condition for a frame to come back byte for byte, and
  `Codec.ResponseRoundTrip` what differs otherwise. The C bit of a header that another station sends
  is read: `Header.KnownResponse` is a response. For the data link it follows from
  `Ax25Link.Link.RrRnrFrame` that such an RR or RNR never leads from timer recovery back to
  connected, because only a response does; `LinkRuns.StaysInRecovery` states it over runs.
* **Protocol identifiers.** Bits 4 and 5 are looked at before the known values
  (`src/il2p_header.c:99-103`), so many identifiers are sent as AX.25 layer 3. Exactly ten survive
  (`Header.PidRoundTrip`).
* **SREJ without a timer.** An SREJ in timer recovery that names only frames no longer at hand stops
  T1 and does not start it again. `Ax25Link.Link.SrejFrame` states when exactly this happens,
  `LinkRuns.StarvesOnlyAtVs` that an SREJ for an outstanding frame never does it,
  `LinkRuns.StaysWatched` and `LinkRuns.LostAtStarving` that over whole runs nothing else takes the
  timers from a link, `Ax25Link.Link.FullWindowStarves` that a full window always allows it, and
  `Ax25Link.StarvedRun` is a run that ends so.
* **KISS gaps.** After an empty message the receiver is already collecting, so bytes before the next
  delimiter are taken for a message and the next message is lost. `Kiss.GapAfterEmpty` is an example,
  `Kiss.StreamDelivers` the exact condition for a whole stream.
* **Radix five.** The signs at `src/fft.c:355` and `src/fft.c:361` are not those of a butterfly, so a
  stage of radix five is wrong for most inputs. `FftFive.Bfly5Exact` and `Fft.FiveRight` state for
  which it is right, and `Fft.Fft` for which inputs the whole transform is, for every length with one
  factor of five: stages of radix 2, 3 and 4 lose nothing (`Fft.OnlyParts`), so every sub-transform
  with that factor has to come out right.
* **Headers beyond repair.** `src/il2p_codec.c:62-64` does not look at the result of the header's
  decoder, so a header that could not be corrected is still read
  (`Codec.Il2pDecodeHeaderPayload`).
* **Stale slots.** A reset empties only the filled slots that end with slot 7
  (`LinkSender.Sender.Reset`), so one with frames outstanding can leave them in their slots. What
  holds in every run is that the frames from V(A) up to V(S) are in their slots and the slot below
  V(A) is empty; the walk of SET_VA (`src/ax25_link.c:128-139`) ends because of the second part. An
  SREJ that names a stale slot, or a REJ for V(S) whose slot is filled, sends a frame that is not
  outstanding. `LinkSpec.FrameExhumes` is the condition, on the link as it is before the frame;
  every step of the link sends only outstanding frames if and only if it does not hold, and
  `LinkRuns.GenuineExactly` states that over runs. `Ax25Link.StaleRun` is a run that ends with a
  frame of an old connection: a frame is sent, a SABM resets the link, and an SREJ names its number.
* **Never busy.** The flag for a busy receiver is only ever set to false (`src/ax25_link.c:1848`), so
  the branches that send RNR are never taken: in no run from a new link is an RNR sent
  (`LinkRuns.NeverRnr`), and every poll that is answered is answered by RR
  (`LinkRuns.PollsAnswered`).
* **Releasing.** The state of awaiting release is never entered (`Ax25Link.Link.Valid`), so its
  branches do nothing in the model.

## Model

| member | source | states |
|---|---|---|
| Gf256.XorAssoc | src/il2p_init.c:475-476 | bitwise exclusive or, defined digit by digit, is associative |
| Gf256.DoubleLinear | src/il2p_init.c:473-478 | one step of the table register is linear over field addition |
| Gf256.AlphaOne | src/il2p_init.c:466-491 | a power of the register of polynomial 0x11d is one exactly when its exponent is a multiple of 255, so the primitivity test passes |
| Gf256.AlphaInjective | src/il2p_init.c:463-479 | the 255 powers are distinct |
| Gf256.LogExists | src/il2p_init.c:463-479 | every nonzero byte is a power of the generator |
| Gf256.LogOfAlpha | src/il2p_init.c:463-479 | the logarithm undoes the power |
| Gf256.MulComm | src/il2p_init.c:142 | field multiplication commutes |
| Gf256.MulAssoc | src/il2p_init.c:142 | field multiplication is associative |
| Gf256.MulAddRight | src/il2p_init.c:142 | multiplication distributes over addition |
| Gf256.MulIsZero | src/il2p_init.c:83-101 | a product is zero exactly when a factor is |
| Gf256.PowAlpha | src/il2p_init.c:349 | a power of a power of the generator is the power with the multiplied exponent |
| Polynomials.Factor | src/il2p_init.c:271-301 | dividing by a linear factor: the value at any point is the remainder plus the factor times the quotient |
| Polynomials.TooManyRoots | src/il2p_init.c:303-311 | a polynomial with as many distinct roots as coefficients is zero |
| Polynomials.EvalTimesRoot | src/il2p_init.c:529-541 | multiplying the coefficients by a linear factor multiplies every value by it |
| Polynomials.RootPolyRoots | src/il2p_init.c:520-541 | the product of linear factors vanishes exactly at the given points |
| Polynomials.DerivIsQuot | src/il2p_init.c:356-361 | the formal derivative at a root is the value of the quotient there |
| PowerSums.Independent | src/il2p_init.c:126-145 | power sums of distinct points with as many zero terms as points have zero weights |
| PowerSums.LocatorGenerates | src/il2p_init.c:189-256 | the polynomial whose roots are the inverse points generates every power sum from its degree on |
| PowerSums.GeneratorRoots | src/il2p_init.c:258-311 | a polynomial of small degree that generates the power sums vanishes at every inverse point |
| PowerSums.MasseyBound | src/il2p_init.c:235-237 | when a generator of length el fails at place r, every generator of one place more has length at least r + 1 - el |
| ErrorValues.GeometricSeries | src/il2p_init.c:313-333 | partial sums of a geometric series times the polynomial are coefficients of its quotient |
| ErrorValues.EvaluatorValue | src/il2p_init.c:313-351 | the evaluator at an inverse point is the error value times the derivative there, up to the point |
| ErrorValues.DerivNonzero | src/il2p_init.c:356-367 | at a root of the locator the derivative is not zero, so the division never fails |
| ErrorValues.Forney | src/il2p_init.c:337-373 | evaluator over derivative at an inverse point is the error value |
| BerlekampMassey.ConvShift | src/il2p_init.c:218-220 | shifting the helper moves its convolution by one place |
| BerlekampMassey.Initially | src/il2p_init.c:165-199 | the start satisfies the invariant |
| BerlekampMassey.ShiftKeeps | src/il2p_init.c:218-220 | the shift never drops a nonzero coefficient of the helper |
| BerlekampMassey.StepZero | src/il2p_init.c:216-221 | a zero discrepancy keeps the invariant one step further |
| BerlekampMassey.StepSameLength | src/il2p_init.c:224-233 | a discrepancy the length can absorb: the corrected locator generates one more syndrome |
| BerlekampMassey.StepLonger | src/il2p_init.c:235-246 | a discrepancy that makes the length grow to r - el, with the divided locator as the new helper |
| BerlekampMassey.MasseyInvariant | src/il2p_init.c:198-256 | after every step of the algorithm, as a function of the syndromes, the invariant holds, and no generator of all syndromes is shorter than the length reached |
| BerlekampMassey.ShortestFound | src/il2p_init.c:198-256 | so it ends with a generator of the syndromes, and no generator is shorter |
| RsTables.ModNN | src/il2p.h:94-103 | the folding loop computes the remainder modulo 255 of any number |
| RsTables.TableMul | src/il2p_init.c:142 | adding logarithms through the tables is field multiplication |
| RsTables.GenRoots | src/il2p_init.c:520-541 | the generator polynomial vanishes at its first n powers |
| RsTables.GenMonic | src/il2p_init.c:520-541 | its degree is n and its leading coefficient one |
| RsTables.GenNonzero | src/il2p_init.c:81-101 | none of its coefficients is zero, which the encoder relies on without a test |
| RsTables.InitTables | src/il2p_init.c:462-491 | both tables are filled with powers and logarithms and the primitivity test passes |
| RsTables.BuildGenerator | src/il2p_init.c:507-548 | the array holds the generator polynomial in index form |
| RsTables.InitRsChar | src/il2p_init.c:418-551 | the control block holds valid tables and generator for any number of parity symbols |
| RsEncode.RegisterPolynomial | src/il2p_init.c:79-102 | one step of the register multiplies by the indeterminate and reduces by the generator, at every point |
| RsEncode.RemainderStep | src/il2p_init.c:79-102 | after each byte the register is the remainder of the prefix times z to the number of parity symbols |
| RsEncode.RemainderCompletes | src/il2p_init.c:75-103 | data followed by its remainder vanishes at every root of the generator |
| RsEncode.ParityUnique | src/il2p_init.c:75-103 | no other parity symbols complete the data to a codeword |
| RsEncode.EncodeStep | src/il2p_init.c:81-101 | one round of the encoder in place is one step of the register |
| RsEncode.EncodeRsChar | src/il2p_init.c:75-103 | the parity computed in place is the register after all data, and the data is left alone |
| RsEncode.EncodedIsCodeword | src/il2p_init.c:105-112 | zero padding, data and parity of a shortened block form a codeword |
| RsEncode.Il2pInit | src/il2p_init.c:44-56 | one valid control block each for 2, 4, 6, 8 and 16 parity symbols |
| RsEncode.FindRs | src/il2p_init.c:60-73 | the control block asked for, or the one with two parity symbols when there is none |
| RsEncode.Il2pEncodeRs | src/il2p_init.c:105-112 | the parity of a short block, and for a number of parity symbols that no codec has the two parity symbols of the block with as many zeros behind the data |
| RsErrors.HornerDifference | src/il2p_init.c:126-145 | the values of two words differ by the sum over the places where they differ |
| RsErrors.SyndromesArePowerSums | src/il2p_init.c:126-145 | the syndromes of a damaged codeword are the power sums of its errors |
| RsErrors.NoSyndromeNoError | src/il2p_init.c:156-163 | zero syndromes mean no error, for a word within reach |
| RsErrors.TrueLocator | src/il2p_init.c:189-256 | there is a locator as long as the number of errors that generates all syndromes |
| RsErrors.FoundLocator | src/il2p_init.c:258-269 | a shortest generator of the syndromes is the error locator |
| RsErrors.LocatorRoots | src/il2p_init.c:275-301 | the locator vanishes at a power exactly when the place it stands for is wrong |
| RsErrors.RootsAreErrors | src/il2p_init.c:291-294 | the roots found up to any point are the wrong places up to there, in order |
| RsErrors.ChangesCount | src/il2p_init.c:337-374 | a word changed only at listed places differs in at most as many, and in as many only when no place is listed twice |
| RsSoundness.RootsGenerate | src/il2p_init.c:313-333 | a polynomial that vanishes at the inverse of every point generates every power sum from its degree on |
| RsSoundness.ConvInjective | src/il2p_init.c:313-333 | the evaluator of a locator with constant term one determines the syndromes |
| RsSoundness.ValuesGiveSyndromes | src/il2p_init.c:337-374 | a generator of full degree with all its roots and the computed values at them accounts for every syndrome, whatever the word |
| RsSoundness.PatchedSyndrome | src/il2p_init.c:370-373 | adding values at places adds their power sums to the syndromes |
| RsSoundness.PatchedIsCodeword | src/il2p_init.c:337-374 | a word whose syndromes are the power sums of the values added to it becomes a codeword |
| RsLocator.TableProduct | src/il2p_init.c:208-211 | a product of two index forms with the test for zero |
| RsLocator.Discrepancy | src/il2p_init.c:203-212 | the loop computes the convolution of the locator with the syndromes |
| RsLocator.ShiftUp | src/il2p_init.c:218-220 | moving the helper in place multiplies it by the indeterminate |
| RsLocator.Correct | src/il2p_init.c:224-233 | the new locator is the old one plus the discrepancy times the shifted helper |
| RsLocator.Normalize | src/il2p_init.c:242-245 | the helper becomes the locator divided by the discrepancy |
| RsLocator.Step | src/il2p_init.c:201-256 | a round of the loop, in place, is a step of the algorithm |
| RsLocator.FindLocator | src/il2p_init.c:165-256 | for any syndromes and any number of parity symbols the loops compute what the algorithm does as a function; the result generates all syndromes from its length on, and no generator is shorter |
| RsSearch.ToIndexForm | src/il2p_init.c:258-269 | the conversion in place finds the degree |
| RsSearch.ChienStep | src/il2p_init.c:277-286 | a round evaluates the locator at the next power |
| RsSearch.ChienSearch | src/il2p_init.c:271-301 | the search with its eight-bit index, lap after lap: it ends exactly when the locator is not constant and has a root, and has then stored the roots first met, as many as the degree, folded as the index folds; otherwise no step ever ends it |
| RsSearch.NeverRoot | src/il2p_init.c:275-301 | a locator without a root in the first lap has none in any |
| RsSearch.LapsOfRoots | src/il2p_init.c:275-301 | a locator with a root meets one in every lap |
| RsSearch.FirstLap | src/il2p_init.c:275-301 | a place is stored twice exactly when the first lap has too few roots; otherwise the places are those of its roots, in order |
| RsDecode.Syndromes | src/il2p_init.c:126-145 | the loop evaluates the word at every root of the generator |
| RsDecode.SyndromeIndex | src/il2p_init.c:147-154 | index forms of the syndromes, and whether one is not zero |
| RsDecode.Evaluator | src/il2p_init.c:313-335 | the loop computes locator times syndromes up to the number of parity symbols, and its degree |
| RsDecode.EvaluateOmega | src/il2p_init.c:343-351 | the value of the evaluator at a root |
| RsDecode.EvaluateDerivative | src/il2p_init.c:354-361 | the sum over odd coefficients is the formal derivative |
| RsDecode.ErrorValue | src/il2p_init.c:341-373 | the value computed for a root, and that its division fails only where the derivative is zero |
| RsDecode.Apply | src/il2p_init.c:337-374 | exactly the corrections of the specification, the last place first, stopping where the derivative vanishes |
| RsOutcome.AppliedCorrects | src/il2p_init.c:337-374 | when the locator is that of the errors against a codeword, the result is that codeword |
| RsOutcome.NearestDistance | src/il2p_init.c:165-256 | no codeword is nearer to a word than the length of the shortest generator of its syndromes |
| RsOutcome.CorrectionsSound | src/il2p_init.c:341-374 | the corrections are all made exactly when the derivative vanishes at no root met |
| RsOutcome.CorrectionsThere | src/il2p_init.c:370-373 | when no place is listed twice, each place is changed by the value of its root |
| RsOutcome.CorrectionsElsewhere | src/il2p_init.c:370-373 | no other place is changed |
| RsOutcome.RootsAtMost | src/il2p_init.c:271-311 | a locator has no more roots than its degree |
| RsOutcome.DecodingWithin | src/il2p_init.c:114-384 | a word within half the parity of a codeword is decoded to that codeword, with the number and places of the errors |
| RsOutcome.DecodingAnswer | src/il2p_init.c:114-384 | what is reported as corrected differs from the word at the places reported only, is a codeword exactly when no place is reported twice and their number is the length of the shortest generator, and then is at that distance; a codeword, and nothing else, is reported as unchanged |
| RsOutcome.DecodingExact | src/il2p_init.c:114-384 | by the syndromes alone: never ending means that the locator is constant or has no root; giving up, that its derivative vanishes at a root met; correcting to a codeword, that it has as many roots as its degree, which is the length found |
| RsCases.TwoParitySymbols | src/il2p_init.c:114-384 | with two parity symbols: nothing when both syndromes are zero, one correction to a codeword when neither is, a failure when only the first is, and no end when only the second is |
| RsCases.NeverEnds | src/il2p_init.c:275-301 | for any number of parity symbols, no end when the first syndrome alone is not zero |
| RsCases.CorrectedWrongly | src/il2p_init.c:303-374 | for at least four, when all syndromes but the first are equal and not zero, one symbol is reported as corrected and the result is no codeword |
| RsCases.SomeNeverEnds | src/il2p_init.c:275-301 | for every number of parity symbols from two on there is a block without an end |
| RsCases.SomeCorrectedWrongly | src/il2p_init.c:303-374 | for every number from four on there is a block corrected to something else than a codeword |
| RsCases.HangingBlock | src/il2p_init.c:275-301 | a block of zeros that ends in 1, 2 has no end with two parity symbols |
| RsCases.WronglyCorrectedBlock | src/il2p_init.c:303-374 | a block of zeros that ends in 1, 14, 56, 55 is corrected to something else than a codeword with four |
| RsCases.KnownParity | src/il2p_init.c:75-104 | the byte 1 with two parity symbols is sent as 1, 3, 2 |
| RsDecode.DecodeRsChar | src/il2p_init.c:114-384 | for every word the outcome and the block are those of a function of the word; a word within half the parity of any codeword becomes that codeword, with the number and places of the errors; when it never ends, gives up, or corrects to a codeword is stated by the syndromes alone, and a codeword reported is a nearest one |
| RsDecode.EncodedWithinReach | src/il2p_init.c:386-416 | an undamaged block is decoded to the same data with no errors |
| RsDecode.ClearingWithin | src/il2p_init.c:386-416 | a shortened block within reach is cleared to what was encoded, behind its padding |
| RsDecode.ClearingReports | src/il2p_init.c:386-416 | for every block: when the search never ends, exactly; and the data differ from what was received at no more places than are reported |
| RsDecode.Il2pDecodeRs | src/il2p_init.c:386-416 | for every block the verdict and the data are those of a function of the block; a shortened block gives back its data and the number of changed symbols, for at most half as many changes as the codec has parity symbols; the search never ends exactly when the padded block has such syndromes; the result is -1 or at least the number of data bytes changed |
| RsDecode.LocatesPadding | src/il2p_init.c:402-413 | whether a correction landed in the zero padding |
| Bits.BitsOfBytes | src/il2p_scramble.c:116-127 | bits packed into bytes and taken out again are the same bits |
| Bits.PutBit | src/il2p_scramble.c:71-85 | writing through a moving mask appends one bit and leaves the rest of the buffer |
| Scramble.DescrambleScrambled | src/il2p_scramble.c:28-50 | the receive recurrence undoes the transmit recurrence from any common history |
| Scramble.ScrambleDescrambled | src/il2p_scramble.c:28-50 | and the transmit recurrence undoes the receive recurrence |
| Scramble.OneBitError | src/il2p_scramble.c:43-50 | one flipped received bit changes the descrambled bits at offsets 0, 4 and 9 only |
| Scramble.TxStep | src/il2p_scramble.c:30-37 | the transmit register with its delay of five holds the history of the recurrence and the bits under way |
| Scramble.RxStep | src/il2p_scramble.c:43-50 | the receive register holds the last nine bits of the recurrence |
| Scramble.WarmUp | src/il2p_scramble.c:28-50 | five zero bits fed into the transmit start state leave the history that the receive start state stands for |
| Scramble.RoundTrip | src/il2p_scramble.c:52-128 | descrambling a scrambled block gives the block back |
| Scramble.RoundTripBack | src/il2p_scramble.c:52-128 | scrambling a descrambled block gives the block back |
| Scramble.Il2pScrambleBlock | src/il2p_scramble.c:52-108 | the mask loops with skipped and flushed bits write the scrambled block |
| Scramble.Il2pDescrambleBlock | src/il2p_scramble.c:110-128 | the mask loops write the descrambled block |
| Scramble.ScrambledBit | src/il2p_scramble.c:28-37 | every bit of a scrambled block, numbered from the top bit of its first byte, is the data bit exclusive-or the bits sent four and nine places before, which count as ones before the block |
| Scramble.DescrambledBit | src/il2p_scramble.c:39-50 | every bit of a descrambled block is the received bit exclusive-or those received four and nine places before |
| Scramble.KnownBlock | src/il2p_scramble.c:28-108 | two zero bytes are sent as 0f 70 |
| Payload.PayloadCompute | src/il2p_payload.c:22-47 | large and small blocks cover the payload exactly, each fits with its parity, and the encoded length is the size plus 16 for each block, at most 1103 |
| Payload.Conservation | src/il2p_payload.c:31-46 | the arithmetic of the partition, for one to five blocks |
| Payload.PartitionUnique | src/il2p_payload.c:22-47 | the partition is determined by the size, so both ends agree |
| Payload.EncodeBlock | src/il2p_payload.c:70-88 | one block is scrambled and followed by its parity, and what was written before stays |
| Payload.Il2pEncodePayload | src/il2p_payload.c:49-118 | the encoded length and every block in place, or the error code |
| Payload.DecodeBlock | src/il2p_payload.c:140-160 | for every block, what the decoder makes of it, descrambled; one with at most eight wrong symbols gives back its data |
| Payload.AheadNext | src/il2p_payload.c:143-160 | unpacking from a block on is unpacking that block and then from the next one on |
| Payload.Il2pDecodePayload | src/il2p_payload.c:120-195 | for every received payload the result, the count and the bytes are those of its blocks, one after the other: no end when one of them has none, and the code -2 when one cannot be corrected; a payload with at most eight wrong symbols in each block comes back, with the number of corrected symbols |
| Payload.CleanPayload | src/il2p_payload.c:49-195 | an undisturbed encoded payload is decodable with no symbol errors |
| Payload.EncodedBlock | src/il2p_payload.c:66-115 | block i stands behind the blocks before it, its part of the payload scrambled, with sixteen symbols that make it a codeword behind zeros |
| Ax25Pad.WritesUnique | src/ax25_pad.c:90-171 | a text writes at most one callsign and station number |
| Ax25Pad.KnownTexts | src/ax25_pad.c:90-171 | texts that write an address and texts that write none |
| Ax25Pad.AddressCharacters | src/ax25_pad.c:90-171 | which characters callsigns are made of, and the number that one or two digits write |
| Ax25Pad.ParseAddr | src/ax25_pad.c:90-171 | exactly the texts that write an address are accepted, and read as that address |
| Ax25Pad.Packet.SetAddrs | src/ax25_pad.c:713-759 | both address fields, also byte by byte: of the fourteen only the last byte is odd, the top bit of byte 6 is set exactly for commands and that of byte 13 for responses; or a failure exactly when a text writes no address |
| Ax25Pad.UFrame | src/ax25_pad.c:446-556 | the bytes of an unnumbered frame, also in figures: addresses, control byte, protocol identifier, information; or null exactly for a bad type or address |
| Ax25Pad.SFrame | src/ax25_pad.c:558-645 | the bytes of a supervisory frame, likewise |
| Ax25Pad.IFrame | src/ax25_pad.c:647-711 | the bytes of an information frame, likewise |
| Ax25Pad.AddressFigures | src/ax25_pad.c:713-759 | the fourteen address bytes in figures: characters doubled and padded with 64, station numbers under two set bits, C bits, and the last-address bit |
| Ax25Pad.FrameFigures | src/ax25_pad.c:446-759 | every byte of every built frame in figures |
| Ax25Pad.KnownUFrame | src/ax25_pad.c:446-556 | a SABM from B to A, in full |
| Ax25Pad.KnownIFrame | src/ax25_pad.c:647-711 | an I frame that is a response, in full |
| Ax25Pad.ControlDecodes | src/ax25_pad.c:358-410 | type, P/F, N(S) and N(R) can be read back from every control byte that is built |
| Ax25Pad.GetFrameType | src/ax25_pad.c:320-413 | every control byte is classified, and type and fields put together give it back; a built frame is classified as what it was built as, but always as having both C bits set |
| Ax25Pad.GetSsid | src/ax25_pad.c:225-228 | the station number of a built frame |
| Ax25Pad.GetAddrNoSsid | src/ax25_pad.c:207-223 | the callsign of a built frame without its padding |
| Ax25Pad.GetNumPid | src/ax25_pad.c:240-257 | whether a built frame has a protocol identifier |
| Ax25Pad.GetInfo | src/ax25_pad.c:259-281 | the information field of a built frame |
| Ax25Pad.GetPid | src/ax25_pad.c:428-434 | the protocol identifier of a built frame |
| Ax25Pad.SetInfo | src/ax25_pad.c:283-300 | a built frame with another information field and nothing else changed |
| HeaderBits.SetField | src/il2p_header.c:36-50 | the bits of a value are put into one bit plane, most significant first, and no other plane changes |
| HeaderBits.GetField | src/il2p_header.c:66-85 | the number that a stretch of a bit plane stands for |
| HeaderBits.OrIsSum | src/il2p_header.c:189-212 | values without a common bit are ORed into a field as their sum |
| Header.PidRoundTrip | src/il2p_header.c:95-159 | a protocol identifier survives exactly when it is one of ten, and the canonical one is encoded alike |
| Header.PidCodes | src/il2p_header.c:95-159 | exactly the identifiers whose bits 4 and 5 are 01 or 10 arrive as 20; nine others by codes of their own, unchanged; the rest cannot be sent |
| Header.HeaderUnique | src/il2p_header.c:161-349 | a frame has only one header |
| Header.Il2pType1Header | src/il2p_header.c:161-349 | the 13 bytes are the header of the frame, with the information length as result, exactly for the frames that can be expressed |
| Header.SentFigures | src/il2p_header.c:161-349 | every bit of the header of a frame: characters, station numbers, UI bit, identifier, control field and length |
| Header.Trim | src/il2p_header.c:351-360 | trailing blanks are removed and nothing else |
| Header.DecodeAddress | src/il2p_header.c:371-416 | exactly the six bytes that spell a callsign are read, and as that callsign |
| Header.SpellsUnique | src/il2p_header.c:371-387 | six bytes spell at most one callsign |
| Header.GetHeaderAttributes | src/il2p_header.c:528-531 | the information length of any header is the number in ten bits of its second plane |
| Header.FieldsDecode | src/il2p_header.c:425-523 | the fields of the control value are those that were put in |
| Header.Il2pDecodeHeaderType1 | src/il2p_header.c:362-526 | exactly the headers whose address bytes spell callsigns give a frame: the one that their fields describe, without information; and byte by byte what the bits of the header say, a response exactly when the C bit is zero and it is no I frame |
| Header.ContentFigures | src/il2p_header.c:418-523 | the control byte and the protocol identifier that the bits of any header stand for |
| Header.CommandFigures | src/il2p_header.c:418-523 | command or response, from the C bit of any header, and always a command for an I frame |
| Header.HeaderFrameFigures | src/il2p_header.c:362-526 | every byte of the frame made from any header that spells callsigns |
| Header.KnownResponse | src/il2p_header.c:421-454 | the header of an RR response from B to A, and its frame in full |
| Header.HeaderReads | src/il2p_header.c:362-526 | the header of a frame reads as that frame: a command with its protocol identifier made canonical |
| Codec.Il2pEncodeFrame | src/il2p_codec.c:22-57 | exactly the frames that can be expressed are encoded, as coded header and payload blocks |
| Codec.AirFigures | src/il2p_codec.c:22-57 | what is sent for a frame is its header, scrambled and made a codeword by two symbols, and then the payload |
| Codec.InfoFigures | src/il2p_payload.c:22-118 | where each block of the payload goes and how long it is, by the size of the payload alone |
| Codec.Il2pClarifyHeader | src/il2p_header.c:533-542 | every header is what its decoder makes of it, descrambled; one with at most one wrong byte of fifteen is corrected |
| Codec.HeaderVerdict | src/il2p_header.c:533-542 | the result for every coded header, by its two syndromes: no end exactly when the first is not zero and the second is |
| Codec.HangingHeader | src/il2p_header.c:533-542 | a header of zeros with the parity symbols 1, 2 has no end |
| Codec.Il2pDecodeHeaderPayload | src/il2p_codec.c:67-103 | for every header and payload: a frame exactly when the header spells callsigns and no block fails, with the bytes that the fields of the header describe followed by the unpacked payload; with a payload within reach, the frame that was sent and the number of corrected symbols |
| Codec.ReadsFigures | src/il2p_codec.c:67-103 | every frame that comes out, whatever was received, is byte by byte what the bits of the header say, with the data of the blocks behind |
| Codec.Il2pDecodeFrame | src/il2p_codec.c:59-65 | every received buffer is read so, its header corrected or not, and every frame that comes out is byte by byte what the bits of its header say, a response if its C bit is zero; every frame comes back with one wrong byte in the coded header and eight in each payload block, as a command with a canonical protocol identifier, and all wrong bytes are counted |
| Codec.WhenFrameLoops | src/il2p_codec.c:59-103 | decoding never ends exactly when it does not for the header, by its two syndromes, or for a payload block behind a header that spells callsigns |
| Codec.UndisturbedReceivable | src/il2p_codec.c:22-103 | what was sent is decodable as it is, with no wrong bytes |
| Codec.ExactRoundTrip | src/ax25_pad.c:320-356 | a frame comes back byte for byte exactly when it is a command and its protocol identifier, if any, is one of ten |
| Codec.SendAndReceive | src/il2p_codec.c:22-103 | a built frame, encoded and decoded: null exactly when it cannot be expressed, else the command with the canonical identifier, and its own bytes exactly when it was a command with one of ten identifiers or none |
| Codec.ResponseRoundTrip | src/ax25_pad.c:320-356 | a response comes back with only the two C bits changed, and another protocol identifier with only that byte changed |
| LinkTimers.Timers.constructor | src/ax25_link.c:336-393 | a new link has both timers stopped |
| LinkTimers.Timers.InitT1v | src/ax25_link.c:80-82 | both estimates are positive |
| LinkTimers.Timers.StartT1 | src/ax25_link.c:2068-2084 | T1 has its full time to run, and is paused at once when the channel is busy |
| LinkTimers.Timers.ResumeT1 | src/ax25_link.c:2123-2140 | resuming keeps what remained |
| LinkTimers.Timers.StopT1 | src/ax25_link.c:2086-2108 | what is remembered is the time started with less the idle time since, never negative |
| LinkTimers.Timers.ChannelBusy | src/ax25_link.c:470-506 | T1 is paused exactly while the channel is busy and loses nothing by it |
| LinkTimers.Timers.Pass | src/ax25_link.c:202-209 | only idle time counts against T1 |
| LinkTimers.Timers.TakeT1Expiry | src/ax25_link.c:1672-1687 | T1 fires exactly when the channel is idle and has been for at least the time T1 was started with |
| LinkTimers.Timers.TakeT3Expiry | src/ax25_link.c:1689-1696 | T3 fires exactly when its time is up |
| LinkTimers.Timers.SelectT1Value | src/ax25_link.c:1993-2026 | T1 stays positive; without a retry it is twice the smoothed round trip, or two seconds if that is less than one |
| LinkSender.GoodNrExact | src/ax25_link.c:2035-2048 | an acknowledgement is good exactly when one and only one number between the acknowledged and the sent count is congruent to it |
| LinkSender.Sender.WindowExact | src/ax25_link.c:149 | the window test says exactly that fewer than k frames are outstanding |
| LinkSender.Sender.SendNext | src/ax25_link.c:237-260 | the head of the queue gets the number V(S) and is kept in its slot, and no other slot changes |
| LinkSender.Sender.FreeBelow | src/ax25_link.c:133-138 | the walk ends, having emptied exactly the filled run below its start |
| LinkSender.FreedExactly | src/ax25_link.c:128-139 | that run is the frames from the old V(A) up to the number acknowledged |
| LinkSender.Sender.SetVA | src/ax25_link.c:128-139 | a good acknowledgement moves V(A) forward to its number, never past V(S), and empties exactly the slots of the frames acknowledged |
| LinkSender.Sender.Reset | src/ax25_link.c:1412-1413 | numbering starts again; exactly the run of filled slots that ends with slot 7 is emptied, so with slot 7 empty every slot stays as it was |
| LinkSender.WalkedDown | src/ax25_link.c:133-138 | what the walk empties is the run of filled slots just below its start, and nothing else |
| LinkSender.Sender.DiscardQueue | src/ax25_link.c:275-285 | the queue is emptied |
| LinkReceiver.InWindowExact | src/ax25_link.c:925-936 | every number but the one expected and the one before it is taken to be ahead |
| LinkReceiver.Receiver.Clear | src/ax25_link.c:1851-1858 | every slot is empty |
| LinkReceiver.Receiver.Accept | src/ax25_link.c:803-828 | the frame expected is delivered with the unbroken run that waited for it, each in the order of its number, and exactly the slots of that run are emptied |
| LinkReceiver.Receiver.Drain | src/ax25_link.c:817-828 | the drain loop ends and delivers exactly that run |
| LinkReceiver.Receiver.Store | src/ax25_link.c:862-868 | an early frame is kept in its slot and the slots of V(R) and below stay empty |
| LinkReceiver.Receiver.MissingBelow | src/ax25_link.c:889-910 | exactly the longest missing run just below N(S), at most six numbers |
| LinkReceiver.MissingFigures | src/ax25_link.c:889-910 | which numbers these are, counted modulo eight from N(S) down |
| Ax25Link.Link.constructor | src/ax25_link.c:336-393 | a new link satisfies every invariant and is ready to receive |
| LinkSpec.TransmissionsPrefix | src/ax25_link.c:234-266 | what was first sent under a number does not change when more is sent |
| LinkSpec.TransmissionsCarry | src/ax25_link.c:234-266 | of the frames sent in a row the i-th has the control byte 2 N(S) + 32 N(R), the identifier and the data of its number |
| LinkSpec.CarriesUnique | src/ax25_pad.c:647-711 | control byte, identifier and data determine the I frame |
| Ax25Link.Link.IFramePopOffQueue | src/ax25_link.c:216-273 | frames are sent from the queue in order, none lost or repeated, until it is empty or the window is full, each as a command whose control byte is 2 N(S) + 32 V(R), with its data |
| Ax25Link.Link.EstablishDataLink | src/ax25_link.c:1828-1842 | SABM is sent as a command with P = 1, T1 runs, T3 does not, and nothing early is kept |
| Ax25Link.Link.NrErrorRecovery | src/ax25_link.c:1822-1826 | the link waits for a connection, with a retry count of one |
| Ax25Link.Link.SetVersion20 | src/ax25_link.c:2028-2033 | window and retry limit are loaded without breaking the window invariant |
| Ax25Link.Link.EnquiryResponse | src/ax25_link.c:1875-1911 | one response with the next number expected and F as asked, RNR exactly when this end is busy and RR otherwise |
| Ax25Link.Link.TransmitEnquiry | src/ax25_link.c:1861-1873 | one command with P = 1 and N(R) = V(R), RNR exactly when this end is busy and RR otherwise, and T1 runs |
| Ax25Link.Link.CheckIFrameAckd | src/ax25_link.c:1958-1982 | the acknowledgement is taken in every case, and exactly which timers run afterwards |
| Ax25Link.Link.InvokeRetransmission | src/ax25_link.c:1913-1956 | nothing is sent when the first frame is not at hand, and otherwise whatever is at hand from there up to V(S) |
| Ax25Link.Link.AgainOutstanding | src/ax25_link.c:1913-1956 | for V(A) those are exactly the outstanding frames, once each and in order, each with what was first sent under its number |
| LinkSpec.OutstandingResends | src/ax25_link.c:1924-1950 | walking up from a number as far as frames are kept sends exactly those frames |
| Ax25Link.Link.ResendForSrej | src/ax25_link.c:1336-1379 | the frames named are sent as far as they are at hand, and counted |
| LinkSpec.ResendsSome | src/ax25_link.c:1336-1379 | something is sent exactly when a frame named is at hand |
| LinkSpec.ResendsGenuine | src/ax25_link.c:1336-1379 | everything sent again is an outstanding frame if and only if no slot is named that is filled and not outstanding |
| LinkSpec.GenuineFigures | src/ax25_link.c:1336-1379 | an I frame is an outstanding one exactly when its control byte, identifier and data are those of an outstanding number |
| LinkSpec.NamedFigures | src/ax25_link.c:1336-1379 | an SREJ names its N(R) and the top three bits of each information byte |
| LinkSpec.ResendsFigures | src/ax25_link.c:1336-1379 | numbers that are at hand are sent again one by one, in order, from their slots |
| LinkSpec.ResendsOnly | src/ax25_link.c:1336-1379 | a number that is not at hand adds nothing |
| LinkSpec.UpwardFigures | src/ax25_link.c:1913-1956 | a REJ asks for the numbers from its own up to the last one sent, or all eight from V(S) on |
| LinkSpec.StaleSame | src/ax25_link.c:128-139 | taking an acknowledgement leaves the same slots stale |
| LinkSpec.AgainStale | src/ax25_link.c:1913-1956 | with nothing outstanding, going up from a filled slot sends something stale |
| Ax25Link.Link.SendSrejFrames | src/ax25_link.c:938-993 | one SREJ for each number, with F only for V(R) |
| LinkSpec.SrejsFigures | src/ax25_link.c:938-993 | each is a response with the number as N(R), and F = 1 only for V(R) |
| Ax25Link.Link.IFrameContinued | src/ax25_link.c:801-923 | delivery in order with exactly the slots emptied, keeping of early frames, what is taken as received, and the requests and responses due in every case |
| Ax25Link.Link.IFrame | src/ax25_link.c:704-799 | acknowledgement, delivery and answer in every state, or a new connection after a bad frame; nothing but the frame itself is taken as received |
| Ax25Link.Link.PollEnded | src/ax25_link.c:1072-1098 | the answer to a poll ends timer recovery when everything is acknowledged, and otherwise sends everything outstanding again |
| Ax25Link.Link.RrRnrFrame | src/ax25_link.c:995-1123 | new state, acknowledgement and frames sent, for every state |
| Ax25Link.Link.RejFrame | src/ax25_link.c:1125-1251 | likewise, with everything from N(R) on sent again; when nothing is outstanding, what a connected link finds in its slots |
| Ax25Link.Link.SrejFrame | src/ax25_link.c:1253-1334 | likewise, and that the link stays watched by a timer exactly when the SREJ does not starve it; with F = 0 every slot stays as it was |
| Ax25Link.Link.FullWindowStarves | src/ax25_link.c:1292-1330 | with seven frames outstanding, an SREJ for the next number starves it |
| Ax25Link.StarvedRun | src/ax25_link.c:1292-1330 | a run from a new link to one with frames outstanding and no T1 |
| Ax25Link.StaleRun | src/ax25_link.c:1381-1467 | a run from a new link to one that has sent a frame of an old connection: a frame is sent, a SABM resets the link, an SREJ names the number |
| Ax25Link.Link.SabmFrame | src/ax25_link.c:1381-1467 | UA, fresh numbers, the queue dropped exactly when frames were outstanding, and which slots stay filled |
| Ax25Link.Link.DiscFrame | src/ax25_link.c:1469-1521 | UA or DM, and the link is down |
| Ax25Link.Link.DmFrame | src/ax25_link.c:1523-1562 | when exactly the link goes down |
| Ax25Link.Link.UaFrame | src/ax25_link.c:1564-1622 | the awaited answer connects with fresh numbers, and which slots stay filled; a stray one starts over |
| Ax25Link.Link.FrmrFrame | src/ax25_link.c:1624-1642 | a new connection is asked for |
| Ax25Link.Link.UiFrame | src/ax25_link.c:1644-1670 | the answer to a poll |
| Ax25Link.Link.T1Expiry | src/ax25_link.c:1698-1800 | each expiry uses up one of those left, the last disconnects, and otherwise T1 runs again |
| Ax25Link.Link.T3Expiry | src/ax25_link.c:1802-1820 | a quiet connection goes to timer recovery under T1 |
| Ax25Link.Link.DlTimerExpiry | src/ax25_link.c:1672-1696 | when exactly each timer fires, the new state, what is sent, and that each expiry of T1 uses up one of those left |
| Ax25Link.Link.LmChannelBusy | src/ax25_link.c:470-506 | the channel is busy exactly while a carrier is heard or this end transmits, and no timer stops or loses time |
| Ax25Link.Link.LmSeizeConfirm | src/ax25_link.c:508-535 | what the window allows is sent, and an acknowledgement still due follows only if nothing was |
| Ax25Link.Link.LmDataIndication | src/ax25_link.c:583-702 | every frame is handed to the handler of its type, whose whole effect holds of the result, and then the channel is asked for exactly when there is something to send; the link stays watched exactly unless an SREJ starves it, and nothing is taken as received but the frame |
| Ax25Link.Link.Step | src/ax25_link.c:216-2148 | every event is a step: sound before and after, watched unless starved, one expiry used up for each firing, T1 counting idle time only, deliveries and acceptance as offered, everything sent outstanding if and only if nothing is exhumed, connected only in the ways it can be, nothing sent but what it may send, and to each event the answers due and no others |
| Ax25Link.Link.Run | src/ax25_link.c:216-2148 | every run of events is a run of the step relation, from the link as it was to the link as it is |
| LinkRuns.RetryBound | src/ax25_link.c:1672-1800 | in any stretch of a run without a received frame T1 fires at most as often as there were expiries left, and after as many the link is disconnected |
| LinkRuns.StarvesOnlyAtVs | src/ax25_link.c:1292-1330 | an SREJ starves a link only if it does not acknowledge and names the number to be sent next |
| LinkRuns.StaysWatched | src/ax25_link.c:1672-1696 | in a run from a watched link some timer watches it at every moment until an SREJ starves it |
| LinkRuns.WatchedUnlessAtVs | src/ax25_link.c:1672-1696 | so it is watched throughout when every SREJ that arrives acknowledges or names another number than V(S) |
| LinkRuns.LostAtStarving | src/ax25_link.c:1292-1330 | and the first moment without a timer comes right after an SREJ that starves it |
| LinkRuns.AcceptedArrived | src/ax25_link.c:801-923 | nothing is ever taken as received that did not arrive in an information frame |
| LinkRuns.DeliveredArrived | src/ax25_link.c:801-923 | every item handed up in a run was carried by an information frame that had arrived by then, under the number due in its place: the count of deliveries since the last reset, modulo eight |
| LinkRuns.DeliveriesStay | src/ax25_link.c:801-923 | what was handed up is never taken back or changed |
| LinkRuns.NeverEarly | src/ax25_link.c:1672-1687 | T1 fires only after it has run without a break while the channel was idle for as long as it was started with |
| LinkRuns.GenuineExactly | src/ax25_link.c:1253-1334 | in any stretch of a run every information frame sent is an outstanding one if and only if no event exhumes anything, a condition on the link before the event |
| LinkRuns.FramesCarrySent | src/ax25_link.c:234-266 | so between resets every information frame sent, first or again, carries what was first sent under its number, unless an event exhumes what is not outstanding |
| LinkRuns.FirstSent | src/ax25_link.c:234-266 | in any run the n-th frame since the reset is first sent when the channel is seized, as a command with control byte 2 (n mod 8) + 32 V(R), its identifier and its data |
| LinkRuns.SentWell | src/ax25_link.c:216-2148 | everything sent in a run: I frames from filled slots with N(R) = V(R) and P = 0; RR or RNR with N(R) = V(R), as commands only with P = 1; SREJ, UA and DM as responses; SABM as a command with P = 1 |
| LinkRuns.StaysReady | src/ax25_link.c:1844-1859 | a link that is ready to receive is so at every later moment, because nothing sets the busy flag |
| LinkRuns.NeverRnr | src/ax25_link.c:1861-1911 | so in no run from a new link is an RNR sent |
| LinkRuns.PollsAnswered | src/ax25_link.c:1875-1911 | and every poll that is answered while the link is up is answered first by RR with F = 1 and N(R) = V(R) |
| LinkRuns.RecoversOnlyBy | src/ax25_link.c:995-1123 | when frames read as having both C bits set, a link in timer recovery becomes connected only by an I frame, an SREJ or a SABM |
| LinkRuns.StaysInRecovery | src/ax25_link.c:995-1123 | so without these, and without the UA that ends a wait, it is at no later moment of a run connected |
| Complex.Reindex | src/fft.c:430-450 | a sum taken residue by residue |
| Dft.WAdd | src/fft.c:67-75 | powers of the root multiply by adding exponents |
| Dft.QuarterRoots | src/fft.c:74-82 | the quarter turns are such a table, in either direction |
| Dft.Decompose | src/fft.c:423-473 | a transform of p times m values is made of p turned transforms of m values |
| Fft.KfFactor | src/fft.c:475-505 | the loops end, each radix times its cofactor is what was left, down to one, and the radices are fours first and then primes in increasing order |
| Fft.ColumnTerm | src/fft.c:394-417 | what a butterfly adds up is a turned value times a power of the p-th root |
| Fft.ThirdTurn | src/fft.c:292 | the cube root of unity has real part minus one half, and its square is its conjugate |
| Fft.KfBfly2 | src/fft.c:209-232 | the in-place butterfly combines two parts |
| Fft.KfBfly3 | src/fft.c:283-318 | three parts |
| Fft.KfBfly4 | src/fft.c:234-281 | four parts, in either direction |
| Fft.KfBflyGeneric | src/fft.c:376-421 | any number of parts, with the table index reduced by one subtraction |
| Fft.KfBfly5 | src/fft.c:320-372 | five parts, with every output as the code computes it |
| FftFive.Bfly5Exact | src/fft.c:339-364 | a column of five comes out right exactly when its second and third turned values are the same and its first and fourth have the same imaginary part |
| Fft.FiveRight | src/fft.c:320-372 | the radix-5 stage combines its parts exactly when every column is such a one |
| Fft.FiveValues | src/fft.c:320-372 | a transform of five values is right exactly when the third and fourth are the same and the second and fifth have the same imaginary part |
| Fft.OnlyParts | src/fft.c:451-472 | of parts combined by a stage of radix 2, 3 or 4, the whole is right exactly when every part is |
| Fft.WorkRight | src/fft.c:423-473 | one level of the recursion is right exactly when its values fit, given the same of its parts |
| Fft.OnceWithout25 | src/fft.c:475-505 | the radices found for a length without a factor of twenty-five have only 2, 3 and 4 above a five |
| Fft.Finish | src/fft.c:451-472 | transformed parts, combined, are the whole transform, and nothing else is |
| Fft.KfWork | src/fft.c:423-473 | for every length without a factor of five the recursion computes the transform in its part of the output; with one factor of five exactly when what is combined there fits; it leaves the rest alone |
| Fft.FftAlloc | src/fft.c:52-88 | the state set up is valid, and without a factor of twenty-five there are only radices 2, 3 and 4 above a five |
| Fft.Fft | src/fft.c:507-522 | every output is its coefficient of the discrete Fourier transform of the input, also in place, for every length without a factor of five; for every length with one, exactly when the values fit at the stage of radix five; for the length five, when the third and fourth are the same and the second and fifth have the same imaginary part |
| Fft.TransformIsCoefficient | src/fft.c:147-150 | the transform computed is the one of the definition |
| Kiss.EscapedNoFend | src/kiss_pt.c:204-222 | an escaped message holds no delimiter |
| Kiss.KissEncapsulate | src/kiss_pt.c:196-227 | the loop writes the escaped message between delimiters: 0xc0 at both ends and nowhere else, 0xdb 0xdc exactly for 0xc0, 0xdb 0xdd exactly for 0xdb, and every other byte for itself |
| Kiss.KissUnwrap | src/kiss_pt.c:229-289 | the loop writes the message that a frame holds, also for frames that are malformed; of a well-formed frame the message it stands for |
| Kiss.RoundTrip | src/kiss_pt.c:196-289 | taking apart what was encapsulated gives the message back, for every message |
| Kiss.FramesOf | src/kiss_pt.c:196-227 | exactly what is encapsulated is well formed between 0xc0 and stands for the message, with the escape bytes in figures |
| Kiss.UnwrappedReads | src/kiss_pt.c:229-289 | what any frame is taken apart to, with the escape bytes in figures |
| Kiss.KnownFrames | src/kiss_pt.h:29-32 | the frames of 0xc0 and of 0xdb in full, and a received one |
| Kiss.KissFrame.RecByte | src/kiss_pt.c:315-369 | one byte moves the receiver as its specification says |
| Kiss.KissFrame.Receives | src/kiss_pt.c:315-369 | a run of bytes fed to the receiver moves it as its specification does |
| Kiss.FeedFrame | src/kiss_pt.c:315-369 | a body between delimiters is delivered unless it is empty, from either resting state |
| Kiss.StreamDelivers | src/kiss_pt.c:315-369 | a searching receiver delivers exactly the messages of a stream that are not empty, in order, if and only if every item is received as sent: not collecting, or no gap, or a gap that reads, as far as a frame has room for it, as the very message after it |
| Kiss.FeedStream | src/kiss_pt.c:315-369 | what the receiver makes of any stream: the deliveries, and whether it rests collecting |
| Kiss.NextItem | src/kiss_pt.c:333-351 | one gap and message from either resting state: what is delivered and how the receiver rests |
| Kiss.TidyDelivers | src/kiss_pt.c:315-369 | in particular it does when nothing stands after an empty message |
| Kiss.GapAfterEmpty | src/kiss_pt.c:333-351 | a stream whose message is lost |

## Left out

- RsDecode.DecodeRsChar: erasures (`no_eras` above zero), which no caller uses, are not modelled.
- RsDecode.EvaluateOmega: models the unsigned loop at `src/il2p_init.c:345` as running down to zero.
- RsTables.InitRsChar: field polynomial, first root and primitive element are those of the table of codecs (0x11d, 0 and 1), and allocation does not fail.
- RsTables.BuildGenerator: likewise, with 1 to 64 parity symbols.
- Scramble.Il2pScrambleBlock: needs a block of at least one byte, because the source flushes its last bits into the first byte.
- Payload.Il2pDecodePayload: the result -3, for a length that cannot differ, is not modelled; the received buffer is a sequence of the largest encoded size.
- Ax25Pad.UFrame: information fields end within the packet buffer of 2057 bytes; the source copies up to 2048 bytes after 16.
- Ax25Pad.SFrame: likewise.
- Ax25Pad.IFrame: likewise.
- Ax25Pad.SetInfo: likewise; longer information fields are cut off in the source.
- Ax25Pad.GetInfo: the zero byte that the source writes after the information field is not modelled.
- Ax25Link.Link.LmDataIndication: finding or creating the link of a frame, the warnings about command and response, and the counts of frame types are not part of this model.
- LinkReceiver.Receiver.Accept: the reassembler behind `dl_data_indication` is not part of this model; its result is dropped in the source.
- LinkTimers.Timers.ChannelBusy: takes whether the channel is busy; `Ax25Link.Link.LmChannelBusy` combines carrier detection and transmitting.
- LinkTimers.Timers: the clock is a field that time passing moves on; rounding of doubles is not modelled.
- Fft.Fft: for lengths with a factor of twenty-five nothing is stated about the whole transform, only about each stage (`Fft.FiveRight`); rounding is not modelled.
- Fft.FftAlloc: the table of roots is given and assumed exact (`Dft.Roots`), because its values are computed with rounding; the bound on the divisors may be any number, and the radices are only known when it is at least the square root.
- Kiss.KissFrame.RecByte: the buffer has room for the delimiter after a full frame of 2048 bytes; what is done with a message is not part of this model.
- The real transforms `fftr` and `fftri`, the link-wide lists, callsign registration, the bit receiver `src/il2p_rec.c`, the transmit and receive queues, audio, radio control, configuration and terminal input and output are not part of this model.
- Exactly-once delivery between two stations is not stated: every number but two is taken to be ahead, so an old frame can be kept as a new one.
- Diagnostics are left out; pointers into larger buffers are modelled as sequences or as arrays with an offset.
