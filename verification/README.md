# A verified model of a weak-signal receiver

This project models the processor-side algorithms of a receiver for FT8, FT4, JS8
and Morse code, and proves what they compute. It is written in Dafny; `dafny verify
dfyconfig.toml` checks all of it.

## What is modelled

**Ordered-statistics decoding** (`Gf2`, `Elimination`, `RealSums`, `OsdCore`). The
decoder sorts bit positions by reliability, row-reduces the reordered generator in
place, re-encodes the hard decisions at the pivots and searches all patterns of up to
two flips. The model keeps any length and any generator. Proved: it fails exactly for
dependent rows or a row count outside 1..91; the pivots are an independent column set of
greatest total reliability; the result is a codeword; and no codeword within `order`
mismatches on that basis is closer. `GeneratorDerivation` covers where the generator
comes from: Gauss-Jordan inversion, and the proof that `[B^T | I]` generates exactly the
code of the check matrix. `Ft8Osd` joins the two for FT8 and JS8.

**The mixed-radix transform** (`NatArithmetic`, `Complex`, `Dft`, `Butterflies`,
`KissFft`, `KissFactor`, `KissFftr`). In-place butterflies of radix 2, 3, 4, 5 and any
other over a shared buffer, the recursion over a radix chain, the factoring of the
length, and the real-input transform. Complex numbers are pairs of reals. The twiddle
table enters only through the laws it satisfies: products add exponents, reversal
conjugates, and the half, third and quarter turns have their exact values (`Dft.Twiddles`).

**The FT8 and FT4 chain** (`Packing`, `Ft8Crc`, `Ft8Code`, `Ft8Encode`, `Ft8Ldpc`,
`Ft8Demap`, `Ft8Normalize`, `Ft8Decode`). Check, code word, tones; then tone powers,
likelihoods, normalisation, belief propagation, check, payload. The generator table and
the check tables are parameters. `Ft8Ldpc.Matching` states what relates them: the
generator rows pass every check, and the parity columns of the checks are nonsingular.
Square root and the two hyperbolic functions are parameters. Only the square root needs a
law for decoding; what belief propagation sends back and forth is irrelevant to its
soundness. What the messages mean is stated beside it: a bit reports to a check everything
but that check's own word, and a check votes for the value that makes its parity even.

**The candidate search** (`CandidateHeap`): a bounded min-heap in an array, fed by four
nested loops, then a heapsort.

**The CW skimmer** (`EditDistance`, `CallSigns`, `CwTracker`, `Morse`). The tracker is a
class whose ghost history records, per track, in which windows each call was decoded
and which calls were spotted; its invariant ties the counters to that history. The Morse
decoder's de-glitching and its replay are modelled, and every text over its table has a
keying that replays to it; the timing estimate between the two passes is a parameter.

**The scan-slot ring** (`SlotRing`): producer, GPU stream and consumer as interleaved
atomic steps. The dispatched flag and the write index may become visible in either order,
the producer may act on an outdated read index, and the stream may write a slot's buffers
at any time between enqueueing and completion. Blocks come in while the producer is at work,
so a scheduled block can be overtaken. Retrying does not prevent this: `gm/cuda/JS8Cuda.cc:155-158`
goes back to the newest block, not to the refused one. The exact condition for a miss is
proved for both policies, with a run in which the retrying producer misses a block.

**Text codecs** (`Jsc`, `Text`, `StdMessage`): the dense word code of JS8 and the standard
77-bit message. `Options` holds the optional value that two components share.

Floating-point numbers are real numbers throughout.

## Where code and comments differ

The model follows the code in each case.

- `ft8_lib/ft8/ldpc.c:9` calls a likelihood log(P(0)/P(1)); the code decides for 1 when it is positive.
- `ft8_lib/ft8/encode.c:17` speaks of an (87,87) generator; the code uses 83 rows of 91 coefficients.
- `gm/hf/cw_track.h:39` describes the floating gate as median plus a multiple of the deviation; the code takes a multiple of the median.
- `ft8_lib/ft8/message.h:101` allows `CQ_nnn` and `CQ_abcd`; the packer refuses both.

## Model

| member | source | states |
|---|---|---|
| Gf2.Adjoint | gm/cuda/OsdCore.cc:77-80 | encoding and checking are adjoint: (y * rows) . z == y . (rows * z) |
| Gf2.AddRowEquivalent | gm/cuda/OsdCore.cc:56-58 | adding one row to another keeps the row space and whether the rows are dependent |
| Gf2.SwapRowsEquivalent | gm/cuda/OsdCore.cc:55 | exchanging two rows keeps the row space and whether the rows are dependent |
| Gf2.Underdetermined | gm/cuda/OsdCore.cc:49-61 | a homogeneous system with fewer equations than admitted unknowns has a nonzero solution inside them |
| Elimination.PivotedEquivalent | gm/cuda/OsdCore.cc:55-58 | one whole pivot step keeps the row space and dependence |
| Elimination.ReadOff | gm/cuda/OsdCore.cc:64-71 | after elimination the pivot columns of a combination read back its selection |
| Elimination.EchelonDependent | gm/cuda/OsdCore.cc:49-62 | the rows are dependent exactly when fewer pivots than rows were found |
| Elimination.PivotsIndependent | gm/cuda/OsdCore.cc:49-61 | no nonzero column combination inside the pivots cancels |
| Elimination.IndependentBound | gm/cuda/OsdCore.cc:49-61 | among the first c columns no independent set is larger than the pivots found there |
| Elimination.SkippedExactlyWhenSpanned | gm/cuda/OsdCore.cc:51-54 | a column is skipped if and only if it is a combination of earlier pivot columns |
| RealSums.SumReordered | gm/cuda/OsdCore.cc:81-85 | a sum does not depend on the order of its terms |
| OsdCore.StableOrderCorrect | gm/cuda/OsdCore.cc:33-37 | the reliability order is a permutation, descending, and stable on ties |
| OsdCore.SoftDistReordered | gm/cuda/OsdCore.cc:73-85 | the soft distance is the same in reliability order and in natural order |
| OsdCore.DominatedWeight | gm/cuda/OsdCore.cc:49-61 | a set that is ahead in count on every prefix of a descending order is ahead in weight |
| OsdCore.PivotsMostReliable | gm/cuda/OsdCore.cc:39-61 | the pivots found left to right are an independent column set of greatest total reliability |
| OsdCore.NaturalBasis | gm/cuda/OsdCore.cc:39-61 | the same in natural bit order, for the generator as given |
| OsdCore.Reduce | gm/cuda/OsdCore.cc:47-61 | the in-place elimination ends in reduced echelon form, row equivalent to its input |
| OsdCore.Encode | gm/cuda/OsdCore.cc:77-80 | the exclusive or of the selected rows |
| OsdCore.SoftDistance | gm/cuda/OsdCore.cc:81-85 | the sum of the reliabilities at which the word contradicts the hard decisions |
| OsdCore.LeastCostCovers | gm/cuda/OsdCore.cc:91-113 | the base word, all single and all double flips cover every selection within `order` flips |
| OsdCore.Search | gm/cuda/OsdCore.cc:87-113 | the distance kept is attained, and is least over all selections within `order` flips |
| OsdCore.SelectedCodeword | gm/cuda/OsdCore.cc:64-71 | a selection encodes a codeword with the selection's own cost and mismatch count |
| OsdCore.SearchIsNearest | gm/cuda/OsdCore.cc:91-113 | least cost over selections is least soft distance over codewords near the hard decisions |
| OsdCore.Unpermute | gm/cuda/OsdCore.cc:115-117 | reordering the result gives back the word that was found |
| OsdCore.OsdDecode | gm/cuda/OsdCore.cc:25-121 | success exactly for 1..91 independent rows; then a codeword, its soft distance, at most `order` mismatches on a most reliable basis of as many distinct positions as rows, and no such codeword nearer |
| GeneratorDerivation.MissingPivot | tools/derive_js8_generator.py:52-54 | a missing pivot exposes a nonzero vector that the matrix sends to zero |
| GeneratorDerivation.FinishedInverse | tools/derive_js8_generator.py:51-61 | reaching [I \| R] makes R an inverse on both sides |
| GeneratorDerivation.Inverse | tools/derive_js8_generator.py:47-61 | returns a two-sided inverse, or None if and only if the matrix is singular |
| GeneratorDerivation.Multiply | tools/derive_js8_generator.py:64-75 | the accumulating loops compute the matrix product |
| GeneratorDerivation.RowsPassChecks | tools/derive_js8_generator.py:89-103 | every row of G = [B^T \| I] with B = Hp^-1 Hi passes every check |
| GeneratorDerivation.DerivedGenerates | tools/derive_js8_generator.py:78-103 | G generates exactly the words that pass H, and is systematic |
| GeneratorDerivation.Derive | tools/derive_js8_generator.py:78-103 | singular parity columns are reported exactly then, the final verification never fails, and G generates the code of H |
| Ft8Osd.BuildGenerator | gm/cuda/FT8Osd.cc:13-23 | the unpacked table is the systematic generator matrix |
| Ft8Osd.Ft8OsdDecode | gm/cuda/FT8Osd.cc:27-34 | always succeeds; the word re-encodes to itself from its first 91 bits; nearest among such words |
| Ft8Osd.Js8OsdDecode | gm/cuda/JS8Osd.cc:5-8 | with a derived generator always succeeds; the word passes every check of H; nearest among words that do |
| Complex.SumByResidue | ft8_lib/fft/kiss_fft.c:270-284 | a sum over p*m terms is the sum of its p sums by residue |
| Dft.DecimationInTime | ft8_lib/fft/kiss_fft.c:270-295 | recombining the transforms of the p decimated inputs is transforming the whole input |
| Butterflies.BinAsSmall | ft8_lib/fft/kiss_fft.c:192-229 | bin u + v*m of a stage is bin v of a p-point transform of the turned column u |
| Butterflies.Radix3 | ft8_lib/fft/kiss_fft.c:102-127 | the three-output formula with epi3 is the 3-point transform |
| Butterflies.Radix4 | ft8_lib/fft/kiss_fft.c:54-83 | the four-output formulas, one per direction, are the 4-point transform |
| Butterflies.Radix5 | ft8_lib/fft/kiss_fft.c:153-188 | the five-output formula with ya and yb is the 5-point transform |
| KissFft.Bfly2 | ft8_lib/fft/kiss_fft.c:15-36 | in place, the radix-2 stage becomes the recombined transform; the rest of the buffer is kept |
| KissFft.Bfly3 | ft8_lib/fft/kiss_fft.c:86-128 | the same for radix 3 |
| KissFft.Bfly4 | ft8_lib/fft/kiss_fft.c:38-84 | the same for radix 4, in both directions |
| KissFft.Bfly5 | ft8_lib/fft/kiss_fft.c:130-189 | the same for radix 5 |
| KissFft.BflyGeneric | ft8_lib/fft/kiss_fft.c:192-229 | the same for any radix, with the twiddle index wrapped by one conditional subtraction |
| KissFft.KfWork | ft8_lib/fft/kiss_fft.c:231-296 | for any length, stride and radix chain, exactly the transform of the strided input is written, and nothing else |
| KissFft.KissFftStride | ft8_lib/fft/kiss_fft.c:365-377 | the transform of the input, also when input and output are the same buffer |
| KissFactor.FirstDivisorPrime | ft8_lib/fft/kiss_fft.c:311-319 | the first divisor met is prime |
| KissFactor.NoSmallDivisorPrime | ft8_lib/fft/kiss_fft.c:317-318 | past the square root the remaining number itself is prime |
| KissFactor.KfFactor | ft8_lib/fft/kiss_fft.c:302-324 | terminates with a chain from n down to 1 whose radices are 4 or prime, and which fits its buffer |
| KissFactor.Alloc | ft8_lib/fft/kiss_fft.c:333-362 | for every length the factoring makes a usable configuration |
| KissFftr.PairedBin | ft8_lib/fft/kiss_fftr.c:74-75 | transforming the pairs transforms even and odd samples at once |
| KissFftr.FullBin | ft8_lib/fft/kiss_fftr.c:99-114 | a bin of the real signal from the half bins of its even and odd samples |
| KissFftr.OutputBins | ft8_lib/fft/kiss_fftr.c:99-114 | bins k and nc-k from the same two half bins, also where they coincide |
| KissFftr.EdgeBins | ft8_lib/fft/kiss_fftr.c:76-97 | the first and the Nyquist bin are sum and difference of the parts of the first paired bin |
| KissFftr.RealTransform | ft8_lib/fft/kiss_fftr.c:61-115 | bins 0..n/2 of the transform of any real input of even length; every inverse configuration is refused |
| Packing.SetBit | ft8_lib/ft8/decode.c:661-664 | setting through the mask sets one bit of the string and no other |
| Packing.UnpackedInjective | ft8_lib/ft8/decode.c:649-672 | a byte string is determined by its bits |
| Packing.PackBits | ft8_lib/ft8/decode.c:649-672 | the rolling mask packs exactly the given bits, the unused ones are zero, later bytes are kept |
| Ft8Crc.RemainderDivides | ft8_lib/ft8/crc.c:16-34 | bringing down one bit at a time is division with remainder by x^14 + 0x2757 |
| Ft8Crc.DivisionUnique | ft8_lib/ft8/crc.c:16-34 | quotient and remainder are unique |
| Ft8Crc.RemainderIsTheRemainder | ft8_lib/ft8/crc.c:16-34 | whatever division by the polynomial yields, its remainder is the check |
| Ft8Crc.RemainderXor | ft8_lib/ft8/crc.c:10-37 | the check is linear over exclusive or |
| Ft8Crc.RegisterStep | ft8_lib/ft8/crc.c:25-33 | a register that still holds the undivided rest of a byte divides by the next bit |
| Ft8Crc.ComputeCrc | ft8_lib/ft8/crc.c:10-37 | for every bit count with a clean last byte, the result is the polynomial remainder of message * x^14 |
| Ft8Crc.ExtractedBits | ft8_lib/ft8/crc.c:39-43 | the extracted check is the fourteen bits after the payload |
| Ft8Crc.AddCrc | ft8_lib/ft8/crc.c:45-63 | the payload's 77 bits, then the remainder of the payload extended to 82 bits, then zeros |
| Ft8Crc.VerifyCrc | ft8_lib/ft8/decode.c:370-380 | extracted and recomputed check agree if and only if the 91 bits are what appending the check to the payload gives |
| Ft8Code.CodewordIsCombination | gm/cuda/FT8Osd.cc:7-10 | encoding is the combination of the generator rows that the message selects |
| Ft8Code.SpanIsCodewords | gm/cuda/FT8Osd.cc:7-10 | the row space is exactly the words that encode their own first 91 bits |
| Ft8Code.GeneratorIndependent | gm/cuda/FT8Osd.cc:13-23 | the systematic generator has full rank |
| Ft8Code.Parity8Counts | ft8_lib/ft8/encode.c:8-14 | three folds leave the exclusive or of the eight bits |
| Ft8Code.RowParity | ft8_lib/ft8/encode.c:42-47 | the byte-wise accumulation is the inner product of all 96 bits of message and row |
| Ft8Code.WrittenIsCodeword | ft8_lib/ft8/encode.c:27-55 | for a clean table, what is written for any twelve bytes is the code word of the first 91 bits if and only if each stray bit falls on a checksum bit that is set |
| Ft8Code.Encode174 | ft8_lib/ft8/encode.c:22-63 | the packed encoder writes exactly the code word of a clean message, and for any twelve bytes that word with stray bits left standing |
| Ft8Encode.EncodeFt8 | ft8_lib/ft8/encode.c:65-125 | the 79 tones hold three sync blocks, and each data tone is the Gray code of the next three code bits |
| Ft8Encode.EncodeFt4 | ft8_lib/ft8/encode.c:127-195 | the 105 tones hold ramps and four sync blocks, and carry the word of the scrambled payload two bits a tone |
| Ft8Encode.ScrambledTwice | ft8_lib/ft8/decode.c:385-393 | scrambling is its own inverse |
| Ft8Ldpc.LdpcCheck | ft8_lib/ft8/ldpc.c:111-128 | counts the failing rows of the check matrix; zero if and only if the word is in its kernel |
| Ft8Ldpc.ChecksAcceptCodewords | ft8_lib/ft8/ldpc.c:111-128 | a word passes every check if and only if it is the code word of its first 91 bits |
| Ft8Ldpc.ReportExcludes | ft8_lib/ft8/ldpc.c:178-187 | what a bit reports to a check is everything known of it, the sum its hard decision is taken on, less what that check said |
| Ft8Ldpc.BitsToChecks | ft8_lib/ft8/ldpc.c:173-190 | after the pass every check holds that report, through the hyperbolic tangent, for each bit it shares an edge with |
| Ft8Ldpc.ProductSign | ft8_lib/ft8/ldpc.c:199-206 | the sign of the product over the other bits is the parity of the word they speak for |
| Ft8Ldpc.CheckVotes | ft8_lib/ft8/ldpc.c:193-209 | where the inverse hyperbolic tangent keeps the sign: if a check hears a word from the other bits, its message to a bit speaks for the word's bit exactly when the word passes the check, and else for the opposite |
| Ft8Ldpc.ChecksToBits | ft8_lib/ft8/ldpc.c:192-209 | after the pass this holds of every bit, each of its checks and every word |
| Ft8Ldpc.BpDecode | ft8_lib/ft8/ldpc.c:130-213 | no errors only with a nonzero word that passes every check; never more errors than the first hard decisions; valid hard decisions are returned; all-zero ones give the maximum |
| Ft8Demap.GetCandMag | ft8_lib/ft8/decode.c:54-62 | the nested offset of the candidate's first symbol |
| Ft8Demap.IndexInside | ft8_lib/ft8/decode.c:54-62 | every tone of every block inside the capture lies in the magnitude array |
| Ft8Demap.IndexStride | ft8_lib/ft8/decode.c:301-309 | moving on by s symbols is moving on by s strides |
| Ft8Demap.ExtractFt8Symbol | ft8_lib/ft8/decode.c:549-562 | each of three likelihoods compares the strongest value with the bit set against the strongest with it clear |
| Ft8Demap.ExtractFt4Symbol | ft8_lib/ft8/decode.c:534-546 | the same for two bits |
| Ft8Demap.PeakLikelihood | ft8_lib/ft8/decode.c:533-562 | a strictly strongest tone gives every bit its sign and at least half a decibel |
| Ft8Demap.ExtractFt8Likelihood | ft8_lib/ft8/decode.c:287-312 | all 174 likelihoods, from the right symbols, and zeros outside the capture |
| Ft8Demap.ExtractFt4Likelihood | ft8_lib/ft8/decode.c:261-285 | the same for FT4 |
| Ft8Normalize.SpreadStep | ft8_lib/ft8/decode.c:316-324 | one more likelihood adds its squared distances from the earlier ones to the variance |
| Ft8Normalize.ClearWordVaries | ft8_lib/ft8/decode.c:324-332 | a word with both a 0 and a 1, clearly received, is thirty times above the silence threshold |
| Ft8Normalize.Normalize | ft8_lib/ft8/decode.c:314-341 | below the threshold all zeros, otherwise one positive factor that makes the variance 24 |
| Ft8Decode.CheckMessage | ft8_lib/ft8/decode.c:420-431 | accepts exactly the words whose 91 bits end in the check of the first 77 |
| Ft8Decode.DecodeFromBits | ft8_lib/ft8/decode.c:440-462 | accepts exactly those words, hands out the only ten bytes that hold the payload's 77 bits, and their check, and else leaves the message alone |
| Ft8Decode.FindWord | ft8_lib/ft8/decode.c:414-420 | no errors only with a nonzero word of the code; a clearly heard code word is found if and only if it is nonzero and above the silence threshold |
| Ft8Decode.DecodeFromLlr | ft8_lib/ft8/decode.c:406-438 | whatever belief propagation sent, the accepted word is nonzero and is the code word of the payload handed out |
| Ft8Decode.ReceivedIsHeard | ft8_lib/ft8/decode.c:343-353 | tones received with the transmitted one strictly strongest give every code bit its sign |
| Ft8Decode.MixedIsAudible | ft8_lib/ft8/decode.c:326-332 | a word with both a 0 and a 1 always passes the silence threshold |
| Ft8Decode.OnAirInjective | ft8_lib/ft8/decode.c:385-400 | the bits on the air determine the payload bits, also through the FT4 scrambling |
| Ft8Decode.DecodeCandidate | ft8_lib/ft8/decode.c:343-404 | soundness as above, on the air; and for every payload and every capture in which each data tone is strictly strongest, the 77 bits come back exactly when the word is audible |
| CandidateHeap.RootLowest | ft8_lib/ft8/decode.c:220 | the root of the heap has the lowest score |
| CandidateHeap.MovedUp | ft8_lib/ft8/decode.c:516-530 | one exchange moves the only misplaced link one level up |
| CandidateHeap.HeapifyUp | ft8_lib/ft8/decode.c:513-531 | from a heap with a misplaced last entry, a heap of the same entries |
| CandidateHeap.HeapifyDown | ft8_lib/ft8/decode.c:480-511 | from a heap with a misplaced root, a heap of the same entries |
| CandidateHeap.Offer | ft8_lib/ft8/decode.c:215-232 | after every insertion a heap; kept plus dropped is everything eligible, nothing dropped beats anything kept, nothing is dropped while there is room |
| CandidateHeap.DomainEnumerates | ft8_lib/ft8/decode.c:207-214 | the four loops offer every position of the domain exactly once |
| CandidateHeap.FindCandidatesRange | ft8_lib/ft8/decode.c:196-241 | the heap holds the best of all eligible candidates of the range |
| CandidateHeap.SortDescending | ft8_lib/ft8/decode.c:248-256 | the heapsort leaves a descending permutation |
| CandidateHeap.FindCandidates | ft8_lib/ft8/decode.c:243-259 | the best candidates of the whole band in descending order |
| EditDistance.NearIsDistanceOne | gm/hf/cw_track.cc:49-52 | the recursive shape test is Levenshtein distance at most one |
| EditDistance.EditDistLE1 | gm/hf/cw_track.cc:52-68 | the linear test holds if and only if the Levenshtein distance is at most one |
| CallSigns.LooksLikeCall | gm/hf/cw_track.cc:10-27 | holds if and only if the token has the shape of a call |
| CallSigns.ExtractCall | gm/hf/cw_track.cc:33-47 | the first stripped call, else the token if it is a call, else nothing; never anything but a call |
| CallSigns.TokensKeepText | gm/hf/cw_track.cc:71-80 | splitting loses nothing but the spaces |
| CallSigns.Split | gm/hf/cw_track.cc:71-80 | the loop yields the maximal runs without spaces |
| CwTracker.FindPeaks | gm/hf/cw_track.cc:102-111 | exactly the local maxima at or above the gate, each once |
| CwTracker.SortPeaks | gm/hf/cw_track.cc:112-113 | the same peaks, strongest first |
| CwTracker.EffectiveGate | gm/hf/cw_track.cc:94-100 | the floor, or the multiple of a median when that is higher |
| CwTracker.Nearest | gm/hf/cw_track.cc:121-126 | the nearest free track within drift range, if there is one |
| CwTracker.Associate | gm/hf/cw_track.cc:119-143 | tracks are claimed by distinct peaks within drift range, unclaimed ones are unchanged, new ones are blank |
| CwTracker.Expire | gm/hf/cw_track.cc:145-148 | exactly the tracks idle for longer than the limit go, the others keep their order |
| CwTracker.Sightings | gm/hf/cw_track.cc:156-169 | exactly the calls that some token of the window yields |
| CwTracker.CountSightings | gm/hf/cw_track.cc:170-175 | each count stays the number of windows in which the call was heard |
| CwTracker.RecentBest | gm/hf/cw_track.cc:188-197 | comparing with the best count decides dominance over every recently heard call |
| CwTracker.SpotCalls | gm/hf/cw_track.cc:189-209 | spots only confirmed calls, none a variant of an earlier one, and every confirmed call is spotted or a variant of a spotted one |
| CwTracker.ApartMeans | gm/hf/cw_track.cc:199-205 | calls kept apart are different and at distance above one |
| CwTracker.SpottedSafely | gm/hf/cw_track.cc:150-210 | in every reachable state a spotted call was heard in at least `confirm` distinct windows on its track, is spotted there once, and is apart from the others |
| CwTracker.DecodeTrack | gm/hf/cw_track.cc:150-210 | one track's window: the history gains its sightings; only confirmed calls are spotted, at the track's frequency, and every confirmed one sighted is spotted or a variant of a spotted one |
| CwTracker.Tracker.Step | gm/hf/cw_track.cc:82-212 | keeps that invariant; matched tracks sit on distinct peaks, within drift range of where they were; no survivor is idle beyond the limit; each track in view gains exactly what DecodeTrack states, the others nothing; and the spots are those calls at those frequencies |
| Morse.AbsorbedTotal | gm/hf/cw_morse.cc:227-230 | absorbing a short run keeps the total time |
| Morse.GroupGrows | gm/hf/cw_morse.cc:227-230 | absorbing a short run extends the group before it by two runs |
| Morse.GroupingUnique | gm/hf/cw_morse.cc:226-232 | runs and glitch length leave only one way to cut the runs into groups |
| Morse.DeGlitch | gm/hf/cw_morse.cc:223-234 | each run that comes out is an odd number of consecutive runs, long first and then every second one short, with the polarity of the first and the time of all; before the first group only short runs are dropped, after the last at most one, a short one; the result alternates, none is short, and clean input is unchanged |
| Morse.TableCodes | gm/hf/cw_morse.cc:11-25 | every table entry is a nonempty string of dits and dahs |
| Morse.KeyedKeys | gm/hf/cw_morse.cc:90-97 | nominal 1/3/7 keying falls into the classes of elements and gaps |
| Morse.EveryTextKeyed | gm/hf/cw_morse.cc:11-25 | every text of words over the table's characters, with single spaces, has a nominal keying, which Replay turns back into it |
| Morse.Decoder.OnSpace | gm/hf/cw_morse.cc:90-97 | a gap below 1.73 dits changes nothing, a longer one flushes the symbol, one of 4.58 dits adds a space |
| Morse.NextLetter | gm/hf/cw_morse.cc:90-110 | the gap after the last element flushes exactly that letter |
| Morse.Decoder.Replay | gm/hf/cw_morse.cc:255-267 | whatever text the runs key, with marks and gaps anywhere inside their classes, comes out |
| SlotRing.StepKeeps | gm/cuda/FT8Cuda.cc:126-183 | every step of producer, stream and consumer keeps the invariant |
| SlotRing.RunSafe | gm/cuda/JS8Cuda.cc:139-270 | in every interleaving the indices stay within one ring, scans are handed out in order, once each, only with their own data, and a scheduled block up to the newest is missed if and only if it is neither accepted, nor under consideration, nor still open |
| SlotRing.MissedExactlyWhenNoRoom | gm/cuda/JS8Cuda.cc:145-160 | under either policy, a scheduled block that is behind and no longer considered was missed if and only if the producer never looked at it with room in the ring |
| SlotRing.RefusedAgain | gm/cuda/JS8Cuda.cc:155-158 | a refused block is open again if and only if the producer retries and it is still the newest; otherwise it is missed |
| SlotRing.RetryMisses | gm/cuda/JS8Cuda.cc:155-158 | a run in which the retrying producer, with all slots taken, misses a block |
| SlotRing.HeldSlotUntouched | gm/cuda/FT8Cuda.cc:262-309 | while the consumer holds a completed scan, no other step touches its slot |
| SlotRing.CallbackSeesItsScan | gm/cuda/FT8Cuda.cc:278-306 | the callback runs only after the slot's event, on the snapshot the scan was launched for |
| SlotRing.AcceptOnlyFree | gm/cuda/FT8Cuda.cc:128-138 | a slot is refilled only after its release, when no job for it is left in the stream |
| Jsc.WordValue | gm/hf/jsc.cc:47-57 | a word's index is the base of its depth plus the value of its digits and terminal |
| Jsc.PrefixInside | gm/hf/jsc.cc:50-54 | the early exit never fires inside a valid codeword |
| Jsc.EncodeInjective | gm/hf/jsc.cc:5-8 | distinct lists of words have distinct codes |
| Jsc.SplitGroups | gm/hf/jsc.cc:24-40 | pass 1 recovers the groups and the separator positions |
| Jsc.Decompress | gm/hf/jsc.cc:9-72 | for every list of words of a dictionary of at most base[7] entries, its code decompresses to its text |
| Text.TablesInverse | ft8_lib/ft8/text.c:215-294 | a character comes back from its index in every table, and the index is below the table's size |
| Text.TablesOnto | ft8_lib/ft8/text.c:215-294 | every index below the size comes back from its character |
| Text.TrimPadding | ft8_lib/ft8/text.c:33-43 | trimming undoes padding |
| Text.TrimCopy | ft8_lib/ft8/text.c:33-43 | the two loops trim both ends |
| Text.IntToDd | ft8_lib/ft8/text.c:182-213 | sign and decimal digits of the value, highest first |
| Text.DdToInt | ft8_lib/ft8/text.c:151-179 | the signed number spelled at the front of the text |
| Text.DdRoundTrip | ft8_lib/ft8/text.c:151-213 | two signed digits read back as the number they were written from |
| StdMessage.UnnumberNumber | ft8_lib/ft8/message.c:784-800 | the six characters come back from the mixed-radix number |
| StdMessage.BaseRoundTrip | ft8_lib/ft8/message.c:617-674 | a packable base call comes back if and only if it is not a raw 3D0 or Q alias |
| StdMessage.AliasesFail | ft8_lib/ft8/message.c:805-816 | two such aliases, which come back as the calls of Guinea and Eswatini |
| StdMessage.CallRoundTrip | ft8_lib/ft8/message.c:676-842 | every token and standard call, with its suffix, has a field below 2^28 and comes back from it |
| StdMessage.Pack28 | ft8_lib/ft8/message.c:676-731 | every call field, hashed ones included, is below 2^28 |
| StdMessage.GridRoundTrip | ft8_lib/ft8/message.c:898-995 | nothing, RRR, RR73, 73, every grid square and every report from -30 to 99 come back |
| StdMessage.BytesRoundTrip | ft8_lib/ft8/message.c:195-206 | fields that share bytes come back from the ten bytes |
| StdMessage.MessageRoundTrip | ft8_lib/ft8/message.c:157-398 | a standard message comes back from its fields as it was |
| StdMessage.EncodeStd | ft8_lib/ft8/message.c:157-209 | packs every standard message, refuses exactly what has no fields, with the reason, and then leaves the payload alone |
| StdMessage.DecodeStd | ft8_lib/ft8/message.c:355-398 | whatever standard message the payload carries, its three strings come out |

## Left out

- Floating-point rounding: all floats are real numbers; the accuracy of the approximated hyperbolic functions, convergence and error rates are not modelled.
- Word packing of matrix rows into 64-bit words: rows are sequences of bits.
- Aliasing of Python bytearrays in the inversion: rows are values in an array.
- OsdCore.OsdDecode: does not say which of several equally near codewords is returned, because nothing promises it.
- KissFactor.Alloc: the sines and cosines that fill the twiddle table are not computed; the table's laws are the hypothesis.
- The fixed-point and OpenMP variants of the transform, and its inverse real form.
- The literal code tables and the JSC dictionary: they are parameters, with their properties as hypotheses.
- Sync scores of the candidate search: the score of a position is a parameter.
- Merging of several searched frequency ranges.
- CwTracker.DecodeTrack: speed, level and the general-call flag of a spot are not specified; call and frequency are.
- CwTracker.Sightings: the general-call flag is specified only up to the shape of the tokens that raise it.
- The Morse threshold, smoothing, gain control and dit estimation, and the streaming form of the decoder.
- SlotRing.RunSafe: safety only; that a waiting consumer eventually proceeds depends on the GPU.
- Memory ordering finer than the two orders of flag and index: all other steps are sequentially consistent.
- Thread start and stop, watchdog logging, the candidate buffers inside a slot: a slot holds one snapshot and a count.
- Nonstandard, free-text and telemetry messages, and the callsign hash table: the hash is computed, its table is a parameter.
- CUDA kernels, sockets, files, audio, uploaders and user interfaces.
