# soundAlert / soundAnalyzer signal core in Dafny

This project models the signal-processing core of the ESP32 sound-alert firmware.

- **Windowing.** `getWeighingFactor` and `applyWindow` weight a frame of 2^log2N complex samples with one of ten window profiles.
- **Bit reversal.** `rearrangeForIFFT` permutes the frame into bit-reversed order. It uses a reversed counter driven by 32-bit unsigned bit tricks.
- **Butterflies.** `evaluateFFT` runs the iterative radix-2 butterfly network.
- **Composition.** `performFFT` chains the two and then clears bin 0.
- **Listening mode** (listenLogic.h).
  - It analyses a 1024-sample frame: Hamming window forward, then the forward transform.
  - It picks the peak bin with `getRellevantInfo`.
  - It updates the alert table with `alertMatching`. The table is the `AlertElement` records that `initAlerts` fills in.
- **Sound-information mode** (soundInfo.h). It repeats the analysis and also keeps `maxCounter`, a histogram of how often each bin was the peak. `analyzeSound` returns the peak as a pair.

Samples are exact complex numbers over the reals (`ComplexNumbers.Complex`). π, `cos` and `sin` form an uninterpreted `Trig` record. The few properties that need facts about them take those facts as explicit hypotheses: cos 0 = 1 (`Window.HannVanishesAtEdge`), cos even and 2π-periodic (`Window.CosEvenPeriodic`, for `Window.WeightSymmetric` and `Window.SymmetricWindowPointwise`), and every stage root on the unit circle (`Butterfly.UnitRoots`, for `Butterfly.StagesInvertible` and `Fft.EvaluatedInvertible`). Everything else holds for any values. The 32-bit `unsigned int` operators `~`, `&` and `^`, and the wrap of `mszb - 1`, are modelled literally on naturals below 2^w (module `Bits`); the bit-reversal lemmas hold for any width w above log2N, and the methods use w = 32. The buffers are immutable sequences: each in-place C routine becomes a method that returns the new buffer.

Modules follow the source files:

| module | models |
|---|---|
| `ComplexNumbers` | `float _Complex` arithmetic |
| `Bits` | powers of two, bit reversal, 32-bit `~ & ^` |
| `FftTypes` | fft.h enums `FftDir`, `WindowType` |
| `Window` | `getWeighingFactor`, `applyWindow` |
| `BitReversal` | `rearrangeForIFFT` |
| `Butterfly` | `evaluateFFT` |
| `Fft` | `performFFT` |
| `CooleyTukey` | the recursive transform that `rearrangeForIFFT` + `evaluateFFT` unroll |
| `Linearity` | linearity of the transform before and after bin 0 is cleared |
| `PeakSearch` | the scan shared by both `getRellevantInfo`s |
| `Alerts` | `AlertElement`, `initAlerts` |
| `ListenLogic` | listenLogic.h |
| `SoundInfo` | soundInfo.h |

## Model

| member | source | states |
|---|---|---|
| FftTypes.AngleSign | fft.h:43-46 | the two directions map to rotation signs −1 (forward) and +1 (inverse), and the forward one is the negative one |
| FftTypes.Ordinal | fft.h:51-62 | the ten window types take the values 0..9 and only RECTANGLE takes 0 |
| FftTypes.FromOrdinal | fft.h:51-62 | every value 0..9 names a window type whose value it is |
| FftTypes.OrdinalBijection | fft.h:51-62 | the value of a window type determines it: the enumeration is a bijection onto 0..9 |
| Window.RectangleIsIdentity | fft.cpp:26-27 | the default (rectangle) weight is 1 for every index and length, so windowing leaves the frame unchanged in both directions |
| Window.RationalWindowShape | fft.cpp:11-25 | for N ≥ 2 and 0 ≤ i ≤ N−1 the triangle and Welch weights are 0 at i = 0, lie in [0, 1] and agree at i and N−1−i |
| Window.WeightSymmetric | fft.cpp:3-27 | every window kind, Hamming included, is mirror-symmetric: w(i) = w(N−1−i) for N ≥ 2; the seven cosine sums need only that cos is even and 2π-periodic |
| Window.HannVanishesAtEdge | fft.cpp:9-10 | with cos 0 = 1 the Hann weight (coefficient 0.54 as written) is 0 at i = 0, so the inverse window has a zero divisor there |
| Window.Mirror | fft.cpp:34-37 | the loop index that reaches sample k is k itself or N−1−k, whichever is smaller |
| Window.ApplyWindow | fft.cpp:31-44 | after the mirror-pair loop each sample k is multiplied (forward) or divided (inverse) by w(min(k, N−1−k)); for N ≥ 2 (a power of two, so even) every index is reached; for N = 1 the loop does not run and the sample is returned unchanged |
| Window.WeighPair | fft.cpp:35-42 | one iteration takes the buffer from "every sample nearer an end than i carries its weight w(min(k, N−1−k)), the rest hold their input" to the same statement for i + 1 |
| Window.WindowRoundTrip | fft.cpp:35-42 | inverse windowing after forward windowing restores every sample when no weight is zero |
| Window.ZeroWeightErases | fft.cpp:35-38 | a zero weight at i wipes both samples i and N−1−i in the forward direction |
| Window.SymmetricWindowPointwise | fft.cpp:34-43 | for every window kind on an even-length frame (cosine sums: with cos even and 2π-periodic), mirroring the weight index changes nothing: forward windowing multiplies each sample k by w(k), and when no weight is zero inverse windowing divides it by w(k) |
| Bits.RevInvolution | fft.cpp:46-61 | reversing the low log2N bits twice gives the index back |
| BitReversal.LowestZeroBitOf | fft.cpp:57 | `~i & (i + 1)` on a word of w bits (32 in the firmware) is 2^t, t being the number of trailing one bits of i |
| BitReversal.FlipMaskBits | fft.cpp:57-59 | `Nm1 & ~(Nd2 / lszb - 1)` has exactly bits L−1−t … L−1 set |
| BitReversal.ReversedSuccessorIsNextReversal | fft.cpp:57-60 | the update `j ^= bits` turns the reversal of i into the reversal of i + 1 |
| BitReversal.SuccessorStaysInRange | fft.cpp:57-60 | the update keeps j below N for any i and j below N |
| BitReversal.SwapStep | fft.cpp:52-56 | swapping i with rev(i) when rev(i) > i finishes index i: afterwards every index below i+1, and every index whose reversal is below i+1, holds its permuted value, and the rest are untouched |
| BitReversal.Rearrange | fft.cpp:46-62 | with i starting at 0, j equals rev(i) throughout, and the swaps leave data'[k] = data[rev(k)], a permutation of the input |
| BitReversal.BitReversedInvolution | fft.cpp:46-62 | applying the bit-reversal permutation twice is the identity |
| BitReversal.RearrangeAsWritten | fft.cpp:51-61 | with the uninitialised i starting at i0, the entries below i0 are never touched, and for N ≥ 4 with data[1] ≠ data[N/2], from i0 ≥ 2 the result is not the bit-reversed buffer |
| BitReversal.EntryOneMoves | fft.cpp:51-61 | the permutation moves entry 2^(L−1) to index 1, an index the loop never writes when it starts at i0 ≥ 2 |
| Butterfly.DirectionFlipsAngle | fft.cpp:66-75 | the inverse direction uses the negated angle of the forward one; nothing else differs |
| Butterfly.StagePairsPartition | fft.cpp:76-80 | in a stage with half-block m/2 every index is the even or odd input of exactly one butterfly, and i_e < i_o = i_e + m/2 < N |
| Butterfly.EntriesOfButterfly | fft.cpp:79-83 | the stage leaves e + Wm^k·o at i_e and e − Wm^k·o at i_o |
| Butterfly.StageInvertible | fft.cpp:76-87 | a stage loses nothing when its root Wm has an inverse v: halving the sum and the difference of each butterfly's outputs and multiplying the odd one by v^k gives the buffer back |
| Butterfly.StagesInvertible | fft.cpp:69-88 | when every stage root lies on the unit circle, undoing stages log2N … 1 with the conjugate roots gives back the buffer the stages started from |
| Butterfly.EvaluateBlock | fft.cpp:77-86 | the k loop of one block, with Wmk restarted at 1 and equal to Wm^k at every step, performs exactly that block's butterflies |
| Butterfly.EvaluateStage | fft.cpp:76-87 | the n loop of one stage performs every butterfly of the stage once |
| Butterfly.EvaluateFFT | fft.cpp:64-89 | the buffer after the r loop is the composition of stages 1..log2N, stage r using m = 2^r and root (cos θ, sin θ), θ = ∓2π/m |
| Fft.EvaluatedInvertible | fft.cpp:46-89 | with stage roots on the unit circle, the bare transform is undone by the inverse stages followed by the bit-reversal permutation again, so distinct frames give distinct spectra |
| Fft.PerformFFT | fft.cpp:91-95 | performFFT is bit reversal, then the stages, then bin 0 set to 0, in both directions; every other bin keeps the bare transform's value |
| Fft.TransformDiffersOnlyAtZero | fft.cpp:94 | the post-operation changes bin 0 alone |
| Fft.OnePointTransform | fft.cpp:91-95 | a one-sample frame transforms to [0] |
| Fft.TwoPointTransform | fft.cpp:91-95 | for N = 2 the result is [0, a − b] in both directions |
| CooleyTukey.DecimateSubSignal | fft.cpp:76-80 | the even and odd samples of the subsequence of stride 2^b at off are the subsequences of stride 2^(b+1) at off and off + 2^b, so each butterfly's i_e and i_o = i_e + m/2 gather the halves the recursion splits off |
| CooleyTukey.StageMergesBlocks | fft.cpp:76-86 | if the two halves of a block of m = 2h entries hold e and o, one stage leaves the block holding the merge of e and o: bin k is e[k] + Wm^k·o[k] and bin k + h is e[k] − Wm^k·o[k] |
| CooleyTukey.RecSplits | fft.cpp:69-75 | the recursive transform of a subsequence is the merge, with the stage root of its length, of the transforms of its even and odd samples |
| CooleyTukey.StageOfBlocks | fft.cpp:69-88 | stage r turns two neighbouring blocks that hold the transforms of a subsequence's even and odd samples into one block holding the subsequence's transform |
| CooleyTukey.BlockIsRecursive | fft.cpp:46-88 | after r stages on the bit-reversed buffer, block q of 2^r entries holds the recursive transform of the samples rev_b(q), rev_b(q) + 2^b, … with b = log2N − r |
| CooleyTukey.EvaluatedIsRecursive | fft.cpp:46-89 | `rearrangeForIFFT` followed by `evaluateFFT` computes exactly the recursive decimation-in-time Cooley–Tukey transform, in both directions and whatever values cos and sin take |
| CooleyTukey.TransformIsRecursive | fft.cpp:91-95 | `performFFT` is the recursive Cooley–Tukey transform with bin 0 cleared |
| Linearity.StageAdditive | fft.cpp:79-85 | one stage maps the sum of two buffers to the sum of their stages |
| Linearity.StageHomogeneous | fft.cpp:79-85 | one stage commutes with multiplying every sample by a complex constant |
| Linearity.StagesAdditive | fft.cpp:69-88 | the whole butterfly network is additive |
| Linearity.StagesHomogeneous | fft.cpp:69-88 | the whole butterfly network is homogeneous for complex factors |
| Linearity.EvaluatedLinear | fft.cpp:46-89 | `evaluateFFT ∘ rearrangeForIFFT` is linear: the transform of a + b is the sum of the transforms and the transform of c·a is c times that of a |
| Linearity.TransformLinear | fft.cpp:91-95 | `performFFT` stays linear after bin 0 is cleared |
| PeakSearch.ScanPeak | listenLogic.h:182-191 | the scan of bins [1, n) with strict `>` gives the first maximum: index 0 or in [1, n), amplitude ≥ 0 bounding every bin, the chosen bin carrying it and every earlier bin strictly below, (0, 0) when nothing is positive |
| PeakSearch.FirstPeakUnique | listenLogic.h:183-189 | at most one (amplitude, index) pair has that description |
| PeakSearch.DefaultsIffNoPositiveBin | listenLogic.h:183-189 | the index stays 0 exactly when no scanned bin has a positive real part, and exactly when the amplitude stays 0 |
| PeakSearch.PeakIgnoresBinZero | listenLogic.h:185 | bin 0 has no influence on the result |
| Alerts.InitAlerts | alerts.h:54-80 | after initAlerts both alerts are inactive with a nonempty iterator range, frequency within `unsigned short` and a positive threshold; intensity mark 0 is the static table's zero initialisation, which initAlerts never writes, so it holds on the first call only |
| Alerts.InitialTable | alerts.h:56-73 | alert 0 has range [92, 93], threshold 40000 and 1400 Hz, alert 1 has [85, 86], 20000 and 1300 Hz, and the ranges are disjoint |
| ListenLogic.FrameLengthIsPowerOfTwo | listenLogic.h:175 | the frame of 1024 samples is 2^10 long, the exponent handed to the transform |
| ListenLogic.AnalyzeSound | listenLogic.h:174-180 | the frame's spectrum is the forward transform of its forward Hamming-windowed samples, with bin 0 cleared |
| ListenLogic.GetRelevantInfo | listenLogic.h:182-191 | the loop's result is the first strict peak of bins [1, 1024) |
| ListenLogic.TruncToInt | listenLogic.h:201 | storing the float amplitude into the int mark truncates toward zero |
| ListenLogic.LastMatchBelow | listenLogic.h:197-205 | the alert the loop leaves active is the highest-indexed firing one |
| ListenLogic.ClearOthers | listenLogic.h:202-204 | the inner loop clears every status except alert i's and changes nothing else |
| ListenLogic.AlertMatching | listenLogic.h:195-208 | returns true iff some alert has maxI equal to its mark and amplitude strictly above its threshold; the table afterwards marks every firing alert's intensity, and the last firing alert is the only active one; with no firing alert the table is unchanged |
| ListenLogic.MatchActivatesLast | listenLogic.h:198-205 | on a match exactly one alert is active, the last firing one, and it carries the truncated amplitude |
| ListenLogic.NoMatchKeepsTable | listenLogic.h:196-207 | without a match no status or mark is reset |
| ListenLogic.MatchingKeepsFixedPart | listenLogic.h:200-204 | frequency, threshold, range and iterator mark are never written |
| ListenLogic.MatchingIdempotent | listenLogic.h:195-208 | matching the same peak twice gives the same table as matching it once |
| ListenLogic.MatchingIgnoresFreq | listenLogic.h:198 | tables that differ only in the informational frequency get the same verdict and the same update |
| ListenLogic.ListenCycle | listenLogic.h:218-220 | one listening cycle finds the spectrum's first peak and applies the alert update for it |
| SoundInfo.BumpAddsOne | soundInfo.h:120 | incrementing one counter raises the histogram total by exactly one |
| SoundInfo.GetRelevantInfo | soundInfo.h:111-122 | the same first-strict-peak result as the listening mode, after which counter maxI, bin 0 included, goes up by one and no other counter changes |
| SoundInfo.AnalyzeSound | soundInfo.h:124-137 | the returned pair is exactly the peak of the frame's spectrum, and the histogram is bumped at its index |
| SoundInfo.TallyCounts | soundInfo.h:18-120 | across calls each counter equals its start value plus the number of calls that chose its bin, so counters never decrease and the total grows by one per call |

## Left out

- Sound acquisition (`getSound`: ADC reads and busy-wait sampling period): the frame is a parameter.
- Display output. This covers `printListeningLogo`, `drawAlertImages`, `printAlert`, both `showListeningInfo`s (including the Hz conversion), `displaySoundInfo`, and the `bestThree` ranking of soundInfo.h:67-83.
  - The ranking is display-coupled and keeps state across calls.
  - Line 81 reads `maxCounter[LISTEN_SAMPLES]` before it checks the bound.
- `listen`'s timing and power bookkeeping: `lastActivity`, `awakeDuration`, the static `alert` flag and the `mode` test. Board setup, buttons and deep sleep are out too. Only the computation at listenLogic.h:218-220 is modelled.
- Image fields of `AlertElement` (positions and bitmaps): display data.
- `Pair` (pair.h): a Dafny tuple.
- Floating-point rounding: all arithmetic is exact. The numeric values of π, `cos` and `sin` are uninterpreted: the cosine-window coefficients are kept but never evaluated, and the cosine windows' symmetry is proved only from the hypothesis that cos is even and 2π-periodic.
- Stage roots on the unit circle: cos and sin are uninterpreted, so cos² + sin² = 1 cannot be derived. `Butterfly.StagesInvertible` and `Fft.EvaluatedInvertible` therefore take it as a requirement (`UnitRoots`).
- The forward/inverse round trip (inverse transform of the forward transform is N times the frame). This needs the inverse roots to be powers of the conjugates of one primitive root of unity, which uninterpreted cos and sin do not give. The model proves the weaker fact that the transform loses nothing (`Fft.EvaluatedInvertible`) with an explicit inverse network.
- Equivalence with the closed-form discrete Fourier transform sum. The network is proved equal to the recursive Cooley–Tukey transform (`CooleyTukey.EvaluatedIsRecursive`). But cos and sin are uninterpreted, so the stage roots are not known to be powers of one primitive root of unity. The step from the recursion to the sum therefore cannot be stated.
- Window.ApplyWindow: the inverse direction requires every weight to be nonzero. The firmware divides unguarded, and with floats a zero weight gives an infinite or NaN sample.
- Window.Weight: every window except the rectangle requires N ≥ 2, because the divisor is N − 1. The firmware only calls it with N = 2^log2N, and for N = 1 the loop does not run.
- Window.HannVanishesAtEdge: the Hann coefficient is 0.54, as written, not the textbook 0.5.
- `getWeighingFactor`'s third parameter is named `shiftedLog2N`, but `applyWindow` passes N, and the model follows the call.
- BitReversal.Rearrange: it starts the counter i at 0, the evident intent. The code as written is `BitReversal.RearrangeAsWritten`; see Findings.
- Alerts.InitAlerts: models the first call, on the zero-initialised static table. `initAlerts` clears `alertStatus` but never writes `intensityMark`, so a later call would keep the mark the listening loop left there.
- ListenLogic.TruncToInt: a float amplitude outside the range of `int` makes the C conversion undefined. This is not modelled.
- SoundInfo.GetRelevantInfo: counters are unbounded integers. The overflow of a 32-bit `int` counter after 2^31 − 1 hits is not modelled.
- ListenLogic.FrameLengthIsPowerOfTwo: `log(1024) / log(2)` is taken to be exactly 10 when stored in an int. A quotient rounded just below 10 would truncate to 9.
- The `iteratorMark` field read at listenLogic.h:198 is not declared by `AlertElement`. The model keeps it as an opaque per-alert integer: `initAlerts` takes it as a parameter, and no range semantics is assumed.
- listenLogic.h and soundInfo.h both define `LISTEN_SAMPLES = 1024` and `getSound`. The model defines the constant once (`ListenLogic.LISTEN_SAMPLES`) and keeps the two `getRellevantInfo`s separate.

## Findings

| source | as written | input that shows it | evidently intended | confidence | as-written member | corrected member |
|---|---|---|---|---|---|---|
| fft.cpp:51 | `for (unsigned int i, j = 0; …)` declares `i` without an initial value, so the permutation loop starts from whatever `i` holds | any frame with N ≥ 4 and data[1] ≠ data[N/2], entered with i ≥ 2: entry 1 is never swapped, so the result is not the bit-reversed buffer | `unsigned int i = 0, j = 0`, so that the loop visits every index and `j` tracks rev(i) | high for the defect; not executed | BitReversal.RearrangeAsWritten | BitReversal.Rearrange |
