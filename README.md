# HDR calibrator core, modelled in Dafny

The HDR calibrator is a small Windows program that switches a Direct3D swap
chain to HDR10 and lets the user adjust a target peak brightness from the
keyboard. This project models its two pieces of logic:

- **`hdr_utils.dfy`, module `HdrUtils`** (from `hdr_utils.h`): the SMPTE ST 2084
  perceptual quantizer (PQ). `NitsToPQ` encodes linear luminance in nits as a
  PQ code value and `PQToNits` decodes it. The ST 2084 constants are kept as
  the exact rationals behind the source's single-precision literals. The
  module also has the `RgbNits` triple with its per-channel `ToPQ`, `FromGray`
  and presets, and the linear SDR helpers `SDRToNits` and `NitsToSDR`.
  Single-precision `powf` cannot be written in Dafny, so every operation that
  uses it takes the power function as a parameter `pow` of type `Power`. All
  the type requires is that a non-negative base never gives a negative
  result. Without further assumptions, only the guard branches, the clamping
  and channel independence are proved. Under stated laws of exact
  exponentiation the lemmas prove more:
  - `PositiveOnPositive`, `Invertible`: decoding undoes encoding for every
    positive luminance, and encoding undoes decoding for every code that
    decodes to a positive luminance;
  - `OneIsFixed`: 10000 nits encodes to exactly 1;
  - `MonotoneInBase`: encoding is monotone.
- **`calibrator.dfy`, module `HdrCalibrator`** (from `main.cpp`): the HDR10
  negotiation `InitHDR` and the keyboard poll `UpdateInput`. The program's
  globals `g_hdrEnabled` and `g_maxNits` are the fields of a `Calibrator`
  object. That object also keeps a log, `pipelineCalls`, of every call made
  on the swap chain. The answers of those calls are the input `responses`.
  From the keyboard, the model sees only the 256-byte state array of each
  poll, or the fact that the read failed. The target brightness is an `int`:
  every value it can reach is a multiple of 10 in [80, 10000], and the code's
  float arithmetic is exact on those values (and on the step to 10010 before
  the clamp).

The program submits the HDR10 metadata once, inside `InitHDR`
(main.cpp:280). `UpdateInput` changes the target but never re-submits, and it
is proved to leave the call log unchanged.

## Model

| member | source | states |
|---|---|---|
| `HdrUtils.NitsToPQ` | hdr_utils.h:18-32 | the code is never negative; every luminance <= 0 gives code 0 whatever the power function |
| `HdrUtils.PQToNits` | hdr_utils.h:35-50 | the luminance is never negative (the numerator is clamped at 0); a code <= 0 gives 0; a code whose denominator C2 - C3 * code^(1/M2) is <= 0 gives 0 |
| `HdrUtils.EncodeRatioInverts` | hdr_utils.h:26-47 | the decoder's rational step (p - C1) / (C2 - C3 * p) inverts the encoder's (C1 + C2 * l) / (1 + C3 * l) for l >= 0, with a positive denominator and a result of at least C1 |
| `HdrUtils.DecodeRatioInverts` | hdr_utils.h:26-47 | the encoder's rational step inverts the decoder's for C1 < s < C2 / C3, and the decoded ratio is positive |
| `HdrUtils.EncodeRatioMonotone` | hdr_utils.h:26-29 | the encoder's rational step is non-decreasing on l >= 0 |
| `HdrUtils.DecodeEncode` | hdr_utils.h:18-50 | for a power function that is positive on positive bases and invertible, PQToNits(NitsToPQ(n)) == n for every n >= 0 |
| `HdrUtils.EncodeDecode` | hdr_utils.h:18-50 | under the same laws, NitsToPQ(PQToNits(p)) == p for every code p > 0 whose 1/M2-th power lies strictly between C1 and C2 / C3 |
| `HdrUtils.EncodePeak` | hdr_utils.h:15-31 | if 1 to any power is 1, then 10000 nits encodes to exactly 1 |
| `HdrUtils.EncodeMonotone` | hdr_utils.h:18-32 | if the power function is monotone in its base, then more nits never give a smaller code |
| `HdrUtils.EncodeInUnitInterval` | hdr_utils.h:18-32 | under monotonicity and 1^a = 1, every luminance in [0, 10000] encodes into [0, 1] |
| `HdrUtils.RgbNits.ToPQ` | hdr_utils.h:61-66 | each output channel is NitsToPQ of the matching input channel, and none is negative |
| `HdrUtils.ToPQChannelsIndependent` | hdr_utils.h:61-66 | two triples that agree on one channel get the same code on that channel, whatever their other channels |
| `HdrUtils.RgbNits.FromGray` | hdr_utils.h:69-72 | r = g = b = the given luminance |
| `HdrUtils.GrayEncodesToGray` | hdr_utils.h:61-72 | a gray encodes to three equal codes, each NitsToPQ of the gray level |
| `HdrUtils.RgbNits.Default` | hdr_utils.h:57 | the argument-less constructor gives (0, 0, 0) |
| `HdrUtils.RgbNits.White100Nits` | hdr_utils.h:75 | the gray of 100 nits |
| `HdrUtils.RgbNits.White203Nits` | hdr_utils.h:76 | the gray of 203 nits, the SDR reference white |
| `HdrUtils.RgbNits.White1000Nits` | hdr_utils.h:77 | the gray of 1000 nits |
| `HdrUtils.RgbNits.Black` | hdr_utils.h:78 | the gray of 0 nits, the same as the argument-less constructor |
| `HdrUtils.BlackEncodesToZero` | hdr_utils.h:61-78 | Black().ToPQ is (0, 0, 0) for every power function |
| `HdrUtils.SDRToNits` | hdr_utils.h:82-85 | SDR 1.0 maps to the given white level; non-negative SDR with a positive white gives non-negative nits |
| `HdrUtils.NitsToSDR` | hdr_utils.h:88-91 | for a non-zero white the result is finite and times the white gives the nits back; a white of 0 gives the IEEE 754 x / +0 result: +inf for positive nits, -inf for negative nits, NaN for 0 |
| `HdrUtils.SdrRoundTrip` | hdr_utils.h:82-91 | NitsToSDR(SDRToNits(s, w), w) = s for every w != 0 |
| `HdrUtils.NitsRoundTrip` | hdr_utils.h:82-91 | SDRToNits(NitsToSDR(n, w), w) = n for every w != 0 |
| `HdrUtils.SdrDefaultWhite` | hdr_utils.h:82-91 | the default white is 80 nits: SDR 1.0 is 80 nits and back |
| `HdrCalibrator.MetadataFor` | main.cpp:266-278 | fixed primaries R (34000,16000), G (13250,34500), B (7500,3000) and white point (15635,16450); minimum mastering luminance 1; content light level = nits; mastering maximum = content light level * 10000; frame average = half the content light level, rounded down; every field fits its UINT16 / UINT type; defined for targets in [0, 10000], where the single-precision fill is exact |
| `HdrCalibrator.InitialMetadata` | main.cpp:266-278 | at the initial 1000 nits the record carries 10_000_000, 1000 and 500 |
| `HdrCalibrator.ReachableHasMetadata` | main.cpp:275-278 | every reachable target lies where the metadata fill is exact, and its mastering maximum is at most 100_000_000 |
| `HdrCalibrator.AdjustNits` | main.cpp:353-364 | a target in [80, 10000] stays in [80, 10000] and moves by at most 10; a reachable target (a multiple of 10 in that range) stays reachable; with neither key held it is unchanged |
| `HdrCalibrator.RaiseKey` | main.cpp:353-358 | holding only "=" gives min(nits + 10, 10000), which is larger than the old value below 10000 |
| `HdrCalibrator.LowerKey` | main.cpp:359-364 | holding only "-" gives max(nits - 10, 80), which is smaller than the old value above 80 |
| `HdrCalibrator.BothKeys` | main.cpp:353-364 | with both keys held the raise is applied first, so a target in [80, 10000] is unchanged unless it is above 9990, when it becomes 9990; for reachable targets only 10000 moves |
| `HdrCalibrator.PollsStayReachable` | main.cpp:353-364 | for every sequence of polls and every key state in them, a reachable target stays reachable |
| `HdrCalibrator.FailedPollsKeepNits` | main.cpp:345-349 | polls without a successful keyboard read leave the target unchanged |
| `HdrCalibrator.Calibrator.constructor` | main.cpp:42-43 | the program starts with HDR off, a target of 1000 nits and no pipeline calls |
| `HdrCalibrator.Calibrator.InitHDR` | main.cpp:244-287 | returns true iff the interface query succeeds, the support check succeeds with the PRESENT flag, and SetColorSpace1 succeeds, whatever SetHDRMetaData answers; hdrEnabled becomes true exactly on success, and the logged submission records that the flag was already true when it was made; the exact calls made in each case; on success exactly one metadata record, MetadataFor(maxNits) of kind HDR10, is submitted, and otherwise none; the target is unchanged |
| `HdrCalibrator.Calibrator.UpdateInput` | main.cpp:338-379 | the new target is AdjustNits of the old one for a successful keyboard read and the old one otherwise; reachability is preserved; hdrEnabled and the pipeline log are unchanged; the keyboard and then the mouse are asked to reacquire exactly when their reads fail |

## Left out

- Window class, window creation, the message loop and `WndProc` (main.cpp:45-139): user-interface plumbing. A run of the loop's polls is modelled by `AfterPolls`.
- `InitD3D`, `Render`, `CleanupD3D` and `CleanupDirectInput`: calls into the graphics API with no logic of their own.
- `InitDirectInput` (main.cpp:289-336): device creation and acquisition. The model only sees what a keyboard or mouse read yields; an `Acquire` request is returned by `UpdateInput` as `reacquire`, and its result is ignored, as in the source.
- Single-precision arithmetic: `pow` is exact and abstract, and the linear helpers use exact reals. Rounding of `powf`, of `1.0f / PQ_M2` and of the products is not modelled. NaN and infinite inputs are not modelled either. A positive luminance so small that nits / 10000 underflows to 0 encodes to 0 in the source; the model takes the power branch for it.
- The numeric values of the PQ curve (for example 100 nits near code 0.508, or round-trip accuracy in single precision): they depend on `powf` itself.
- NitsToSDR: does not model signed zero; a white level of -0.0, which in IEEE 754 flips the sign of the infinity, is the same real as +0.0.
- MetadataFor: requires 0 <= nits <= 10000. Above that the source computes nits * 10000 in single precision, which can round (26845 nits gives 268449984, not 268450000), and the model's exact integer product would not match. Every reachable target lies inside the range (`ReachableHasMetadata`), and `InitHDR` requires the program invariant `Valid()`.
- Re-submitting the metadata when the target changes: the source never does it.
