# Medipix sensor engine, modelled in Dafny

This project models the sensor engine of a Medipix photon-counting detector
simulator. A sensor is a grid of `nx x ny` square pixels with a pitch of
55 micrometres. A photon lands at a position with an energy. Its charge
spreads as a Gaussian cloud of width `psf_sigma` over a square window of
pixels around its home pixel. Each pixel in the window collects a share of
the energy through the error function. The image is a row-major array of
32-bit counters, with pixel `(i, j)` at cell `i * ny + j`.

The model covers four parts of the engine:

- **The base sensor class** (`Detector.Medipix`) holds the frame life
  cycle, the geometry, the charge-sharing formula and the counters. In
  timed mode it also keeps one event list per pixel and the preamplifier
  response. That response is a linear ramp from 1 to 0 over the first
  microsecond, sampled at 100 points per microsecond over 2 microseconds.
- **Single-pixel mode** (`SinglePixelMode`) decides per pixel:
  - without timing, a pixel counts at once when its share is strictly
    above `th0` plus its own threshold offset;
  - with timing, every pixel of the window records an event. At the end of
    the frame each pixel's sampled pile-up signal is built, and its strict
    upward threshold crossings are counted into the image.
- **Charge-summing mode** (`ChargeSummingMode`) only delegates to the base
  class, so it never counts anything.
- **The legacy snapshot** (`LegacyDetector.Medipix`) is the older untimed
  256 x 256 class. It has a heap buffer image, one global threshold, a
  default `psf_sigma` of 15 and an early reject for photons below the
  threshold.

Shared, side-effect-free parts are separate modules:

- `PixelGeometry`: flat indexing, position to pixel and back, sensor
  extent, and charge sharing with its block-conservation law.
- `Neighbourhood`: enumeration of the `[-r, r)` window.
- `Pileup`: the response, the signal and the crossing count, as
  specification functions.
- `Numerics`: truncating casts, `std::max` and 32-bit wrap-around.

Modelling choices:

- **Numbers.** Floats are modelled as `real`. `std::numbers::sqrt2` is the
  float32 value it is rounded to. `erf` is a function supplied at
  construction, and oddness is assumed only in the one lemma that needs it.
  The `int(...)` casts truncate toward zero (`Numerics.Trunc`). The
  `unsigned int` counters wrap modulo 2^32.
- **Position to pixel.** `get_pixel_index` is modelled as written, with its
  `- 0.5` term. A position therefore maps to the pixel whose centre `c`
  satisfies `c <= pos < c + pitch`, not to the pixel whose cell contains
  it. Positions whose index expression lies in (-1, 0) truncate to pixel 0.
- **What the code has.** The code has no explicit state machine or
  invalid-state error. A second threshold `th1` is declared for the
  charge-summing variant, but no code uses it. There is no second-order or
  gain-dependent response and no gain-range validation. The model
  follows the code. Where the code would index out of range, the model has
  a precondition instead, for example counting before `start_frame` has
  sized the image, or reading pixel signals of an untimed sensor.
- **Window order.** The window is enumerated in the code's nested-loop
  order. The proofs use the fact that this order is strictly
  lexicographic, so each pixel is visited once.

## Model

| member | source | states |
|---|---|---|
| Numerics.Trunc | src/Medipix.cpp:71-72 | the C++ cast truncates toward zero: for r >= 0, t <= r < t + 1; for r < 0, t - 1 < r <= t |
| Numerics.Max | src/Medipix.cpp:170 | `std::max` is an upper bound of both arguments and equals one of them |
| Numerics.AddMod | src/Medipix.cpp:99-102 | an `unsigned int` increment stays below 2^32 and is the plain sum when it does not overflow |
| Numerics.AddModStep | src/MedipixSPM.cpp:87-91 | repeated `+= 1` on a counter is one addition of the number of increments, modulo 2^32 |
| Numerics.AddModAccumulate | src/Medipix.cpp:104-112 | wrapping the accumulator at every step equals wrapping the plain sum once |
| Numerics.SumUpdate | src/Medipix.cpp:99-112 | changing one cell changes the image total by the difference |
| Numerics.SumIncrement | src/Medipix.cpp:99-112 | incrementing one cell, with wrap, increments the total by one modulo 2^32 |
| Numerics.SumOfZeros | src/Medipix.cpp:28-40 | a blank image has total 0 |
| PixelGeometry.Flat | src/Medipix.cpp:99-102 | the flat index `i * ny + j` of an in-grid pixel lies below nx * ny |
| PixelGeometry.Row | src/MedipixSPM.cpp:83 | `index / ny` of an in-range index is a valid row |
| PixelGeometry.Col | src/MedipixSPM.cpp:84 | `index % ny` of an in-range index is a valid column |
| PixelGeometry.FlatInjective | src/Medipix.cpp:101 | distinct in-grid pixels occupy distinct cells |
| PixelGeometry.FlatOfRowCol | src/MedipixSPM.cpp:82-84 | splitting a flat index into row and column and flattening again gives the same index |
| PixelGeometry.RowColOfFlat | src/MedipixSPM.cpp:82-84 | the loop's split of `i * ny + j` gives back `(i, j)`, so every pixel is visited exactly once |
| PixelGeometry.PixelIndexOfCenter | src/Medipix.cpp:70-80 | the index of a pixel's centre is that pixel, for every non-negative index |
| PixelGeometry.PixelIndexBrackets | src/Medipix.cpp:70-74 | for a non-negative index expression, the returned pixel's centre c satisfies c <= pos < c + pitch |
| PixelGeometry.OffsetFromCenter | src/Medipix.cpp:70-80 | the distance from a pixel centre is pitch times the index expression minus the index |
| PixelGeometry.PixelIndexTruncatesAtLowEdge | src/Medipix.cpp:71-72 | a position whose index expression lies in (-1, 0) maps to pixel 0 although it lies below that pixel's centre |
| PixelGeometry.PixelsTileExtent | src/Medipix.cpp:42-80 | min = -max, pixel i spans [min + i * pitch, min + (i + 1) * pitch], and the last pixel ends at max |
| PixelGeometry.SharedEnergyLinear | src/Medipix.cpp:82-96 | the shared energy is linear in the photon energy |
| PixelGeometry.SharedEnergyTranslation | src/Medipix.cpp:82-96 | the shared energy depends only on the offsets between the photon and the pixel centre |
| PixelGeometry.MirrorPixelsShareEqually | src/Medipix.cpp:82-96 | with an odd erf, pixels mirrored about the photon's x collect equal shares |
| PixelGeometry.RowSumFactors | tests/charge_sharing.cpp:69-72 | summing a product share over a row factors into the row's x share times the sum of the y shares |
| PixelGeometry.GridSumFactors | tests/charge_sharing.cpp:68-73 | summing a product share over a block factors into the product of the two axis sums |
| PixelGeometry.LineSumTelescopes | src/Medipix.cpp:84-92 | a sum of consecutive differences collapses to last edge minus first edge |
| PixelGeometry.QuarterGridSum | tests/charge_sharing.cpp:68-73 | the block sum of 0.25 * E times the two axis shares is 0.25 * E times the product of the axis sums |
| PixelGeometry.QuarterConservation | tests/charge_sharing.cpp:55-97 | when the axis sums telescope, the block sum is 0.25 * E times the product of the two edge spans |
| PixelGeometry.DepositsAreSharedEnergy | src/Medipix.cpp:82-96 | the factored deposit of pixel (i, j) is the shared energy at that pixel's centre |
| PixelGeometry.AxisSharesTelescope | src/Medipix.cpp:84-92 | a pixel's axis share is the erf at its upper edge minus the erf at its lower edge, and the upper edge of pixel i is the lower edge of pixel i + 1 |
| PixelGeometry.AxisSumEdges | src/Medipix.cpp:84-92 | the axis shares of a run of pixels sum to the erf span across the whole run |
| PixelGeometry.BlockEnergyConservation | tests/charge_sharing.cpp:55-97 | the energy deposited in any block of pixels is 0.25 * E * (erf(U) - erf(L)) * (erf(U') - erf(L')) over the block's outer edges |
| Neighbourhood.CollectWindow | src/MedipixSPM.cpp:36-43 | the list holds exactly the in-grid pixels of the `[-r, r)` window, in strictly increasing order, with at most (2r)^2 entries and none when r <= 0 |
| Neighbourhood.CollectRow | src/MedipixSPM.cpp:37-42 | one inner-loop pass appends exactly the in-grid pixels of one window row, in order |
| Neighbourhood.NotYetVisited | src/MedipixSPM.cpp:44-53 | a pixel of the ordered window list is not met again later, so each pixel is visited once |
| Pileup.KrumResponseShape | src/Medipix.cpp:175-190 | the response has 2 * samples entries, starts at 1, stays in [0, 1], is 0 from the first microsecond on and never rises |
| Pileup.PartialContributionStep | src/Medipix.cpp:198-202 | one step of the response loop adds energy * response[k] to sample start + k only |
| Pileup.PartialContributionComplete | src/Medipix.cpp:198-202 | after the whole response loop, an event has contributed its full contribution |
| Pileup.SignalAtSnoc | src/Medipix.cpp:196-203 | one more event adds its contribution to every sample |
| Pileup.SignalAtAppend | src/Medipix.cpp:196-203 | the signal of two event lists is the sum of their signals |
| Pileup.SignalOrderIndependent | src/Medipix.cpp:196-203 | event lists that are permutations of each other give the same signal |
| Pileup.SignalWithout | src/Medipix.cpp:196-203 | the signal is the signal without one event plus that event's contribution |
| Pileup.LateEventIsCutOff | src/Medipix.cpp:197-200 | an event starting after sample n does not change sample n |
| Pileup.EventAtMaxTimeIsCutOff | src/Medipix.cpp:194-200 | an event at time `max_time` changes no sample of the truncated buffer |
| Pileup.NoEventsZeroSignal | src/Medipix.cpp:192-205 | a pixel without events has an all-zero signal |
| Pileup.ConstantSignalNoCrossings | src/MedipixSPM.cpp:87-91 | a constant signal has no strict upward crossing |
| Pileup.NoEventsNoCounts | src/MedipixSPM.cpp:86-91 | a pixel without events gains no counts |
| Pileup.CrossingsAtMostHalf | src/MedipixSPM.cpp:87-91 | a signal of length L has at most L / 2 crossings |
| Pileup.BelowThresholdNoCounts | src/MedipixSPM.cpp:87-91 | a signal that never exceeds the threshold has no crossing |
| Detector.Medipix.constructor | src/Medipix.cpp:148-160 | the defaults are th0 6 and sigma 13; the offsets are nx * ny zeros, so every pixel's threshold is th0; there are nx * ny empty event lists exactly when timed; the image is unsized |
| Detector.Medipix.StartFrame | src/Medipix.cpp:28-40 | the image is sized to nx * ny zeros; max time and the photon counter are 0; every event list is empty |
| Detector.Medipix.AddPhoton | src/Medipix.cpp:168-173 | the photon counter goes up by 1 modulo 2^32; max time becomes max(old, time) when timed and is unchanged otherwise; image and events are untouched |
| Detector.Medipix.FinishFrame | src/Medipix.cpp:162-166 | the response is rebuilt exactly when timed |
| Detector.Medipix.BuildIKrumResponse | src/Medipix.cpp:175-190 | the response becomes the sampled linear ramp whose shape `Pileup.KrumResponseShape` states |
| Detector.Medipix.IncreaseCounter | src/Medipix.cpp:99-102 | cell x * ny + y goes up by 1 (with wrap), every other cell is unchanged, and the total goes up by 1 modulo 2^32 |
| Detector.Medipix.GetTotalCounts | src/Medipix.cpp:104-112 | the result is the sum of all counters modulo 2^32 |
| Detector.Medipix.RandomThresholdDispersion | src/Medipix.cpp:137-146 | every offset is overwritten by the supplied draw for that pixel, so each pixel's threshold becomes th0 plus its draw |
| Detector.Medipix.GetTh0At | src/Medipix.cpp:133-135 | the threshold of pixel (i, j) is th0 plus that pixel's offset; with a zero offset it is th0 |
| Detector.Medipix.SetTh0 | src/Medipix.cpp:129-131 | the global threshold becomes the argument |
| Detector.Medipix.SetPsfSigma | src/Medipix.cpp:125-127 | the cloud width becomes the argument |
| Detector.Medipix.GetMinX | src/Medipix.cpp:42-44 | min x = -max x, and it is the lower edge of the first column of pixels |
| Detector.Medipix.GetMaxX | src/Medipix.cpp:46-48 | max x is the upper edge of the last column of pixels |
| Detector.Medipix.GetMinY | src/Medipix.cpp:50-52 | min y = -max y, and it is the lower edge of the first row of pixels |
| Detector.Medipix.GetMaxY | src/Medipix.cpp:54-56 | max y is the upper edge of the last row of pixels |
| Detector.Medipix.GetPixelIndex | src/Medipix.cpp:70-74 | on each axis with a non-negative index expression, the returned pixel's centre c satisfies c <= pos < c + pitch |
| Detector.Medipix.GetPixelCenter | src/Medipix.cpp:76-80 | mapping a pixel's centre back gives that pixel |
| Detector.Medipix.CalculateSharedEnergy | src/Medipix.cpp:82-96 | the result depends only on the photon's offset from the centre and is the energy times the unit-energy share |
| Detector.Medipix.CalculatePixelSignal | src/Medipix.cpp:192-205 | the buffer has length trunc(max_time * samples) and is the pixel's pile-up signal |
| Detector.Medipix.AddEventResponse | src/Medipix.cpp:197-202 | every sample of the buffer gains exactly this event's contribution, and samples past the end are dropped |
| SinglePixelMode.AddPhoton | src/MedipixSPM.cpp:30-75 | base effect first. Untimed: each in-grid window pixel goes up by 1 iff its share is strictly above its threshold, other cells and the events are unchanged, and at most (2r)^2 counts are added. Timed: the image is unchanged, each window pixel's list gains Event(time, share) at its end, and other lists are unchanged |
| SinglePixelMode.CountPixels | src/MedipixSPM.cpp:44-53 | after the pass over the window list, exactly the listed pixels that fire went up by 1, and the total grew by their number |
| SinglePixelMode.PassedStep | src/MedipixSPM.cpp:44-53 | visiting one more pixel extends the pass invariant |
| SinglePixelMode.CountedStep | src/MedipixSPM.cpp:44-53 | visiting one more pixel keeps every counter equal to "old value, plus 1 if visited and firing" |
| SinglePixelMode.VisitPixel | src/MedipixSPM.cpp:45-52 | one pixel's cell goes up by 1 iff its share exceeds its threshold; nothing else changes |
| SinglePixelMode.CountedPixels | src/MedipixSPM.cpp:44-53 | at most one count per listed pixel |
| SinglePixelMode.RecordEvent | src/MedipixSPM.cpp:66-72 | the pixel's list gains one event, with the photon's time and the pixel's share, at its end |
| SinglePixelMode.RecordedStep | src/MedipixSPM.cpp:65-73 | recording one more pixel extends the invariant "visited lists gained exactly one event, others unchanged" |
| SinglePixelMode.RecordEvents | src/MedipixSPM.cpp:65-73 | after the timed pass, each listed pixel's list gained exactly one event and every other list is unchanged |
| SinglePixelMode.FinishFrame | src/MedipixSPM.cpp:77-94 | the response is rebuilt when timed; then each pixel's count grows by the number of strict upward crossings of its own threshold; untimed, the image is unchanged |
| SinglePixelMode.CountCrossings | src/MedipixSPM.cpp:83-91 | one pixel's cell grows by the crossing count of its signal; no other cell changes |
| ChargeSummingMode.AddPhoton | src/MedipixCSM.cpp:29-32 | only the base effect: the photon counter goes up by 1, and max time is updated when timed; image and events are unchanged |
| ChargeSummingMode.FinishFrame | src/MedipixCSM.cpp:34-36 | only the base effect: the response is rebuilt when timed, and the image is unchanged |
| ChargeSummingMode.RunFrame | src/MedipixCSM.cpp:29-36 | after `start_frame` and any sequence of calls, the total is 0, the image is blank, and the photon counter is the number of injections modulo 2^32 |
| LegacyDetector.Medipix.constructor | Medipix.cpp:14-19 | a fresh buffer of 256 * 256 zeros; threshold 6 and sigma 15 |
| LegacyDetector.Medipix.ResetImage | Medipix.cpp:21-26 | a fresh buffer of zeros replaces the image |
| LegacyDetector.Medipix.GetMinX | Medipix.cpp:28-30 | min x = -max x, the lower edge of the first column |
| LegacyDetector.Medipix.GetMaxX | Medipix.cpp:32-34 | max x is the upper edge of the last column |
| LegacyDetector.Medipix.GetMinY | Medipix.cpp:36-38 | min y = -max y, the lower edge of the first row |
| LegacyDetector.Medipix.GetMaxY | Medipix.cpp:40-42 | max y is the upper edge of the last row |
| LegacyDetector.Medipix.GetPixelIndex | Medipix.cpp:56-60 | the same bracketing c <= pos < c + pitch as the current version |
| LegacyDetector.Medipix.GetPixelCenter | Medipix.cpp:62-66 | mapping a pixel's centre back gives that pixel |
| LegacyDetector.Medipix.CalculateSharedEnergy | Medipix.cpp:68-79 | the result depends only on the offsets and is linear in the energy |
| LegacyDetector.Medipix.AddPhoton | Medipix.cpp:81-105 | below th0 the image is unchanged; otherwise each in-grid window pixel goes up by 1 iff its share is strictly above the global th0, and every other cell is unchanged |
| LegacyDetector.Medipix.CountPixels | Medipix.cpp:95-103 | after the pass, exactly the listed pixels whose share exceeds th0 went up by 1 |
| LegacyDetector.Medipix.CountedStep | Medipix.cpp:95-103 | visiting one more pixel extends the pass invariant |
| LegacyDetector.Medipix.IncreaseCounter | Medipix.cpp:107-110 | cell x * ny + y goes up by 1, the rest is unchanged, and the total goes up by 1 modulo 2^32 |
| LegacyDetector.Medipix.GetTotalCounts | Medipix.cpp:124-130 | the loop sums cells [0, ny * ny), which is the whole image only because nx = ny |
| LegacyDetector.Medipix.SetPsfSigma | Medipix.cpp:142-144 | the cloud width becomes the argument |
| LegacyDetector.Medipix.SetTh0 | Medipix.cpp:146-148 | the threshold becomes the argument |

Proof helpers carry no row of their own: `Numerics.AddModZero`,
`Numerics.AccumulatesTransitive`, `Neighbourhood.RowsArea`,
`PixelGeometry.GridSumStep`, `PixelGeometry.MirrorAxis`,
`PixelGeometry.EdgeErfAt`, `PixelGeometry.NegQuot`, and the small
arithmetic lemmas (`MulMonotone`, `DivBound`, `EarlierRowFirst`,
`ScaleBelowOne`, `AddFactor`, `AddMiddleFactor`, `RampBounds`,
`RampMonotone`, `DivMonotone`, `RemoveMatching`). They serve the lemmas
in the table above.

## Left out

- Float rounding: all amounts are exact reals. The exact halves and quarters of the charge-fraction test depend on erf saturating in single precision, so they are not stated.
- `erf` is a parameter of the sensor. Only oddness is assumed, and only in `PixelGeometry.MirrorPixelsShareEqually`.
- Detector.Medipix.RandomThresholdDispersion: the clock-seeded normal generator is replaced by a sequence of draws passed in. The distribution, the seed and the shared generator inside the parallel loop are not modelled.
- Detector.Medipix.SetPsfSigma: requires a non-zero width, because the sensor invariant needs one for the charge-sharing division. The code accepts 0 and then divides by zero in floating point.
- LegacyDetector.Medipix.SetPsfSigma: requires a non-zero width for the same reason.
- Detector.Medipix.IncreaseCounter: requires an in-grid pixel and a sized image. Out-of-range writes are undefined behaviour in the code.
- Detector.Medipix.CalculatePixelSignal: requires a timed sensor. An untimed sensor has no event lists, and the code would index past them.
- SinglePixelMode.AddPhoton: in untimed mode it requires `start_frame` to have sized the image, for the same reason.
- Unsigned wrap of pixel indices is not modelled. The home pixel's index stays a signed integer, which is what the subsequent `int(...)` casts give back in practice. The product `nx * ny` is assumed not to overflow 32 bits.
- File output (`save_image`, `save_pixel_signals` in both versions) is binary file I/O.
- The legacy `homogeneous_exposure` and the exposure generators are random sampling drivers.
- Mutex locking and the parallel-for pragmas are not modelled: the model is sequential.
- Plain getters (`get_th0()`, `get_pixel_pitch`, `get_psf_sigma`, `get_num_pixels_x/y`, `get_real_photons`, `get_timed`) are field reads. The pixel pitch is a constant field.
- `get_pixel_value`, used by the pile-up tests, is not part of this model, so the tests' expected counts are not stated. With the code as written, an event at exactly `max_time` is cut off (`Pileup.EventAtMaxTimeIsCutOff`).
- The variants' default constructors only pass `timed = false` to the base constructor, which is modelled.
- `th1`, the charge-summing threshold-dispersion override and `save_fourier_spectrum` are declared in the headers but defined nowhere, so they are not modelled.
