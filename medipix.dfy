/** The sensor base class: a grid of nx x ny pixels with a row-major image of
    32-bit counters, a per-pixel threshold offset, and (in timed mode) one
    event list per pixel together with the preamplifier response used to turn
    those events into a sampled signal. The two counting variants
    (single-pixel mode and charge-summing mode) are separate modules whose
    operations act on an object of this class. */
module Detector {
  import opened Numerics
  import opened PixelGeometry
  import opened Pileup

  class Medipix {
    /** Whether photons are recorded as timed events (pile-up read-out)
        instead of being counted at once. */
    const timed: bool
    const nx: nat
    const ny: nat
    /** The error function used by the charge-sharing model. */
    const erf: real -> real
    /** Pixel pitch in micrometres; the class never changes it. */
    const pixelPitch: real := 55.0
    /** Sampling rate of the pixel signal, in samples per microsecond. */
    const samplesPerUs: nat := 100

    /** Global threshold in keV. */
    var th0: real
    /** Width of the Gaussian charge cloud in micrometres. */
    var psfSigma: real
    /** Latest event time of the frame, in microseconds. */
    var maxTime: real
    /** Number of photons injected since the frame started (wraps at 2^32). */
    var realPhotons: nat
    /** Pixel counters, pixel (i, j) at cell i * ny + j; empty until the first
        frame starts. */
    var image: seq<nat>
    /** Per-pixel threshold offsets in keV. */
    var th0Dispersion: seq<real>
    /** Per-pixel event lists; one per pixel in timed mode, none otherwise. */
    var events: seq<seq<Event>>
    /** The preamplifier's sampled impulse response. */
    var responseFunction: seq<real>

    ghost predicate Valid()
      reads this
    {
      && psfSigma != 0.0
      && maxTime >= 0.0
      && realPhotons < U32
      && |th0Dispersion| == nx * ny
      && |events| == (if timed then nx * ny else 0)
      && (|image| == 0 || |image| == nx * ny)
      && (forall k | 0 <= k < |image| :: image[k] < U32)
    }

    /** The image has been sized by `StartFrame`, so counters can be read
        and written. */
    ghost predicate FrameStarted()
      reads this`image
    {
      |image| == nx * ny
    }

    constructor (timed: bool, nx: nat, ny: nat, erf: real -> real)
      ensures Valid()
      ensures this.timed == timed && this.nx == nx && this.ny == ny && this.erf == erf
      ensures th0 == 6.0 && psfSigma == 13.0 && maxTime == 0.0 && realPhotons == 0
      ensures image == [] && responseFunction == []
      ensures |th0Dispersion| == nx * ny && forall k | 0 <= k < nx * ny :: th0Dispersion[k] == 0.0
      ensures forall i: nat, j: nat | i < nx && j < ny :: GetTh0At(i, j) == th0
      ensures |events| == (if timed then nx * ny else 0)
      ensures forall k | 0 <= k < |events| :: events[k] == []
    {
      var dispersion: seq<real> := [];
      while |dispersion| < nx * ny
        invariant |dispersion| <= nx * ny
        invariant forall k | 0 <= k < |dispersion| :: dispersion[k] == 0.0
      {
        dispersion := dispersion + [0.0];
      }
      var pixelEvents: seq<seq<Event>> := [];
      if timed {
        while |pixelEvents| < nx * ny
          invariant |pixelEvents| <= nx * ny
          invariant forall k | 0 <= k < |pixelEvents| :: pixelEvents[k] == []
        {
          pixelEvents := pixelEvents + [[]];
        }
      }
      this.timed := timed;
      this.nx := nx;
      this.ny := ny;
      this.erf := erf;
      th0 := 6.0;
      psfSigma := 13.0;
      maxTime := 0.0;
      realPhotons := 0;
      image := [];
      th0Dispersion := dispersion;
      events := pixelEvents;
      responseFunction := [];
    }

    /** The threshold of pixel (i, j): the global threshold plus the pixel's
        own offset. */
    function GetTh0At(i: nat, j: nat): (t: real)
      reads this`th0, this`th0Dispersion
      requires i < nx && j < ny && |th0Dispersion| == nx * ny
      ensures t - th0 == th0Dispersion[Flat(i, j, nx, ny)]
      ensures th0Dispersion[Flat(i, j, nx, ny)] == 0.0 ==> t == th0
    {
      th0 + th0Dispersion[Flat(i, j, nx, ny)]
    }

    /** Starts a frame: the image is resized to nx * ny and zeroed, the
        latest event time and the photon counter are reset and every event
        list is emptied. */
    method StartFrame()
      requires Valid()
      modifies this`image, this`maxTime, this`realPhotons, this`events
      ensures Valid() && FrameStarted()
      ensures forall k | 0 <= k < |image| :: image[k] == 0
      ensures maxTime == 0.0 && realPhotons == 0
      ensures |events| == old(|events|) && forall k | 0 <= k < |events| :: events[k] == []
    {
      if |image| < nx * ny {
        image := image + seq(nx * ny - |image|, _ => 0);
      } else {
        image := image[..nx * ny];
      }
      var k := 0;
      while k < |image|
        invariant 0 <= k <= |image| && |image| == nx * ny
        invariant forall q | 0 <= q < k :: image[q] == 0
        invariant forall q | 0 <= q < |image| :: image[q] < U32
        invariant events == old(events)
      {
        image := image[k := 0];
        k := k + 1;
      }
      maxTime := 0.0;
      realPhotons := 0;
      var e := 0;
      while e < |events|
        invariant 0 <= e <= |events| && |events| == |old(events)|
        invariant forall q | 0 <= q < e :: events[q] == []
        invariant |image| == nx * ny && forall q | 0 <= q < |image| :: image[q] == 0
        invariant maxTime == 0.0 && realPhotons == 0
      {
        events := events[e := []];
        e := e + 1;
      }
    }

    /** The base part of injecting a photon: the photon is counted and, in
        timed mode, the latest event time advances. The image and the event
        lists are left to the counting variants. */
    method AddPhoton(energy: real, x: real, y: real, radius: int, time: real)
      requires Valid()
      modifies this`maxTime, this`realPhotons
      ensures Valid()
      ensures realPhotons == AddMod(old(realPhotons), 1)
      ensures maxTime == if timed then Max(old(maxTime), time) else old(maxTime)
    {
      if timed {
        maxTime := Max(maxTime, time);
      }
      realPhotons := AddMod(realPhotons, 1);
    }

    /** The base part of finishing a frame: in timed mode the preamplifier
        response is (re)built. */
    method FinishFrame()
      requires Valid()
      modifies this`responseFunction
      ensures Valid()
      ensures responseFunction == if timed then KrumResponse(samplesPerUs) else old(responseFunction)
    {
      if timed {
        BuildIKrumResponse();
      }
    }

    /** Fills the response with the linear ramp over 2 microseconds. */
    method BuildIKrumResponse()
      modifies this`responseFunction
      ensures responseFunction == KrumResponse(samplesPerUs)
    {
      var maxRespTime := 2.0;
      var points := Trunc(maxRespTime * samplesPerUs as real);
      assert points == 2 * samplesPerUs;
      responseFunction := seq(points, _ => 0.0);
      var i := 0;
      while i < samplesPerUs
        invariant 0 <= i <= samplesPerUs && |responseFunction| == points
        invariant forall k | 0 <= k < i :: responseFunction[k] == KrumResponse(samplesPerUs)[k]
      {
        responseFunction := responseFunction[i := 1.0 - i as real / samplesPerUs as real];
        i := i + 1;
      }
      while i < points
        invariant samplesPerUs <= i <= points && |responseFunction| == points
        invariant forall k | 0 <= k < i :: responseFunction[k] == KrumResponse(samplesPerUs)[k]
      {
        responseFunction := responseFunction[i := 0.0];
        i := i + 1;
      }
    }

    /** Adds one count to pixel (x, y); the counter wraps at 2^32. The
        wrapped total of the image grows by exactly one. */
    method IncreaseCounter(x: nat, y: nat)
      requires Valid() && FrameStarted() && x < nx && y < ny
      modifies this`image
      ensures Valid() && FrameStarted()
      ensures image == old(image)[Flat(x, y, nx, ny) := AddMod(old(image)[Flat(x, y, nx, ny)], 1)]
      ensures Sum(image) % U32 == (Sum(old(image)) + 1) % U32
    {
      var k := Flat(x, y, nx, ny);
      SumIncrement(image, k);
      image := image[k := AddMod(image[k], 1)];
    }

    /** The total of the image, accumulated in a 32-bit counter. */
    method GetTotalCounts() returns (counts: nat)
      requires Valid() && FrameStarted()
      ensures counts == Sum(image) % U32
    {
      counts := 0;
      var i := 0;
      while i < ny * nx
        invariant 0 <= i <= |image|
        invariant counts == Sum(image[..i]) % U32
      {
        assert image[..i + 1][..i] == image[..i];
        AddModAccumulate(Sum(image[..i]), image[i]);
        counts := AddMod(counts, image[i]);
        i := i + 1;
      }
      assert image[..i] == image;
    }

    /** Overwrites every pixel's threshold offset with a draw of the normal
        distribution of the given width; the draws themselves are the
        parameter `draws`. */
    method RandomThresholdDispersion(sigma: real, draws: seq<real>)
      requires Valid() && |draws| == nx * ny
      modifies this`th0Dispersion
      ensures Valid() && th0Dispersion == draws
      ensures forall i: nat, j: nat | i < nx && j < ny :: GetTh0At(i, j) == th0 + draws[Flat(i, j, nx, ny)]
    {
      var i := 0;
      while i < ny * nx
        invariant 0 <= i <= nx * ny && |th0Dispersion| == nx * ny
        invariant th0Dispersion[..i] == draws[..i]
      {
        th0Dispersion := th0Dispersion[i := draws[i]];
        i := i + 1;
      }
    }

    method SetTh0(t: real)
      modifies this`th0
      ensures th0 == t
    {
      th0 := t;
    }

    method SetPsfSigma(s: real)
      requires s != 0.0
      modifies this`psfSigma
      ensures psfSigma == s
    {
      psfSigma := s;
    }

    /** Left and right edges of the sensor along x and y; the sensor is
        centred on the origin and its edges are the outer edges of the first
        and last pixels. */
    function GetMinX(): (r: real)
      reads {}
      ensures r == -GetMaxX()
      ensures r == GetPixelCenter(0, 0).0 - pixelPitch / 2.0
    {
      PixelsTileExtent(pixelPitch, nx, 0);
      MinExtent(pixelPitch, nx)
    }

    function GetMaxX(): (r: real)
      reads {}
      ensures nx > 0 ==> r == GetPixelCenter(nx - 1, 0).0 + pixelPitch / 2.0
    {
      PixelsTileExtent(pixelPitch, nx, 0);
      MaxExtent(pixelPitch, nx)
    }

    function GetMinY(): (r: real)
      reads {}
      ensures r == -GetMaxY()
      ensures r == GetPixelCenter(0, 0).1 - pixelPitch / 2.0
    {
      PixelsTileExtent(pixelPitch, ny, 0);
      MinExtent(pixelPitch, ny)
    }

    function GetMaxY(): (r: real)
      reads {}
      ensures ny > 0 ==> r == GetPixelCenter(0, ny - 1).1 + pixelPitch / 2.0
    {
      PixelsTileExtent(pixelPitch, ny, 0);
      MaxExtent(pixelPitch, ny)
    }

    /** The pixel assigned to a position, as signed indices: the pixel
        whose centre is the nearest one at or below the position (a position
        left of or below the first centre gives an index that is negative or
        is truncated to 0). Where the index expression is non-negative, the
        returned pixel's centre c satisfies c <= x < c + pitch. */
    function GetPixelIndex(x: real, y: real): (ij: (int, int))
      reads {}
      ensures x / pixelPitch + nx as real / 2.0 - 0.5 >= 0.0 ==>
                var c := PixelCenter(pixelPitch, nx, ij.0); c <= x < c + pixelPitch
      ensures y / pixelPitch + ny as real / 2.0 - 0.5 >= 0.0 ==>
                var c := PixelCenter(pixelPitch, ny, ij.1); c <= y < c + pixelPitch
    {
      assert x / pixelPitch + nx as real / 2.0 - 0.5 >= 0.0 ==>
               var c := PixelCenter(pixelPitch, nx, PixelIndex(pixelPitch, nx, x)); c <= x < c + pixelPitch
      by {
        if x / pixelPitch + nx as real / 2.0 - 0.5 >= 0.0 {
          PixelIndexBrackets(pixelPitch, nx, x);
        }
      }
      assert y / pixelPitch + ny as real / 2.0 - 0.5 >= 0.0 ==>
               var c := PixelCenter(pixelPitch, ny, PixelIndex(pixelPitch, ny, y)); c <= y < c + pixelPitch
      by {
        if y / pixelPitch + ny as real / 2.0 - 0.5 >= 0.0 {
          PixelIndexBrackets(pixelPitch, ny, y);
        }
      }
      (PixelIndex(pixelPitch, nx, x), PixelIndex(pixelPitch, ny, y))
    }

    /** The centre of pixel (i, j). Mapping the centre back gives (i, j). */
    function GetPixelCenter(i: int, j: int): (c: (real, real))
      reads {}
      ensures i >= 0 && j >= 0 ==> GetPixelIndex(c.0, c.1) == (i, j)
    {
      assert i >= 0 && j >= 0 ==>
               PixelIndex(pixelPitch, nx, PixelCenter(pixelPitch, nx, i)) == i
               && PixelIndex(pixelPitch, ny, PixelCenter(pixelPitch, ny, j)) == j
      by {
        if i >= 0 && j >= 0 {
          PixelIndexOfCenter(pixelPitch, nx, i);
          PixelIndexOfCenter(pixelPitch, ny, j);
        }
      }
      (PixelCenter(pixelPitch, nx, i), PixelCenter(pixelPitch, ny, j))
    }

    /** The part of a deposit of `energy` at (x, y) that the pixel centred at
        (cx, cy) collects. It depends only on the hit's offset from the
        centre and is proportional to the energy. */
    function CalculateSharedEnergy(x: real, y: real, energy: real, cx: real, cy: real): (r: real)
      reads this`psfSigma
      requires psfSigma != 0.0
      ensures r == SharedEnergy(erf, pixelPitch, psfSigma, x - cx, y - cy, energy, 0.0, 0.0)
      ensures r == energy * SharedEnergy(erf, pixelPitch, psfSigma, x, y, 1.0, cx, cy)
    {
      SharedEnergyTranslation(erf, pixelPitch, psfSigma, x - cx, y - cy, energy, 0.0, 0.0, cx, cy);
      SharedEnergyLinear(erf, pixelPitch, psfSigma, x, y, energy, 1.0, 0.0, cx, cy);
      SharedEnergy(erf, pixelPitch, psfSigma, x, y, energy, cx, cy)
    }

    /** The energy that pixel (i, j) collects from a photon of `energy` at
        (x, y). */
    function PixelDeposit(x: real, y: real, energy: real, i: int, j: int): real
      reads this`psfSigma
      requires psfSigma != 0.0
    {
      var c := GetPixelCenter(i, j);
      CalculateSharedEnergy(x, y, energy, c.0, c.1)
    }

    /** The sampled signal of pixel (i, j) over the frame: one scaled copy of
        the response per recorded event, truncated to int(maxTime * 100)
        samples. */
    ghost function PixelSignal(i: nat, j: nat): seq<real>
      reads this`events, this`responseFunction, this`maxTime
      requires i < nx && j < ny && |events| == nx * ny && maxTime >= 0.0
    {
      Signal(events[Flat(i, j, nx, ny)], responseFunction, samplesPerUs, SignalLength(maxTime, samplesPerUs))
    }

    /** Computes pixel (i, j)'s signal into a fresh buffer: for each event in
        list order, each response sample is added at the event's start
        sample plus its offset, unless that lands outside the buffer. */
    method CalculatePixelSignal(i: nat, j: nat) returns (signal: seq<real>)
      requires Valid() && timed && i < nx && j < ny
      ensures signal == PixelSignal(i, j)
      ensures |signal| == SignalLength(maxTime, samplesPerUs)
    {
      var pixelEvents := events[Flat(i, j, nx, ny)];
      var len: nat := Trunc(maxTime * samplesPerUs as real);
      var buffer := new real[len](_ => 0.0);
      var e := 0;
      while e < |pixelEvents|
        invariant 0 <= e <= |pixelEvents|
        invariant forall n | 0 <= n < len :: buffer[n] == SignalAt(pixelEvents[..e], responseFunction, samplesPerUs, n)
      {
        ghost var done := pixelEvents[..e];
        AddEventResponse(buffer, pixelEvents[e]);
        forall n | 0 <= n < len
          ensures buffer[n] == SignalAt(pixelEvents[..e + 1], responseFunction, samplesPerUs, n)
        {
          assert pixelEvents[..e + 1] == done + [pixelEvents[e]];
          SignalAtSnoc(done, pixelEvents[e], responseFunction, samplesPerUs, n);
        }
        e := e + 1;
      }
      assert pixelEvents[..e] == pixelEvents;
      signal := buffer[..];
    }

    /** One pass of the signal computation's inner loop: adds `event`'s
        scaled response into `buffer`, sample by sample, skipping the samples
        that fall outside it. */
    method AddEventResponse(buffer: array<real>, event: Event)
      modifies buffer
      ensures forall n | 0 <= n < buffer.Length ::
                buffer[n] == old(buffer[n]) + Contribution(event, responseFunction, samplesPerUs, n)
    {
      var startIndex := Trunc(event.time * samplesPerUs as real);
      var index := 0;
      while index < |responseFunction|
        invariant 0 <= index <= |responseFunction|
        invariant forall n | 0 <= n < buffer.Length ::
                    buffer[n] == old(buffer[n]) + PartialContribution(event, responseFunction, samplesPerUs, n, index)
      {
        if 0 <= startIndex + index < buffer.Length {
          buffer[startIndex + index] := buffer[startIndex + index] + event.energy * responseFunction[index];
        }
        forall n | 0 <= n < buffer.Length
          ensures buffer[n] == old(buffer[n]) + PartialContribution(event, responseFunction, samplesPerUs, n, index + 1)
        {
          PartialContributionStep(event, responseFunction, samplesPerUs, n, index);
        }
        index := index + 1;
      }
      forall n | 0 <= n < buffer.Length
        ensures buffer[n] == old(buffer[n]) + Contribution(event, responseFunction, samplesPerUs, n)
      {
        PartialContributionComplete(event, responseFunction, samplesPerUs, n);
      }
    }
  }
}
