/** Single-pixel mode: each pixel decides on its own whether a photon's
    share of charge crossed its threshold. Without timing a pixel counts at
    once when its share exceeds its threshold; with timing every pixel of the
    window records an event, and the counts are taken at the end of the frame
    as the strict upward threshold crossings of the pixel's pile-up signal.
    The operations act on the base sensor object. */
module SinglePixelMode {
  import opened Numerics
  import opened PixelGeometry
  import opened Pileup
  import opened Neighbourhood
  import opened Detector

  /** Pixel (i, j) counts the photon: it lies in the window around the
      photon's home pixel and its share of the energy is strictly above its
      own threshold. */
  predicate CountsPhoton(m: Medipix, energy: real, x: real, y: real, radius: int, i: nat, j: nat)
    reads m`psfSigma, m`th0, m`th0Dispersion
    requires m.psfSigma != 0.0 && i < m.nx && j < m.ny && |m.th0Dispersion| == m.nx * m.ny
  {
    var home := m.GetPixelIndex(x, y);
    InWindow(home.0, home.1, radius, i, j) && m.PixelDeposit(x, y, energy, i, j) > m.GetTh0At(i, j)
  }

  /** Injects a photon: first the base effect (photon counter, latest event
      time), then every in-grid pixel of the window around the home pixel
      either counts at once (untimed) or records an event carrying its share
      of the energy (timed). */
  method AddPhoton(m: Medipix, energy: real, x: real, y: real, radius: int, time: real)
    returns (ghost counted: nat)
    requires m.Valid() && (m.timed || m.FrameStarted())
    modifies m`maxTime, m`realPhotons, m`image, m`events
    ensures m.Valid()
    ensures counted <= (if radius > 0 then 4 * radius * radius else 0)
    ensures Accumulates(Sum(m.image), Sum(old(m.image)), counted)
    ensures m.timed ==> counted == 0
    ensures m.realPhotons == AddMod(old(m.realPhotons), 1)
    ensures m.maxTime == if m.timed then Max(old(m.maxTime), time) else old(m.maxTime)
    ensures !m.timed ==>
              && m.events == old(m.events)
              && |m.image| == |old(m.image)|
              && forall i: nat, j: nat | i < m.nx && j < m.ny ::
                   m.image[Flat(i, j, m.nx, m.ny)]
                   == if CountsPhoton(m, energy, x, y, radius, i, j)
                      then AddMod(old(m.image)[Flat(i, j, m.nx, m.ny)], 1)
                      else old(m.image)[Flat(i, j, m.nx, m.ny)]
    ensures m.timed ==>
              && m.image == old(m.image)
              && |m.events| == |old(m.events)|
              && forall i: nat, j: nat | i < m.nx && j < m.ny ::
                   var home := m.GetPixelIndex(x, y);
                   m.events[Flat(i, j, m.nx, m.ny)]
                   == if InWindow(home.0, home.1, radius, i, j)
                      then old(m.events)[Flat(i, j, m.nx, m.ny)] + [Event(time, m.PixelDeposit(x, y, energy, i, j))]
                      else old(m.events)[Flat(i, j, m.nx, m.ny)]
  {
    m.AddPhoton(energy, x, y, radius, time);
    var home := m.GetPixelIndex(x, y);
    var pixels := CollectWindow(home.0, home.1, radius, m.nx, m.ny);
    forall q | 0 <= q < |pixels| ensures pixels[q].0 < m.nx && pixels[q].1 < m.ny {
      assert pixels[q] in pixels;
    }
    if !m.timed {
      CountPixels(m, pixels, energy, x, y);
      counted := CountedPixels(m, pixels, energy, x, y);
    } else {
      RecordEvents(m, pixels, energy, x, y, time);
      counted := 0;
    }
  }

  /** The untimed pass over the window's pixels: each pixel whose share of
      the energy is strictly above its threshold gets one count, and the
      wrapped total grows by the number of such pixels. */
  method CountPixels(m: Medipix, pixels: seq<(nat, nat)>, energy: real, x: real, y: real)
    requires m.Valid() && m.FrameStarted()
    requires forall q | 0 <= q < |pixels| :: pixels[q].0 < m.nx && pixels[q].1 < m.ny
    requires forall a, b | 0 <= a < b < |pixels| :: Before(pixels[a], pixels[b])
    modifies m`image
    ensures m.Valid() && m.FrameStarted()
    ensures Counted(m, old(m.image), m.image, pixels, energy, x, y)
    ensures Accumulates(Sum(m.image), Sum(old(m.image)), CountedPixels(m, pixels, energy, x, y))
  {
    var p := 0;
    while p < |pixels|
      invariant 0 <= p <= |pixels|
      invariant m.Valid() && m.FrameStarted()
      invariant Passed(m, old(m.image), m.image, pixels[..p], energy, x, y)
    {
      NotYetVisited(pixels, p);
      ghost var before := m.image;
      VisitPixel(m, pixels[p], energy, x, y);
      PassedStep(m, old(m.image), before, m.image, pixels, p, energy, x, y);
      p := p + 1;
    }
    assert pixels[..p] == pixels;
  }

  /** The state of the untimed pass once it has visited `visited`: the
      cells are as `Counted` says and the plain total has grown by the
      number of pixels that fired (modulo 2^32). */
  ghost predicate Passed(m: Medipix, image0: seq<nat>, image: seq<nat>, visited: seq<(nat, nat)>,
                         energy: real, x: real, y: real)
    reads m`psfSigma, m`th0, m`th0Dispersion
    requires m.psfSigma != 0.0 && |m.th0Dispersion| == m.nx * m.ny
  {
    && Counted(m, image0, image, visited, energy, x, y)
    && Accumulates(Sum(image), Sum(image0), CountedPixels(m, visited, energy, x, y))
  }

  /** Visiting one more, not yet visited, pixel extends the pass by it. */
  lemma PassedStep(m: Medipix, image0: seq<nat>, before: seq<nat>, after: seq<nat>,
                   pixels: seq<(nat, nat)>, p: nat, energy: real, x: real, y: real)
    requires m.psfSigma != 0.0 && |m.th0Dispersion| == m.nx * m.ny
    requires p < |pixels| && pixels[p].0 < m.nx && pixels[p].1 < m.ny && pixels[p] !in pixels[..p]
    requires Passed(m, image0, before, pixels[..p], energy, x, y)
    requires |after| == |before|
    requires forall k | 0 <= k < |after| && k != Flat(pixels[p].0, pixels[p].1, m.nx, m.ny) :: after[k] == before[k]
    requires after[Flat(pixels[p].0, pixels[p].1, m.nx, m.ny)]
             == if Fires(m, pixels[p], energy, x, y)
                then AddMod(before[Flat(pixels[p].0, pixels[p].1, m.nx, m.ny)], 1)
                else before[Flat(pixels[p].0, pixels[p].1, m.nx, m.ny)]
    requires Accumulates(Sum(after), Sum(before), if Fires(m, pixels[p], energy, x, y) then 1 else 0)
    ensures Passed(m, image0, after, pixels[..p + 1], energy, x, y)
  {
    var visited, pixel := pixels[..p], pixels[p];
    CountedStep(m, image0, before, after, visited, pixel, energy, x, y);
    AccumulatesTransitive(Sum(before), Sum(after), Sum(image0), CountedPixels(m, visited, energy, x, y),
                          if Fires(m, pixel, energy, x, y) then 1 else 0);
    assert pixels[..p + 1] == visited + [pixel];
    assert (visited + [pixel])[..|visited|] == visited;
  }

  /** `image` is `image0` after the untimed pass over `visited`: every
      visited in-grid pixel whose share of the energy is strictly above its
      threshold has one more count, every other cell is as it was. */
  ghost predicate Counted(m: Medipix, image0: seq<nat>, image: seq<nat>, visited: seq<(nat, nat)>,
                          energy: real, x: real, y: real)
    reads m`psfSigma, m`th0, m`th0Dispersion
    requires m.psfSigma != 0.0 && |m.th0Dispersion| == m.nx * m.ny
  {
    && |image| == |image0| == m.nx * m.ny
    && forall i: nat, j: nat | i < m.nx && j < m.ny ::
         image[Flat(i, j, m.nx, m.ny)]
         == if (i, j) in visited && m.PixelDeposit(x, y, energy, i, j) > m.GetTh0At(i, j)
            then AddMod(image0[Flat(i, j, m.nx, m.ny)], 1)
            else image0[Flat(i, j, m.nx, m.ny)]
  }

  /** Visiting one more, not yet visited, pixel extends the pass by it. */
  lemma CountedStep(m: Medipix, image0: seq<nat>, before: seq<nat>, after: seq<nat>,
                    visited: seq<(nat, nat)>, pixel: (nat, nat), energy: real, x: real, y: real)
    requires m.psfSigma != 0.0 && |m.th0Dispersion| == m.nx * m.ny
    requires pixel.0 < m.nx && pixel.1 < m.ny && pixel !in visited
    requires Counted(m, image0, before, visited, energy, x, y)
    requires |after| == |before|
    requires forall k | 0 <= k < |after| && k != Flat(pixel.0, pixel.1, m.nx, m.ny) :: after[k] == before[k]
    requires after[Flat(pixel.0, pixel.1, m.nx, m.ny)]
             == if Fires(m, pixel, energy, x, y)
                then AddMod(before[Flat(pixel.0, pixel.1, m.nx, m.ny)], 1)
                else before[Flat(pixel.0, pixel.1, m.nx, m.ny)]
    ensures Counted(m, image0, after, visited + [pixel], energy, x, y)
  {
    forall a: nat, b: nat | a < m.nx && b < m.ny
      ensures after[Flat(a, b, m.nx, m.ny)]
              == if (a, b) in visited + [pixel] && m.PixelDeposit(x, y, energy, a, b) > m.GetTh0At(a, b)
                 then AddMod(image0[Flat(a, b, m.nx, m.ny)], 1)
                 else image0[Flat(a, b, m.nx, m.ny)]
    {
      if (a, b) != pixel && Flat(a, b, m.nx, m.ny) == Flat(pixel.0, pixel.1, m.nx, m.ny) {
        FlatInjective(a, b, pixel.0, pixel.1, m.nx, m.ny);
      }
    }
  }

  /** One step of the untimed pass: the pixel's share of the energy is
      computed from its centre and compared with its threshold; above it, the
      pixel gets one count. */
  method VisitPixel(m: Medipix, pixel: (nat, nat), energy: real, x: real, y: real)
    requires m.Valid() && m.FrameStarted() && pixel.0 < m.nx && pixel.1 < m.ny
    modifies m`image
    ensures m.Valid() && m.FrameStarted()
    ensures |m.image| == |old(m.image)|
    ensures forall k | 0 <= k < |m.image| && k != Flat(pixel.0, pixel.1, m.nx, m.ny) :: m.image[k] == old(m.image)[k]
    ensures m.image[Flat(pixel.0, pixel.1, m.nx, m.ny)]
            == if Fires(m, pixel, energy, x, y)
               then AddMod(old(m.image)[Flat(pixel.0, pixel.1, m.nx, m.ny)], 1)
               else old(m.image)[Flat(pixel.0, pixel.1, m.nx, m.ny)]
    ensures Accumulates(Sum(m.image), Sum(old(m.image)), if Fires(m, pixel, energy, x, y) then 1 else 0)
  {
    var (i, j) := pixel;
    var center := m.GetPixelCenter(i, j);
    var depEnergy := m.CalculateSharedEnergy(x, y, energy, center.0, center.1);
    if depEnergy > m.GetTh0At(i, j) {
      m.IncreaseCounter(i, j);
    }
  }

  /** Number of listed pixels whose share of the energy is strictly above
      their own threshold: the counts one untimed photon adds. */
  ghost function CountedPixels(m: Medipix, pixels: seq<(nat, nat)>, energy: real, x: real, y: real): (n: nat)
    reads m`psfSigma, m`th0, m`th0Dispersion
    requires m.psfSigma != 0.0 && |m.th0Dispersion| == m.nx * m.ny
    ensures n <= |pixels|
  {
    if pixels == [] then 0
    else CountedPixels(m, pixels[..|pixels| - 1], energy, x, y) + (if Fires(m, pixels[|pixels| - 1], energy, x, y) then 1 else 0)
  }

  /** An in-grid pixel whose share of the energy is strictly above its own
      threshold. */
  predicate Fires(m: Medipix, pixel: (nat, nat), energy: real, x: real, y: real)
    reads m`psfSigma, m`th0, m`th0Dispersion
    requires m.psfSigma != 0.0 && |m.th0Dispersion| == m.nx * m.ny
  {
    pixel.0 < m.nx && pixel.1 < m.ny && m.PixelDeposit(x, y, energy, pixel.0, pixel.1) > m.GetTh0At(pixel.0, pixel.1)
  }

  /** One step of the timed pass: the pixel's share of the energy is
      computed from its centre and appended, with the photon's time, to the
      pixel's event list. */
  method RecordEvent(m: Medipix, pixel: (nat, nat), energy: real, x: real, y: real, time: real)
    requires m.Valid() && m.timed && pixel.0 < m.nx && pixel.1 < m.ny
    modifies m`events
    ensures m.Valid() && m.timed
    ensures m.events == old(m.events)[Flat(pixel.0, pixel.1, m.nx, m.ny) :=
                                      old(m.events)[Flat(pixel.0, pixel.1, m.nx, m.ny)]
                                      + [Event(time, m.PixelDeposit(x, y, energy, pixel.0, pixel.1))]]
  {
    var (i, j) := pixel;
    var center := m.GetPixelCenter(i, j);
    var depEnergy := m.CalculateSharedEnergy(x, y, energy, center.0, center.1);
    var event := Event(time, depEnergy);
    var k := Flat(i, j, m.nx, m.ny);
    m.events := m.events[k := m.events[k] + [event]];
  }

  /** `events` is `events0` after the timed pass over `visited`: every
      visited in-grid pixel has one more event, at the photon's time and with
      the pixel's share of the energy; every other list is as it was. */
  ghost predicate Recorded(m: Medipix, events0: seq<seq<Event>>, events: seq<seq<Event>>,
                           visited: seq<(nat, nat)>, energy: real, x: real, y: real, time: real)
    reads m`psfSigma
    requires m.psfSigma != 0.0
  {
    && |events| == |events0| == m.nx * m.ny
    && forall i: nat, j: nat | i < m.nx && j < m.ny ::
         events[Flat(i, j, m.nx, m.ny)]
         == if (i, j) in visited
            then events0[Flat(i, j, m.nx, m.ny)] + [Event(time, m.PixelDeposit(x, y, energy, i, j))]
            else events0[Flat(i, j, m.nx, m.ny)]
  }

  /** Recording the event of one more, not yet visited, pixel extends the
      pass by it. */
  lemma RecordedStep(m: Medipix, events0: seq<seq<Event>>, before: seq<seq<Event>>, after: seq<seq<Event>>,
                     visited: seq<(nat, nat)>, pixel: (nat, nat), energy: real, x: real, y: real, time: real)
    requires m.psfSigma != 0.0
    requires pixel.0 < m.nx && pixel.1 < m.ny && pixel !in visited
    requires Recorded(m, events0, before, visited, energy, x, y, time)
    requires after == before[Flat(pixel.0, pixel.1, m.nx, m.ny) :=
                             before[Flat(pixel.0, pixel.1, m.nx, m.ny)]
                             + [Event(time, m.PixelDeposit(x, y, energy, pixel.0, pixel.1))]]
    ensures Recorded(m, events0, after, visited + [pixel], energy, x, y, time)
  {
    forall a: nat, b: nat | a < m.nx && b < m.ny
      ensures after[Flat(a, b, m.nx, m.ny)]
              == if (a, b) in visited + [pixel]
                 then events0[Flat(a, b, m.nx, m.ny)] + [Event(time, m.PixelDeposit(x, y, energy, a, b))]
                 else events0[Flat(a, b, m.nx, m.ny)]
    {
      if (a, b) != pixel && Flat(a, b, m.nx, m.ny) == Flat(pixel.0, pixel.1, m.nx, m.ny) {
        FlatInjective(a, b, pixel.0, pixel.1, m.nx, m.ny);
      }
    }
  }

  /** The timed pass over the window's pixels: each pixel's event list gets
      one event, carrying the photon's time and the pixel's share of the
      energy, with no threshold test. */
  method RecordEvents(m: Medipix, pixels: seq<(nat, nat)>, energy: real, x: real, y: real, time: real)
    requires m.Valid() && m.timed
    requires forall q | 0 <= q < |pixels| :: pixels[q].0 < m.nx && pixels[q].1 < m.ny
    requires forall a, b | 0 <= a < b < |pixels| :: Before(pixels[a], pixels[b])
    modifies m`events
    ensures m.Valid() && |m.events| == |old(m.events)|
    ensures Recorded(m, old(m.events), m.events, pixels, energy, x, y, time)
  {
    ghost var events0 := m.events;
    var p := 0;
    while p < |pixels|
      invariant 0 <= p <= |pixels|
      invariant m.Valid() && m.timed
      invariant Recorded(m, events0, m.events, pixels[..p], energy, x, y, time)
    {
      NotYetVisited(pixels, p);
      ghost var before := m.events;
      RecordEvent(m, pixels[p], energy, x, y, time);
      RecordedStep(m, events0, before, m.events, pixels[..p], pixels[p], energy, x, y, time);
      assert pixels[..p + 1] == pixels[..p] + [pixels[p]];
      p := p + 1;
    }
    assert pixels[..p] == pixels;
  }

  /** Finishes a frame: the base effect (the response is built in timed
      mode), then, in timed mode, every pixel of the grid is visited once in
      flat order and its counter grows by the number of strict upward
      crossings of its threshold by its pile-up signal. */
  method FinishFrame(m: Medipix)
    requires m.Valid() && (m.timed ==> m.FrameStarted())
    modifies m`responseFunction, m`image
    ensures m.Valid()
    ensures m.responseFunction == if m.timed then KrumResponse(m.samplesPerUs) else old(m.responseFunction)
    ensures !m.timed ==> m.image == old(m.image)
    ensures m.timed ==>
              && |m.image| == |old(m.image)|
              && forall i: nat, j: nat | i < m.nx && j < m.ny ::
                   m.image[Flat(i, j, m.nx, m.ny)]
                   == AddMod(old(m.image)[Flat(i, j, m.nx, m.ny)], Crossings(m.PixelSignal(i, j), m.GetTh0At(i, j)))
  {
    m.FinishFrame();
    if m.timed {
      ghost var image0 := m.image;
      var index := 0;
      while index < m.nx * m.ny
        invariant 0 <= index <= m.nx * m.ny
        invariant m.Valid() && m.FrameStarted() && |m.image| == |image0|
        invariant m.responseFunction == KrumResponse(m.samplesPerUs)
        invariant forall k | 0 <= k < |m.image| ::
                    m.image[k] == if k < index then PixelCount(m, image0, k) else image0[k]
      {
        CountCrossings(m, index);
        index := index + 1;
      }
      forall i: nat, j: nat | i < m.nx && j < m.ny
        ensures m.image[Flat(i, j, m.nx, m.ny)]
                == AddMod(image0[Flat(i, j, m.nx, m.ny)], Crossings(m.PixelSignal(i, j), m.GetTh0At(i, j)))
      {
        RowColOfFlat(i, j, m.nx, m.ny);
      }
    }
  }

  /** One pixel of the end-of-frame pass: the pixel at flat index `index`
      is recovered as (index / ny, index % ny), its signal is computed, and
      its counter is incremented once per strict upward crossing of its
      threshold. */
  method CountCrossings(m: Medipix, index: nat)
    requires m.Valid() && m.FrameStarted() && m.timed && index < m.nx * m.ny
    modifies m`image
    ensures m.Valid() && m.FrameStarted()
    ensures m.image == old(m.image)[index := PixelCount(m, old(m.image), index)]
  {
    var i := Row(index, m.nx, m.ny);
    var j := Col(index, m.nx, m.ny);
    FlatOfRowCol(index, m.nx, m.ny);
    var threshold := m.GetTh0At(i, j);
    var pixelResponse := m.CalculatePixelSignal(i, j);
    var t := 1;
    while t < |pixelResponse|
      invariant 1 <= t && (t <= |pixelResponse| || |pixelResponse| == 0)
      invariant m.Valid() && m.FrameStarted()
      invariant forall k | 0 <= k < |m.image| && k != index :: m.image[k] == old(m.image)[k]
      invariant t <= |pixelResponse| ==>
                  m.image[index] == AddMod(old(m.image)[index], Crossings(pixelResponse[..t], threshold))
      invariant |pixelResponse| == 0 ==> m.image[index] == old(m.image)[index]
    {
      if pixelResponse[t - 1] < threshold && pixelResponse[t] > threshold {
        m.image := m.image[Flat(i, j, m.nx, m.ny) := AddMod(m.image[Flat(i, j, m.nx, m.ny)], 1)];
      }
      assert pixelResponse[..t + 1][..t] == pixelResponse[..t];
      AddModStep(old(m.image)[index], Crossings(pixelResponse[..t], threshold));
      t := t + 1;
    }
    if |pixelResponse| == 0 {
      AddModZero(old(m.image)[index]);
    } else {
      assert pixelResponse[..|pixelResponse|] == pixelResponse;
    }
  }

  /** What the end-of-frame pass leaves in cell k: its count before the
      pass plus the threshold crossings of the pixel's signal. */
  ghost function PixelCount(m: Medipix, image0: seq<nat>, k: nat): nat
    reads m`events, m`responseFunction, m`maxTime, m`th0, m`th0Dispersion
    requires k < m.nx * m.ny && k < |image0|
    requires |m.events| == m.nx * m.ny && m.maxTime >= 0.0 && |m.th0Dispersion| == m.nx * m.ny
  {
    var i := Row(k, m.nx, m.ny);
    var j := Col(k, m.nx, m.ny);
    AddMod(image0[k], Crossings(m.PixelSignal(i, j), m.GetTh0At(i, j)))
  }
}
