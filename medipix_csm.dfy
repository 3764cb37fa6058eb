/** Charge-summing mode: both operations only delegate to the base sensor,
    so this variant records no count at injection and adds none at the end
    of a frame. */
module ChargeSummingMode {
  import opened Numerics
  import opened Pileup
  import opened Detector

  /** Injects a photon: only the base effect (photon counter and, in timed
      mode, the latest event time). */
  method AddPhoton(m: Medipix, energy: real, x: real, y: real, radius: int, time: real)
    requires m.Valid()
    modifies m`maxTime, m`realPhotons
    ensures m.Valid()
    ensures m.realPhotons == AddMod(old(m.realPhotons), 1)
    ensures m.maxTime == if m.timed then Max(old(m.maxTime), time) else old(m.maxTime)
    ensures m.image == old(m.image) && m.events == old(m.events)
  {
    m.AddPhoton(energy, x, y, radius, time);
  }

  /** Finishes a frame: only the base effect (the response is rebuilt in
      timed mode). */
  method FinishFrame(m: Medipix)
    requires m.Valid()
    modifies m`responseFunction
    ensures m.Valid()
    ensures m.responseFunction == if m.timed then KrumResponse(m.samplesPerUs) else old(m.responseFunction)
    ensures m.image == old(m.image)
  {
    m.FinishFrame();
  }

  /** A call a client makes on the sensor during a frame. */
  datatype Call =
    | AddPhotonCall(energy: real, x: real, y: real, radius: int, time: real)
    | FinishFrameCall

  /** Number of photon injections among the calls. */
  function PhotonCalls(calls: seq<Call>): nat
  {
    if calls == [] then 0
    else PhotonCalls(calls[..|calls| - 1]) + (if calls[|calls| - 1].AddPhotonCall? then 1 else 0)
  }

  /** A whole frame through this variant: start the frame, make the calls in
      order, read the total. The total is always 0, the image stays blank,
      and the photon counter holds the number of injections (modulo 2^32). */
  method RunFrame(m: Medipix, calls: seq<Call>) returns (total: nat)
    requires m.Valid()
    modifies m`image, m`maxTime, m`realPhotons, m`events, m`responseFunction
    ensures m.Valid() && m.FrameStarted()
    ensures total == 0
    ensures forall k | 0 <= k < |m.image| :: m.image[k] == 0
    ensures m.realPhotons == PhotonCalls(calls) % U32
  {
    m.StartFrame();
    var c := 0;
    while c < |calls|
      invariant 0 <= c <= |calls|
      invariant m.Valid() && m.FrameStarted()
      invariant forall k | 0 <= k < |m.image| :: m.image[k] == 0
      invariant m.realPhotons == PhotonCalls(calls[..c]) % U32
    {
      assert calls[..c + 1][..c] == calls[..c];
      match calls[c] {
        case AddPhotonCall(energy, x, y, radius, time) =>
          AddModAccumulate(PhotonCalls(calls[..c]), 1);
          AddPhoton(m, energy, x, y, radius, time);
        case FinishFrameCall =>
          FinishFrame(m);
      }
      c := c + 1;
    }
    assert calls[..c] == calls;
    SumOfZeros(m.image);
    total := m.GetTotalCounts();
  }
}
