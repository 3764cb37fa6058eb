/** The timed (pile-up) read-out of a pixel, as specification functions:
    the preamplifier's impulse response, the pixel signal obtained by adding
    one scaled copy of that response per recorded event, and the count of
    strict upward threshold crossings of the sampled signal. */
module Pileup {
  import opened Numerics

  /** One charge deposit recorded for a pixel: time in microseconds, energy
      in keV. */
  datatype Event = Event(time: real, energy: real)

  /** The rough linear-ramp response used for the Krummenacher current
      setting 20: sampled at `samplesPerUs` points per microsecond over
      2 microseconds, falling linearly from 1 to 0 during the first
      microsecond and zero during the second. */
  function KrumResponse(samplesPerUs: nat): seq<real>
  {
    seq(2 * samplesPerUs, (i: nat) => if i < samplesPerUs then 1.0 - i as real / samplesPerUs as real else 0.0)
  }

  /** The response starts at 1, stays within [0, 1], has died out from the
      end of the first microsecond and never rises. */
  lemma KrumResponseShape(samplesPerUs: nat)
    requires samplesPerUs > 0
    ensures var r := KrumResponse(samplesPerUs);
            && |r| == 2 * samplesPerUs
            && r[0] == 1.0
            && (forall i | 0 <= i < |r| :: 0.0 <= r[i] <= 1.0)
            && (forall i | samplesPerUs <= i < |r| :: r[i] == 0.0)
            && (forall i, j | 0 <= i <= j < |r| :: r[j] <= r[i])
  {
    var r := KrumResponse(samplesPerUs);
    forall i | 0 <= i < |r|
      ensures 0.0 <= r[i] <= 1.0
    {
      if i < samplesPerUs {
        RampBounds(i, samplesPerUs);
      }
    }
    forall i, j | 0 <= i <= j < |r|
      ensures r[j] <= r[i]
    {
      if j < samplesPerUs {
        RampMonotone(i, j, samplesPerUs);
      }
    }
  }

  lemma RampBounds(i: nat, s: nat)
    requires i < s
    ensures 0.0 <= 1.0 - i as real / s as real <= 1.0
  {
    DivMonotone(i as real, s as real, s as real);
    DivMonotone(0.0, i as real, s as real);
  }

  lemma RampMonotone(i: nat, j: nat, s: nat)
    requires i <= j < s
    ensures 1.0 - j as real / s as real <= 1.0 - i as real / s as real
  {
    DivMonotone(i as real, j as real, s as real);
  }

  lemma DivMonotone(a: real, b: real, s: real)
    requires s > 0.0 && a <= b
    ensures a / s <= b / s
  {
    assert b / s - a / s == (b - a) / s;
  }

  /** The sample at which an event's response starts: `int(time *
      samples_per_us)`. */
  function StartIndex(e: Event, samplesPerUs: nat): int
  {
    Trunc(e.time * samplesPerUs as real)
  }

  /** The part of `Contribution` that the first `upto` response samples
      make: what a sample has received once the loop over the response has
      reached index `upto`. */
  function PartialContribution(e: Event, response: seq<real>, samplesPerUs: nat, n: int, upto: nat): real
  {
    var k := n - StartIndex(e, samplesPerUs);
    if 0 <= k < upto && k < |response| then e.energy * response[k] else 0.0
  }

  /** What one event adds to sample n: `energy * response[n - start]` where
      that response sample exists, nothing otherwise. */
  function Contribution(e: Event, response: seq<real>, samplesPerUs: nat, n: int): real
  {
    var k := n - StartIndex(e, samplesPerUs);
    if 0 <= k < |response| then e.energy * response[k] else 0.0
  }

  /** Extending the loop over the response by one sample adds that
      sample's share, when it lands on n. */
  lemma PartialContributionStep(e: Event, response: seq<real>, samplesPerUs: nat, n: int, upto: nat)
    requires upto < |response|
    ensures PartialContribution(e, response, samplesPerUs, n, upto + 1)
         == PartialContribution(e, response, samplesPerUs, n, upto)
            + (if n == StartIndex(e, samplesPerUs) + upto then e.energy * response[upto] else 0.0)
  {
  }

  /** Once the loop has covered the whole response, the event's full
      contribution is in. */
  lemma PartialContributionComplete(e: Event, response: seq<real>, samplesPerUs: nat, n: int)
    ensures PartialContribution(e, response, samplesPerUs, n, |response|) == Contribution(e, response, samplesPerUs, n)
  {
  }

  /** Sample n of the pixel signal: the sum of the contributions of all the
      pixel's events. */
  function SignalAt(events: seq<Event>, response: seq<real>, samplesPerUs: nat, n: int): real
  {
    if events == [] then 0.0
    else SignalAt(events[..|events| - 1], response, samplesPerUs, n)
         + Contribution(events[|events| - 1], response, samplesPerUs, n)
  }

  /** Recording one more event adds its contribution to every sample. */
  lemma SignalAtSnoc(events: seq<Event>, e: Event, response: seq<real>, samplesPerUs: nat, n: int)
    ensures SignalAt(events + [e], response, samplesPerUs, n)
         == SignalAt(events, response, samplesPerUs, n) + Contribution(e, response, samplesPerUs, n)
  {
    assert (events + [e])[..|events|] == events;
  }

  /** Length of the signal buffer: `int(max_time * samples_per_us)`. */
  function SignalLength(maxTime: real, samplesPerUs: nat): nat
    requires maxTime >= 0.0
  {
    Trunc(maxTime * samplesPerUs as real)
  }

  /** The sampled signal of a pixel: `len` samples, later contributions cut off. */
  function Signal(events: seq<Event>, response: seq<real>, samplesPerUs: nat, len: nat): seq<real>
  {
    seq(len, n => SignalAt(events, response, samplesPerUs, n))
  }

  /** The signal of a concatenation of event lists is the sum of their signals. */
  lemma {:induction false} SignalAtAppend(a: seq<Event>, b: seq<Event>, response: seq<real>, samplesPerUs: nat, n: int)
    ensures SignalAt(a + b, response, samplesPerUs, n)
         == SignalAt(a, response, samplesPerUs, n) + SignalAt(b, response, samplesPerUs, n)
  {
    if b == [] {
      assert a + b == a;
    } else {
      assert (a + b)[..|a + b| - 1] == a + b[..|b| - 1];
      SignalAtAppend(a, b[..|b| - 1], response, samplesPerUs, n);
    }
  }

  /** The signal does not depend on the order in which events were
      recorded: any permutation of the event list gives the same samples. */
  lemma {:induction false} SignalOrderIndependent(a: seq<Event>, b: seq<Event>, response: seq<real>,
                                                  samplesPerUs: nat, n: int)
    requires multiset(a) == multiset(b)
    ensures SignalAt(a, response, samplesPerUs, n) == SignalAt(b, response, samplesPerUs, n)
    decreases |a|
  {
    if a != [] {
      var last := a[|a| - 1];
      assert last in multiset(b);
      var k :| 0 <= k < |b| && b[k] == last;
      RemoveMatching(a, b, k);
      SignalOrderIndependent(a[..|a| - 1], b[..k] + b[k + 1..], response, samplesPerUs, n);
      SignalWithout(b, k, response, samplesPerUs, n);
    }
  }

  /** Taking the last element off one list and a matching element off a
      permutation of it leaves two permutations of each other. */
  lemma RemoveMatching<T>(a: seq<T>, b: seq<T>, k: nat)
    requires a != [] && multiset(a) == multiset(b) && k < |b| && b[k] == a[|a| - 1]
    ensures multiset(a[..|a| - 1]) == multiset(b[..k] + b[k + 1..])
  {
    var last, front, left, right := a[|a| - 1], a[..|a| - 1], b[..k], b[k + 1..];
    assert a == front + [last];
    assert multiset(a) == multiset(front) + multiset{last};
    assert b == left + [last] + right;
    assert multiset(b) == multiset(left) + multiset{last} + multiset(right);
    assert multiset(left + right) == multiset(left) + multiset(right);
    assert multiset(front) == multiset(a) - multiset{last};
    assert multiset(left) + multiset(right) == multiset(b) - multiset{last};
  }

  /** The signal of a list is the signal of the list without its k-th
      event plus that event's contribution. */
  lemma SignalWithout(b: seq<Event>, k: nat, response: seq<real>, samplesPerUs: nat, n: int)
    requires k < |b|
    ensures SignalAt(b, response, samplesPerUs, n)
         == SignalAt(b[..k] + b[k + 1..], response, samplesPerUs, n) + Contribution(b[k], response, samplesPerUs, n)
  {
    assert b == b[..k] + [b[k]] + b[k + 1..];
    SignalAtAppend(b[..k], [b[k]], response, samplesPerUs, n);
    SignalAtAppend(b[..k] + [b[k]], b[k + 1..], response, samplesPerUs, n);
    SignalAtAppend(b[..k], b[k + 1..], response, samplesPerUs, n);
    assert [b[k]][..0] == [];
  }

  /** An event whose start sample lies at or beyond the end of the buffer
      adds nothing to any sample of the buffer. */
  lemma LateEventIsCutOff(events: seq<Event>, e: Event, response: seq<real>, samplesPerUs: nat, n: int)
    requires n < StartIndex(e, samplesPerUs)
    ensures SignalAt(events + [e], response, samplesPerUs, n) == SignalAt(events, response, samplesPerUs, n)
  {
    assert (events + [e])[..|events|] == events;
  }

  /** In particular the event that set `max_time` (the last one of the
      frame) never shows in the signal, whose length is `int(max_time *
      samples_per_us)`. */
  lemma EventAtMaxTimeIsCutOff(events: seq<Event>, maxTime: real, energy: real, response: seq<real>,
                               samplesPerUs: nat, n: nat)
    requires maxTime >= 0.0 && n < SignalLength(maxTime, samplesPerUs)
    ensures SignalAt(events + [Event(maxTime, energy)], response, samplesPerUs, n)
         == SignalAt(events, response, samplesPerUs, n)
  {
    LateEventIsCutOff(events, Event(maxTime, energy), response, samplesPerUs, n);
  }

  /** A pixel without events has an all-zero signal. */
  lemma NoEventsZeroSignal(response: seq<real>, samplesPerUs: nat, len: nat)
    ensures forall n | 0 <= n < len :: Signal([], response, samplesPerUs, len)[n] == 0.0
  {
  }

  /** Number of sample indices t in [1, |s|) with s[t - 1] < thr and
      s[t] > thr: strict rising crossings of the threshold. */
  function Crossings(s: seq<real>, thr: real): nat
  {
    if |s| < 2 then 0
    else Crossings(s[..|s| - 1], thr) + (if s[|s| - 2] < thr && s[|s| - 1] > thr then 1 else 0)
  }

  /** A constant signal never crosses the threshold. */
  lemma {:induction false} ConstantSignalNoCrossings(s: seq<real>, thr: real)
    requires forall t | 0 <= t < |s| :: s[t] == s[0]
    ensures Crossings(s, thr) == 0
  {
    if |s| >= 2 {
      ConstantSignalNoCrossings(s[..|s| - 1], thr);
    }
  }

  /** Hence a pixel without events registers no count. */
  lemma NoEventsNoCounts(response: seq<real>, samplesPerUs: nat, len: nat, thr: real)
    ensures Crossings(Signal([], response, samplesPerUs, len), thr) == 0
  {
    ConstantSignalNoCrossings(Signal([], response, samplesPerUs, len), thr);
  }

  /** Two crossings are never adjacent (after a crossing the signal is above
      the threshold), so a signal of length L yields at most L / 2 counts. */
  lemma {:induction false} CrossingsAtMostHalf(s: seq<real>, thr: real)
    ensures 2 * Crossings(s, thr) <= |s|
    decreases |s|
  {
    if |s| >= 2 {
      var p := s[..|s| - 1];
      CrossingsAtMostHalf(p, thr);
      if s[|s| - 2] < thr && s[|s| - 1] > thr && |s| >= 3 {
        var q := s[..|s| - 2];
        CrossingsAtMostHalf(q, thr);
        assert p[..|p| - 1] == q;
        assert !(p[|p| - 1] > thr);
        assert Crossings(p, thr) == Crossings(q, thr);
      }
    }
  }

  /** A signal that never exceeds the threshold registers nothing. */
  lemma {:induction false} BelowThresholdNoCounts(s: seq<real>, thr: real)
    requires forall t | 0 <= t < |s| :: s[t] <= thr
    ensures Crossings(s, thr) == 0
  {
    if |s| >= 2 {
      BelowThresholdNoCounts(s[..|s| - 1], thr);
    }
  }
}
