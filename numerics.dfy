/** Arithmetic that the sensor code inherits from C++: the truncating
    float-to-int cast, `std::max` on floats, and the wrap-around of the
    32-bit `unsigned int` counters (pixel counts, photon counter, totals). */
module Numerics {

  /** 2^32: every `unsigned int` counter of the sensor wraps at this value. */
  const U32: nat := 0x1_0000_0000

  /** The C++ cast `int(r)`: truncation toward zero, which differs from the
      floor for negative arguments. */
  function Trunc(r: real): (t: int)
    ensures 0.0 <= r ==> 0 <= t && t as real <= r < t as real + 1.0
    ensures r < 0.0 ==> t <= 0 && t as real - 1.0 < r <= t as real
  {
    if r >= 0.0 then r.Floor else -((-r).Floor)
  }

  /** `std::max(a, b)` on floats. */
  function Max(a: real, b: real): (m: real)
    ensures a <= m && b <= m && (m == a || m == b)
  {
    if a < b then b else a
  }

  /** Unsigned 32-bit addition of `c` to the counter `v`. */
  function AddMod(v: nat, c: nat): (r: nat)
    ensures r < U32
    ensures v + c < U32 ==> r == v + c
  {
    (v + c) % U32
  }

  /** Adding zero leaves a counter that is in range as it is. */
  lemma AddModZero(v: nat)
    requires v < U32
    ensures AddMod(v, 0) == v
  {
  }

  /** Incrementing a counter that already holds `v + c` (wrapped) gives
      `v + c + 1` (wrapped): repeated `+= 1` on an `unsigned int` is one
      addition modulo 2^32. */
  lemma AddModStep(v: nat, c: nat)
    ensures AddMod(AddMod(v, c), 1) == AddMod(v, c + 1)
  {
    var q := (v + c) / U32;
    assert v + c == q * U32 + AddMod(v, c);
    assert v + c + 1 == q * U32 + (AddMod(v, c) + 1);
  }

  /** Accumulating `counts += x` in an `unsigned int` equals adding to the
      unwrapped sum and wrapping once at the end. */
  lemma AddModAccumulate(a: nat, x: nat)
    ensures (a % U32 + x) % U32 == (a + x) % U32
  {
    var q := a / U32;
    assert a == q * U32 + a % U32;
    assert a + x == q * U32 + (a % U32 + x);
  }

  /** The plain sum of a sequence of counters. */
  function Sum(s: seq<nat>): nat
  {
    if s == [] then 0 else Sum(s[..|s| - 1]) + s[|s| - 1]
  }

  /** Replacing one element changes the sum by the difference. */
  lemma {:induction false} SumUpdate(s: seq<nat>, k: nat, v: nat)
    requires k < |s|
    ensures Sum(s[k := v]) == Sum(s) - s[k] + v
  {
    var t := s[k := v];
    if k == |s| - 1 {
      assert t[..|t| - 1] == s[..|s| - 1];
    } else {
      assert t[..|t| - 1] == s[..|s| - 1][k := v];
      SumUpdate(s[..|s| - 1], k, v);
    }
  }

  /** Incrementing one in-range counter (with wrap-around) increments the
      wrapped total by one. */
  lemma SumIncrement(s: seq<nat>, k: nat)
    requires k < |s| && s[k] < U32
    ensures Sum(s[k := AddMod(s[k], 1)]) % U32 == (Sum(s) + 1) % U32
  {
    SumUpdate(s, k, AddMod(s[k], 1));
    if s[k] + 1 == U32 {
      assert Sum(s[k := AddMod(s[k], 1)]) + U32 == Sum(s) + 1;
    }
  }

  /** A sequence of zero counters sums to zero. */
  lemma {:induction false} SumOfZeros(s: seq<nat>)
    requires forall k | 0 <= k < |s| :: s[k] == 0
    ensures Sum(s) == 0
  {
    if s != [] {
      SumOfZeros(s[..|s| - 1]);
    }
  }

  /** An `unsigned int` total that started at `base` and then had `added`
      added to it (with wrap-around) now holds `total` modulo 2^32. */
  predicate Accumulates(total: nat, base: nat, added: nat)
  {
    total % U32 == (base + added) % U32
  }

  /** Two accumulations in a row are one accumulation of their sum. */
  lemma AccumulatesTransitive(total: nat, next: nat, base: nat, c: nat, d: nat)
    requires Accumulates(total, base, c)
    requires Accumulates(next, total, d)
    ensures Accumulates(next, base, c + d)
  {
    AddModAccumulate(total, d);
    AddModAccumulate(base + c, d);
  }
}
