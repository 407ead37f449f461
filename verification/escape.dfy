/**
 * The integer shape of `mandelbrot`: iterations 1 to 254 each test the
 * current orbit value for escape and otherwise advance it; the first escape
 * at iteration `i` gives the grey `(i, i, i)`, no escape gives black.
 *
 * The complex arithmetic is abstracted away: `start` is the orbit's first
 * value, `step` the update `z * z + point`, and `escaped` the test
 * `abs(z) > 4.0`.
 */
module Escape {
  import opened Ppm

  /** The iteration range `1..255` is exclusive: the last iteration is 254. */
  const IterationBound: nat := 255

  /** The orbit value the escape test examines at iteration `n + 1`. */
  function Orbit<Z>(step: Z -> Z, start: Z, n: nat): Z {
    if n == 0 then start else step(Orbit(step, start, n - 1))
  }

  /** The escape test holds at iteration `k` (the first iteration is 1). */
  predicate EscapesAt<Z>(step: Z -> Z, escaped: Z -> bool, start: Z, k: nat)
    requires 1 <= k
  {
    escaped(Orbit(step, start, k - 1))
  }

  /**
   * The iteration at which the orbit first escapes, where `z` is the value
   * the escape test examines at iteration `i`; 0 when it does not escape by iteration 254.
   */
  function EscapeTime<Z>(step: Z -> Z, escaped: Z -> bool, z: Z, i: nat): (t: nat)
    ensures t == 0 || i <= t < IterationBound
    decreases IterationBound - i
  {
    if i >= IterationBound then 0
    else if escaped(z) then i
    else EscapeTime(step, escaped, step(z), i + 1)
  }

  /**
   * Escape time is the first escaping iteration: when it is `t > 0`, the
   * orbit escapes at `t` and at no earlier iteration; it is 0 exactly when
   * no iteration from 1 to 254 escapes.
   */
  lemma {:induction false} EscapeTimeIsFirstEscape<Z>(step: Z -> Z, escaped: Z -> bool, start: Z, i: nat)
    requires 1 <= i
    ensures var t := EscapeTime(step, escaped, Orbit(step, start, i - 1), i);
      && (t != 0 ==> EscapesAt(step, escaped, start, t))
      && (t != 0 ==> forall k :: i <= k < t ==> !EscapesAt(step, escaped, start, k))
      && (t == 0 <==> forall k :: i <= k < IterationBound ==> !EscapesAt(step, escaped, start, k))
    decreases IterationBound - i
  {
    var z := Orbit(step, start, i - 1);
    if i < IterationBound && !escaped(z) {
      assert !EscapesAt(step, escaped, start, i);
      assert Orbit(step, start, i) == step(z);
      EscapeTimeIsFirstEscape(step, escaped, start, i + 1);
    }
  }

  /** The colour `mandelbrot` returns for an escape time. */
  function Grey(t: nat): (p: Pixel)
    requires t < IterationBound
    ensures p.r == p.g == p.b == t
  {
    Pixel(t, t, t)
  }

  /**
   * `mandelbrot`: returns the grey of the orbit's escape time; the result is
   * always grey and never 255.
   */
  method Mandelbrot<Z>(step: Z -> Z, escaped: Z -> bool, start: Z) returns (p: Pixel)
    ensures p == Grey(EscapeTime(step, escaped, start, 1))
    ensures p.r == p.g == p.b < 255
  {
    var z := start;
    for i := 1 to IterationBound
      invariant EscapeTime(step, escaped, z, i) == EscapeTime(step, escaped, start, 1)
    {
      if escaped(z) {
        return Pixel(i, i, i);
      }
      z := step(z);
    }
    return Pixel(0, 0, 0);
  }
}
