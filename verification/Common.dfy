/** Arithmetic, option values and sequence sums shared by the peripheral models. */
module Common {

  datatype Option<+T> = None | Some(value: T)

  function Pow2(n: nat): (p: nat)
    ensures p >= 1
  {
    if n == 0 then 1 else 2 * Pow2(n - 1)
  }

  function Min(a: int, b: int): int {
    if a <= b then a else b
  }

  function Sum(xs: seq<nat>): nat {
    if xs == [] then 0 else Sum(xs[..|xs| - 1]) + xs[|xs| - 1]
  }

  lemma SumSnoc(xs: seq<nat>, x: nat)
    ensures Sum(xs + [x]) == Sum(xs) + x
  {
    assert (xs + [x])[..|xs|] == xs;
  }

  /** A sum lies between the least and the greatest element, once per element. */
  lemma {:induction false} SumBounds(xs: seq<nat>, lo: nat, hi: nat)
    requires forall i :: 0 <= i < |xs| ==> lo <= xs[i] <= hi
    ensures lo * |xs| <= Sum(xs) <= hi * |xs|
  {
    if xs != [] {
      var n := |xs| - 1;
      OneMore(lo, n);
      OneMore(hi, n);
      SumBounds(xs[..n], lo, hi);
    }
  }

  lemma OneMore(a: nat, n: nat)
    ensures a * (n + 1) == a * n + a
  {
  }

  function Quotient(n: nat, p: nat): nat
    requires p > 0
  {
    n / p
  }

  function Remainder(n: nat, p: nat): nat
    requires p > 0
  {
    n % p
  }

  lemma MulMonotone(a: int, b: int, n: nat)
    ensures a <= b ==> a * n <= b * n
  {
    if a <= b {
      assert (b - a) * n >= 0;
    }
  }

  lemma QuotientBounds(total: nat, n: nat, lo: nat, hi: nat)
    requires n > 0 && lo * n <= total <= hi * n
    ensures lo <= total / n <= hi
  {
    var q := total / n;
    MulMonotone(q + 1, lo, n);
    MulMonotone(hi + 1, q, n);
  }

  lemma QuotientMonotone(a: nat, b: nat, n: nat)
    requires n > 0 && a <= b
    ensures Quotient(a, n) <= Quotient(b, n)
  {
    DivModUnique(a, n, a / n, a % n);
    MulMonotone(b / n + 1, a / n, n);
  }

  lemma DivModUnique(n: nat, p: nat, q: nat, r: nat)
    requires p > 0 && n == q * p + r && r < p
    ensures n / p == q && n % p == r
  {
    MulMonotone(n / p + 1, q, p);
    MulMonotone(q + 1, n / p, p);
  }

  lemma Distribute(a: int, b: int, n: int)
    ensures (a + b) * n == a * n + b * n
  {
  }

  lemma DivModCarry(a: nat, b: nat, p: nat, q: nat, f: nat, r: nat, g: nat)
    requires p > 0 && a == q * p + f && f + b == r * p + g && g < p
    ensures (a + b) / p == q + r && (a + b) % p == g
  {
    Distribute(q, r, p);
    DivModUnique(a + b, p, q + r, g);
  }

  /** Splitting a dividend in two steps and carrying the remainder loses nothing. */
  lemma DivModSplit(a: nat, b: nat, p: nat)
    requires p > 0
    ensures (a + b) / p == a / p + (a % p + b) / p
    ensures (a + b) % p == (a % p + b) % p
  {
    DivModCarry(a, b, p, a / p, a % p, (a % p + b) / p, (a % p + b) % p);
  }

  /** A quotient reaches k exactly when the dividend reaches k whole divisors. */
  lemma DivAtLeast(n: nat, p: nat, k: nat)
    requires p > 0
    ensures n / p >= k <==> n >= k * p
  {
    MulMonotone(k, n / p, p);
    MulMonotone(n / p + 1, k, p);
  }

  /** Results announced within k clocks: the first after `first`, then, if free running,
      one a round. */
  function ResultsDue(freeRun: bool, first: int, round: nat, k: int): nat
    requires round > 0
  {
    if k < first then 0 else if freeRun then 1 + Quotient(k - first, round) else 1
  }

  /** Letting d clocks pass, no further than to the first result. */
  lemma DueAdvance(freeRun: bool, first: nat, round: nat, d: nat, k: nat)
    requires round > 0 && d <= first && first >= 1
    ensures d < first ==> ResultsDue(freeRun, first, round, d + k) == ResultsDue(freeRun, first - d, round, k)
    ensures d == first && freeRun ==> ResultsDue(freeRun, first, round, d + k) == 1 + ResultsDue(freeRun, round, round, k)
  {
    if d == first && freeRun {
      if k < round {
        DivModUnique(k, round, 0, k);
      } else {
        DivModUnique(round, round, 1, 0);
        DivModSplit(round, k - round, round);
      }
    }
  }

  lemma Scaled(ratio: real, top: real)
    requires 0.0 <= ratio <= 1.0 && top >= 0.0
    ensures 0.0 <= ratio * top <= top
  {
    assert (1.0 - ratio) * top >= 0.0;
  }

  /** A nearest code, the higher one half way. */
  function Rounded(exact: real, max: nat): (code: int)
    ensures -0.5 <= exact - code as real < 0.5
    ensures 0.0 <= exact <= max as real ==> 0 <= code <= max
  {
    var code := (exact + 0.5).Floor;
    assert 0.0 <= exact <= max as real ==> 0 <= code < max + 1;
    code
  }

  function Clamped(x: real, lo: real, hi: real): real {
    if x < lo then lo else if x > hi then hi else x
  }

  /** If the first result is due after one round too, the k-th is due after k rounds. */
  lemma DueEvery(freeRun: bool, round: nat, total: nat, k: nat)
    requires round > 0 && k >= 1
    ensures ResultsDue(freeRun, round, round, total) >= k <==> total >= k * round && (k == 1 || freeRun)
  {
    Distribute(k - 1, 1, round);
    if total >= round {
      DivAtLeast(total - round, round, k - 1);
    } else {
      MulMonotone(0, k - 1, round);
    }
  }

  /** A conversion to int, toward zero. */
  function Truncated(x: real): int {
    if x >= 0.0 then x.Floor else -(-x).Floor
  }

  /** A smaller divisor gives a greater quotient, if the quotient by the greater one reaches it. */
  lemma LargerQuotient(sum: nat, n: nat, d: nat)
    requires 0 < d < n && Quotient(sum, n) >= d
    ensures Quotient(sum, d) > Quotient(sum, n)
  {
    var q := Quotient(sum, n);
    DivAtLeast(sum, n, q);
    assert sum >= q * n;
    MulMonotone(d + 1, n, q);
    assert (d + 1) * q <= n * q == q * n;
    Distribute(d, 1, q);
    assert sum >= d * q + q;
    Distribute(q, 1, d);
    assert sum >= (q + 1) * d;
    DivAtLeast(sum, d, q + 1);
  }

  lemma Rescaled(x: real, y: real, vref: real)
    requires vref > 0.0
    ensures x < y <==> x * vref < y * vref
  {
    if x < y {
      assert (y - x) * vref > 0.0;
    } else {
      assert (x - y) * vref >= 0.0;
    }
  }

  lemma RatioWithin(v: real, bound: real)
    requires 0.0 < bound && -bound <= v <= bound
    ensures -1.0 <= v / bound <= 1.0
  {
    var q := v / bound;
    assert q * bound == v;
    Rescaled(1.0, q, bound);
    Rescaled(q, -1.0, bound);
  }

  /** A voltage as its part of a bound, in steps of which the bound has `scale`. */
  function Portion(v: real, bound: real, scale: real): (steps: real)
    requires bound > 0.0
    ensures 0.0 <= v <= bound && scale >= 0.0 ==> 0.0 <= steps <= scale
  {
    assert 0.0 <= v <= bound && scale >= 0.0 ==> 0.0 <= v / bound * scale <= scale by {
      if 0.0 <= v <= bound && scale >= 0.0 {
        PortionWithin(v, bound, scale);
      }
    }
    v / bound * scale
  }

  lemma PortionWithin(v: real, bound: real, scale: real)
    requires bound > 0.0 && 0.0 <= v <= bound && scale >= 0.0
    ensures 0.0 <= v / bound * scale <= scale
  {
    var ratio := v / bound;
    assert ratio * bound == v;
    Rescaled(ratio, 0.0, bound);
    Rescaled(1.0, ratio, bound);
    Scaled(ratio, scale);
  }

  lemma PortionNonNegative(v: real, bound: real, scale: real)
    requires v >= 0.0 && bound > 0.0 && scale >= 0.0
    ensures Portion(v, bound, scale) >= 0.0
  {
    assert v / bound >= 0.0;
  }

  lemma Unscaled(v: real, bound: real, scale: real)
    requires bound > 0.0
    ensures Portion(v, bound, scale) * bound == v * scale
  {
    assert v / bound * bound == v;
  }

  /** At the level-th of `scale` steps of the bound, or above it. */
  predicate Reaches(v: real, bound: real, scale: real, level: real) {
    v * scale >= level * bound
  }

  lemma PortionReaches(v: real, bound: real, scale: real, level: real)
    requires bound > 0.0
    ensures Portion(v, bound, scale) >= level <==> Reaches(v, bound, scale, level)
  {
    hide Portion;
    Unscaled(v, bound, scale);
    Rescaled(Portion(v, bound, scale), level, bound);
  }

  /** A portion, rounded down, reaches a step exactly if the value does. */
  lemma FloorAtLeast(v: real, bound: real, scale: real, k: int)
    requires bound > 0.0
    ensures Portion(v, bound, scale).Floor >= k <==> v * scale >= k as real * bound
  {
    hide Portion;
    PortionReaches(v, bound, scale, k as real);
  }

  /** The code from 0 to top of an input between 0 and bound volts. */
  function NearestCode(v: real, bound: real, top: nat): int
    requires bound > 0.0
  {
    Rounded(Portion(Clamped(v, 0.0, bound), bound, top as real), top)
  }

  /** It reaches k exactly if the input reaches half a step below that. */
  lemma NearestAtLeast(v: real, bound: real, top: nat, k: nat)
    requires bound > 0.0 && 1 <= k <= top
    ensures NearestCode(v, bound, top) >= k <==> Reaches(v, bound, top as real, k as real - 0.5)
  {
    hide Clamped, Rounded, Portion, Reaches;
    var clamped := Clamped(v, 0.0, bound);
    RoundsUp(Portion(clamped, bound, top as real), top, k);
    PortionReaches(clamped, bound, top as real, k as real - 0.5);
    ClampedAtLeast(v, bound, top as real, k as real - 0.5);
  }

  lemma RoundsUp(x: real, top: nat, k: nat)
    requires 1 <= k <= top
    ensures Rounded(x, top) >= k <==> x >= k as real - 0.5
  {
  }

  /** Of the codes 0 to top for 0 to bound, k is the nearest to v; the ends take all beyond. */
  predicate IsNearest(v: real, bound: real, top: nat, k: nat) {
    && (k == 0 || v * top as real >= (k as real - 0.5) * bound)
    && (k == top || v * top as real < (k as real + 0.5) * bound)
  }

  lemma NearestWithin(v: real, bound: real, top: nat)
    requires bound > 0.0
    ensures 0 <= NearestCode(v, bound, top) <= top
  {
    hide Rounded, Portion;
  }

  lemma NearestExact(v: real, bound: real, top: nat, k: nat)
    requires bound > 0.0 && k <= top
    ensures NearestCode(v, bound, top) == k <==> IsNearest(v, bound, top, k)
  {
    hide NearestCode;
    NearestWithin(v, bound, top);
    if k > 0 {
      NearestAtLeast(v, bound, top, k);
    }
    if k < top {
      NearestAtLeast(v, bound, top, k + 1);
    }
  }

  /** Of the steps 1 to 4095 from -bound to bound, d is in the k-th. */
  predicate IsSignedStep(d: real, bound: real, top: nat, k: int) {
    && (k == 1 || d * 2047.0 >= (k - 2048) as real * bound)
    && (k == top || d * 2047.0 < (k - 2047) as real * bound)
  }

  /** The code of a difference between -bound and bound volts. */
  function SignedCode(d: real, bound: real): int
    requires bound > 0.0
  {
    (Portion(Clamped(d, -bound, bound), bound, 2047.0) + 2048.0).Floor
  }

  lemma SignedExact(d: real, bound: real, top: nat, k: int)
    requires bound > 0.0 && 1 <= k <= top <= 4095 && 1 <= SignedCode(d, bound)
    ensures Min(SignedCode(d, bound), top) == k <==> IsSignedStep(d, bound, top, k)
  {
    hide SignedCode;
    if k > 1 {
      SignedAtLeast(d, bound, k);
    }
    if k < top {
      SignedAtLeast(d, bound, k + 1);
    }
  }

  /** It reaches k exactly if the difference reaches the k-th step. */
  lemma SignedAtLeast(d: real, bound: real, k: int)
    requires bound > 0.0 && 2 <= k <= 4095
    ensures SignedCode(d, bound) >= k <==> Reaches(d, bound, 2047.0, (k - 2048) as real)
  {
    hide Clamped, Portion, Reaches;
    PortionReaches(Clamped(d, -bound, bound), bound, 2047.0, (k - 2048) as real);
    BothClampedAtLeast(d, bound, 2047.0, (k - 2048) as real);
  }

  /** Within the clamp, clamping does not matter. */
  lemma ClampedAtLeast(v: real, bound: real, top: real, level: real)
    requires bound > 0.0 && 0.0 < level <= top
    ensures Reaches(Clamped(v, 0.0, bound), bound, top, level) <==> Reaches(v, bound, top, level)
  {
    Rescaled(0.0, level, bound);
    Rescaled(top, level, bound);
    if v < 0.0 {
      Rescaled(v, 0.0, top);
    } else if v > bound {
      Rescaled(bound, v, top);
      assert Clamped(v, 0.0, bound) == bound;
    }
  }

  /** The same for a clamp on both sides. */
  lemma BothClampedAtLeast(v: real, bound: real, top: real, level: real)
    requires bound > 0.0 && top > 0.0 && -top < level <= top
    ensures Reaches(Clamped(v, -bound, bound), bound, top, level) <==> Reaches(v, bound, top, level)
  {
    Rescaled(-top, level, bound);
    Rescaled(top, level, bound);
    if v < -bound {
      Rescaled(v, -bound, top);
      assert Clamped(v, -bound, bound) == -bound;
    } else if v > bound {
      Rescaled(bound, v, top);
      assert Clamped(v, -bound, bound) == bound;
    }
  }
}
