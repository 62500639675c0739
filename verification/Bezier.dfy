/** Cubic Bezier easing ("Cubic Bezier easing functions" of CSS Easing Functions Level 1), over
    exact reals. */
module Bezier {
  import opened Bernstein

  /** `window_bezier_x`; the y coordinate is the same polynomial with the y control points. */
  function Curve(t: real, c1: real, c2: real): real {
    var u := 1.0 - t;
    3.0 * u * u * t * c1 + 3.0 * u * t * t * c2 + t * t * t
  }

  datatype ControlPoints = ControlPoints(c1x: real, c1y: real, c2x: real, c2y: real)

  class CurveConfig {
    var curve: ControlPoints

    /** `set_curve`: refuses x control points outside [0, 1]. */
    method SetCurve(c1x: real, c1y: real, c2x: real, c2y: real) returns (ok: bool)
      modifies this
      ensures ok <==> Unit(c1x) && Unit(c2x)
      ensures curve == if ok then ControlPoints(c1x, c1y, c2x, c2y) else old(curve)
    {
      if c1x < 0.0 || c1x > 1.0 || c2x < 0.0 || c2x > 1.0 {
        return false;
      }
      curve := ControlPoints(c1x, c1y, c2x, c2y);
      return true;
    }
  }

  // ---- the curve ----

  /** `a * a + a * b + b * b` for numbers between -1 and 1. */
  lemma Quadratic(a: real, b: real)
    requires -1.0 <= a <= 1.0 && -1.0 <= b <= 1.0
    ensures 0.0 <= a * a + a * b + b * b <= 3.0
  {
    var s, d := a + b, a - b;
    assert a * a + a * b + b * b == (3.0 * (s * s) + d * d) / 4.0;
    assert s * s >= 0.0 && d * d >= 0.0;
    Product(1.0 - a, 1.0 + a);
    Product(1.0 - b, 1.0 + b);
    assert (1.0 - a) * (1.0 + a) == 1.0 - a * a && (1.0 - b) * (1.0 + b) == 1.0 - b * b;
    assert d * d == a * a - 2.0 * (a * b) + b * b;
  }

  // The rates at which the curve rises from `a` to `b` when both control points are 0 or 1.

  function Rate00(a: real, b: real): real {
    a * a + a * b + b * b
  }

  function Rate10(a: real, b: real): real {
    Rate00(2.0 * a - 1.0, 2.0 * b - 1.0)
  }

  function Rate01(a: real, b: real): real {
    3.0 * (a + b) - 2.0 * Rate00(a, b)
  }

  function Rate11(a: real, b: real): real {
    Rate00(1.0 - a, 1.0 - b)
  }

  lemma RateBounds(a: real, b: real)
    requires Unit(a) && Unit(b)
    ensures 0.0 <= Rate00(a, b) <= 3.0 && 0.0 <= Rate10(a, b) <= 3.0
    ensures 0.0 <= Rate01(a, b) <= 3.0 && 0.0 <= Rate11(a, b) <= 3.0
  {
    Quadratic(a, b);
    Quadratic(1.0 - a, 1.0 - b);
    Quadratic(2.0 * a - 1.0, 2.0 * b - 1.0);
    Product(a, 3.0 - 2.0 * a - b);
    Product(b, 3.0 - 2.0 * b - a);
    assert Rate01(a, b) == a * (3.0 - 2.0 * a - b) + b * (3.0 - 2.0 * b - a);
    Quadratic(a - 0.5, b - 0.5);
    assert 3.0 - Rate01(a, b) == 2.0 * Rate00(a - 0.5, b - 0.5) + 1.5;
  }

  function Mix(c: real, x: real, y: real): real {
    (1.0 - c) * x + c * y
  }

  function Cut(u: real, t: real, x: real, y: real): real {
    u * x + t * y
  }

  function Bernstein3(u: real, t: real, c1: real, c2: real): real {
    3.0 * u * u * t * c1 + 3.0 * u * t * t * c2 + t * t * t
  }

  /** The polynomial is the curve of its control points 0, `c1`, `c2` and 1: cutting the control polygon three
      times in the ratio of `t` leads to it. */
  lemma CurveIsCasteljau(t: real, u: real, c1: real, c2: real, p: real, q: real, r: real, x: real, y: real)
    requires u == 1.0 - t
    requires p == Cut(u, t, 0.0, c1) && q == Cut(u, t, c1, c2) && r == Cut(u, t, c2, 1.0)
    requires x == Cut(u, t, p, q) && y == Cut(u, t, q, r)
    ensures Curve(t, c1, c2) == Cut(u, t, x, y)
  {
    hide Cut, Curve, Bernstein3;
    CurveIs(t, u, c1, c2);
    Casteljau(t, u, c1, c2, p, q, r, x, y);
  }

  lemma CurveIs(t: real, u: real, c1: real, c2: real)
    requires u == 1.0 - t
    ensures Curve(t, c1, c2) == Bernstein3(u, t, c1, c2)
  {
  }

  lemma Casteljau(t: real, u: real, c1: real, c2: real, p: real, q: real, r: real, x: real, y: real)
    requires p == Cut(u, t, 0.0, c1) && q == Cut(u, t, c1, c2) && r == Cut(u, t, c2, 1.0)
    requires x == Cut(u, t, p, q) && y == Cut(u, t, q, r)
    ensures Cut(u, t, x, y) == Bernstein3(u, t, c1, c2)
  {
    hide Cut, Bernstein3;
    Ends(u, t, c1, c2);
    Cubic(u, t, c1, c2);
  }

  lemma Ends(u: real, t: real, c1: real, c2: real)
    ensures Cut(u, t, 0.0, c1) == t * c1 && Cut(u, t, c2, 1.0) == u * c2 + t
  {
  }

  lemma Cubic(u: real, t: real, c1: real, c2: real)
    ensures Cut(u, t, Cut(u, t, t * c1, Cut(u, t, c1, c2)), Cut(u, t, Cut(u, t, c1, c2), u * c2 + t))
         == Bernstein3(u, t, c1, c2)
  {
  }

  lemma MixBounds(c: real, x: real, y: real)
    requires Unit(c) && 0.0 <= x <= 3.0 && 0.0 <= y <= 3.0
    ensures 0.0 <= Mix(c, x, y) <= 3.0
  {
    Product(1.0 - c, x);
    Product(c, y);
    Product(1.0 - c, 3.0 - x);
    Product(c, 3.0 - y);
    assert Mix(c, 3.0 - x, 3.0 - y) == 3.0 - Mix(c, x, y);
  }

  /** The rate for any control points is a mix of the four corner rates. */
  lemma RiseIsMix(a: real, b: real, c1: real, c2: real)
    ensures Curve(b, c1, c2) - Curve(a, c1, c2)
         == (b - a) * Mix(c1, Mix(c2, Rate00(a, b), Rate01(a, b)), Mix(c2, Rate10(a, b), Rate11(a, b)))
  {
  }

  lemma Slope(a: real, b: real, c1: real, c2: real) returns (rate: real)
    requires Unit(a) && Unit(b) && Unit(c1) && Unit(c2)
    ensures Curve(b, c1, c2) - Curve(a, c1, c2) == (b - a) * rate && 0.0 <= rate <= 3.0
  {
    rate := MixedRate(a, b, c1, c2);
    RiseIsMix(a, b, c1, c2);
  }

  lemma MixedRate(a: real, b: real, c1: real, c2: real) returns (rate: real)
    requires Unit(a) && Unit(b) && Unit(c1) && Unit(c2)
    ensures rate == Mix(c1, Mix(c2, Rate00(a, b), Rate01(a, b)), Mix(c2, Rate10(a, b), Rate11(a, b)))
    ensures 0.0 <= rate <= 3.0
  {
    RateBounds(a, b);
    MixBounds(c2, Rate00(a, b), Rate01(a, b));
    MixBounds(c2, Rate10(a, b), Rate11(a, b));
    var x, y := Mix(c2, Rate00(a, b), Rate01(a, b)), Mix(c2, Rate10(a, b), Rate11(a, b));
    MixBounds(c1, x, y);
    rate := Mix(c1, x, y);
  }

  lemma Bounded(d: real, rate: real)
    requires d >= 0.0 && 0.0 <= rate <= 3.0
    ensures 0.0 <= d * rate <= 3.0 * d
  {
    Product(d, rate);
    Product(d, 3.0 - rate);
    assert d * (3.0 - rate) == 3.0 * d - d * rate;
  }

  /** With control points in [0, 1] the curve does not fall and rises at most three times as fast
      as its parameter. */
  lemma CurveMonotoneLipschitz(a: real, b: real, c1: real, c2: real)
    requires 0.0 <= a <= b <= 1.0 && Unit(c1) && Unit(c2)
    ensures 0.0 <= Curve(b, c1, c2) - Curve(a, c1, c2) <= 3.0 * (b - a)
  {
    var rate := Slope(a, b, c1, c2);
    Bounded(b - a, rate);
  }

  // ---- curves that do not fall ----

  /** A third of the derivative, with control points `a` and `b`. */
  function Rise(u: real, a: real, b: real): real {
    Quad(u, a, b - a, 1.0 - b)
  }

  /** Simpson's rule, which is exact here. */
  lemma RiseBetween(s: real, t: real, a: real, b: real)
    ensures Curve(t, a, b) - Curve(s, a, b)
         == (t - s) / 2.0 * (Rise(s, a, b) + 4.0 * Rise((s + t) / 2.0, a, b) + Rise(t, a, b))
  {
  }

  predicate NeverFalls(a: real, b: real) {
    a >= 0.0 && b <= 1.0 && (a <= b || (b - a) * (b - a) <= a * (1.0 - b))
  }

  lemma Falling(s: real, t: real, a: real, b: real)
    requires s < t && Rise(s, a, b) < 0.0 && Rise((s + t) / 2.0, a, b) < 0.0 && Rise(t, a, b) < 0.0
    ensures Curve(t, a, b) < Curve(s, a, b)
  {
    RiseBetween(s, t, a, b);
    SignOf((t - s) / 2.0, Rise(s, a, b) + 4.0 * Rise((s + t) / 2.0, a, b) + Rise(t, a, b));
  }

  /** The curve never falls on [0, 1] exactly if the condition on its control points holds. They need
      not lie in [0, 1] themselves for that. */
  lemma NeverFallsIff(a: real, b: real)
    ensures (forall s, t :: 0.0 <= s <= t <= 1.0 ==> Curve(s, a, b) <= Curve(t, a, b)) <==> NeverFalls(a, b)
  {
    if NeverFalls(a, b) {
      forall s, t | 0.0 <= s <= t <= 1.0
        ensures Curve(s, a, b) <= Curve(t, a, b)
      {
        NoFall(s, t, a, b);
      }
    } else {
      var u := BelowSomewhere(a, b - a, 1.0 - b);
      var s, t := BelowAround(u, a, b - a, 1.0 - b);
      Falling(s, t, a, b);
    }
  }

  lemma NoFall(s: real, t: real, a: real, b: real)
    requires 0.0 <= s <= t <= 1.0 && NeverFalls(a, b)
    ensures Curve(s, a, b) <= Curve(t, a, b)
  {
    hide Curve, Quad;
    QuadNotNegative(s, a, b - a, 1.0 - b);
    QuadNotNegative((s + t) / 2.0, a, b - a, 1.0 - b);
    QuadNotNegative(t, a, b - a, 1.0 - b);
    RiseBetween(s, t, a, b);
    Product((t - s) / 2.0, Rise(s, a, b) + 4.0 * Rise((s + t) / 2.0, a, b) + Rise(t, a, b));
  }

  // ---- curves that stay in [0, 1] ----

  predicate StaysAbove(a: real, b: real) {
    a >= 0.0 && (b >= 0.0 || 3.0 * (b * b) <= 4.0 * a)
  }

  /** Turned by half a turn, the curve has the mirrored control points. */
  predicate Stays(a: real, b: real) {
    StaysAbove(a, b) && StaysAbove(1.0 - b, 1.0 - a)
  }

  lemma CurveIsProduct(t: real, a: real, b: real)
    ensures Curve(t, a, b) == t * Quad(t, 3.0 * a, 1.5 * b, 1.0)
  {
  }

  lemma CurveTurned(t: real, a: real, b: real)
    ensures 1.0 - Curve(t, a, b) == Curve(1.0 - t, 1.0 - b, 1.0 - a)
  {
  }

  lemma AboveIs(a: real, b: real)
    ensures StaysAbove(a, b) <==> NotNegative(3.0 * a, 1.5 * b, 1.0)
  {
    assert (1.5 * b) * (1.5 * b) == 0.75 * (3.0 * (b * b));
  }

  lemma NotBelow(t: real, a: real, b: real)
    requires Unit(t) && StaysAbove(a, b)
    ensures Curve(t, a, b) >= 0.0
  {
    AboveIs(a, b);
    QuadNotNegative(t, 3.0 * a, 1.5 * b, 1.0);
    CurveIsProduct(t, a, b);
    Product(t, Quad(t, 3.0 * a, 1.5 * b, 1.0));
  }

  lemma GoesBelow(a: real, b: real) returns (t: real)
    requires !StaysAbove(a, b)
    ensures Unit(t) && Curve(t, a, b) < 0.0
  {
    AboveIs(a, b);
    var u := BelowSomewhere(3.0 * a, 1.5 * b, 1.0);
    var s;
    s, t := BelowAround(u, 3.0 * a, 1.5 * b, 1.0);
    CurveIsProduct(t, a, b);
    SignOf(t, Quad(t, 3.0 * a, 1.5 * b, 1.0));
  }

  lemma InUnit(t: real, a: real, b: real)
    requires Unit(t) && Stays(a, b)
    ensures Unit(Curve(t, a, b))
  {
    NotBelow(t, a, b);
    NotBelow(1.0 - t, 1.0 - b, 1.0 - a);
    CurveTurned(t, a, b);
  }

  /** The curve stays in [0, 1] exactly if the condition on its control points holds. */
  lemma StaysIff(a: real, b: real)
    ensures (forall t :: Unit(t) ==> Unit(Curve(t, a, b))) <==> Stays(a, b)
  {
    if Stays(a, b) {
      forall t | Unit(t)
        ensures Unit(Curve(t, a, b))
      {
        InUnit(t, a, b);
      }
    } else if !StaysAbove(a, b) {
      var t := GoesBelow(a, b);
    } else {
      var t := GoesBelow(1.0 - b, 1.0 - a);
      CurveTurned(1.0 - t, a, b);
      assert !Unit(Curve(1.0 - t, a, b)) && Unit(1.0 - t);
    }
  }

  /** A curve that never falls stays between its ends. */
  lemma NoFallStays(a: real, b: real)
    requires NeverFalls(a, b)
    ensures Stays(a, b)
  {
    forall t | Unit(t)
      ensures Unit(Curve(t, a, b))
    {
      NoFall(0.0, t, a, b);
      NoFall(t, 1.0, a, b);
      CurveEnds(a, b);
    }
    StaysIff(a, b);
  }

  lemma CurveEnds(a: real, b: real)
    ensures Curve(0.0, a, b) == 0.0 && Curve(1.0, a, b) == 1.0
  {
  }

  // ---- the bisection ----

  const ITERATIONS := 32

  function HalfPower(n: nat): real {
    if n == 0 then 1.0 else HalfPower(n - 1) / 2.0
  }

  /** The interval after `n` halvings. */
  function Bisect(progress: real, c1x: real, c2x: real, n: nat): (real, real) {
    if n == 0 then (0.0, 1.0)
    else
      var (low, high) := Bisect(progress, c1x, c2x, n - 1);
      var mid := (low + high) * 0.5;
      if Curve(mid, c1x, c2x) < progress then (mid, high) else (low, mid)
  }

  /** The curve time found for a progress. */
  function Time(progress: real, c1x: real, c2x: real): real {
    var (low, high) := Bisect(progress, c1x, c2x, ITERATIONS);
    (low + high) * 0.5
  }

  function Ease(progress: real, c: ControlPoints): real {
    if progress <= 0.0 then 0.0
    else if progress >= 1.0 then 1.0
    else Curve(Time(progress, c.c1x, c.c2x), c.c1y, c.c2y)
  }

  /** `window_bezier_ease`. */
  method WindowBezierEase(progress: real, c: ControlPoints) returns (eased: real)
    ensures eased == Ease(progress, c)
  {
    if progress <= 0.0 {
      return 0.0;
    }
    if progress >= 1.0 {
      return 1.0;
    }
    var tLow, tHigh := 0.0, 1.0;
    for iteration := 0 to 32
      invariant (tLow, tHigh) == Bisect(progress, c.c1x, c.c2x, iteration)
    {
      var tMid := (tLow + tHigh) * 0.5;
      if Curve(tMid, c.c1x, c.c2x) < progress {
        tLow := tMid;
      } else {
        tHigh := tMid;
      }
    }
    eased := Curve((tLow + tHigh) * 0.5, c.c1y, c.c2y);
  }

  /** Every halving keeps the crossing inside the interval and cuts its width in two. */
  lemma {:induction false} BisectBrackets(progress: real, c1x: real, c2x: real, n: nat)
    requires 0.0 < progress < 1.0
    ensures var (low, high) := Bisect(progress, c1x, c2x, n);
      && 0.0 <= low < high <= 1.0 && high - low == HalfPower(n)
      && Curve(low, c1x, c2x) < progress <= Curve(high, c1x, c2x)
  {
    if n > 0 {
      BisectBrackets(progress, c1x, c2x, n - 1);
      HalfPowerPositive(n - 1);
    }
  }

  lemma {:induction false} HalfPowerPositive(n: nat)
    ensures HalfPower(n) > 0.0
  {
    if n > 0 { HalfPowerPositive(n - 1); }
  }

  lemma HalfPower32()
    ensures HalfPower(32) == 1.0 / 4294967296.0
  {
    assert HalfPower(4) == 1.0 / 16.0;
    assert HalfPower(8) == 1.0 / 256.0;
    assert HalfPower(12) == 1.0 / 4096.0;
    assert HalfPower(16) == 1.0 / 65536.0;
    assert HalfPower(20) == 1.0 / 1048576.0;
    assert HalfPower(24) == 1.0 / 16777216.0;
    assert HalfPower(28) == 1.0 / 268435456.0;
  }

  /** Accuracy: for every curve `set_curve` accepts, the time found hits the progress within 3/2^33. */
  lemma EasingAccuracy(progress: real, c1x: real, c2x: real)
    requires 0.0 < progress < 1.0 && Unit(c1x) && Unit(c2x)
    ensures Unit(Time(progress, c1x, c2x))
    ensures -3.0 / 8589934592.0 <= Curve(Time(progress, c1x, c2x), c1x, c2x) - progress <= 3.0 / 8589934592.0
  {
    BisectBrackets(progress, c1x, c2x, ITERATIONS);
    HalfPower32();
    var (low, high) := Bisect(progress, c1x, c2x, ITERATIONS);
    var t := (low + high) * 0.5;
    CurveMonotoneLipschitz(low, t, c1x, c2x);
    CurveMonotoneLipschitz(t, high, c1x, c2x);
    assert t - low == 1.0 / 8589934592.0 && high - t == 1.0 / 8589934592.0;
  }

  const ACCURACY := 3.0 / 8589934592.0

  predicate Near(x: real, y: real) {
    -ACCURACY <= x - y <= ACCURACY
  }

  /** What easing computes: nothing before the start, all of it after the end, and between them the height of the
      curve at a place `t` where its x coordinate is the progress, within 3/2^33. */
  lemma EaseOnCurve(p: real, c: ControlPoints) returns (t: real)
    requires Unit(c.c1x) && Unit(c.c2x)
    ensures p <= 0.0 ==> Ease(p, c) == 0.0
    ensures p >= 1.0 ==> Ease(p, c) == 1.0
    ensures 0.0 < p < 1.0 ==> Unit(t) && Near(Curve(t, c.c1x, c.c2x), p) && Ease(p, c) == Curve(t, c.c1y, c.c2y)
  {
    hide Curve;
    t := Time(p, c.c1x, c.c2x);
    if 0.0 < p < 1.0 {
      EasingAccuracy(p, c.c1x, c.c2x);
    }
  }

  /** So a curve whose two coordinates are the same leaves the progress as it is, within 3/2^33. */
  lemma EaseIdentity(p: real, c: ControlPoints)
    requires Unit(p) && Unit(c.c1x) && Unit(c.c2x) && c.c1y == c.c1x && c.c2y == c.c2x
    ensures Near(Ease(p, c), p)
  {
    hide Curve, Time;
    var t := EaseOnCurve(p, c);
  }

  /** Two searches stay together until they part, the one for more progress to the right; this
      needs nothing of the curve. */
  lemma {:induction false} BisectMonotone(p: real, q: real, c1x: real, c2x: real, n: nat)
    requires p <= q && 0.0 < p < 1.0 && 0.0 < q < 1.0
    ensures Bisect(p, c1x, c2x, n) == Bisect(q, c1x, c2x, n)
      || Bisect(p, c1x, c2x, n).1 <= Bisect(q, c1x, c2x, n).0
  {
    hide Curve, HalfPower;
    if n > 0 {
      BisectMonotone(p, q, c1x, c2x, n - 1);
      BisectBrackets(p, c1x, c2x, n - 1);
      BisectBrackets(q, c1x, c2x, n - 1);
    }
  }

  /** Where the y coordinate never falls, the eased value stays in [0, 1] and never falls as the progress
      rises. */
  lemma EaseMonotone(p: real, q: real, c: ControlPoints)
    requires p <= q && Unit(c.c1x) && Unit(c.c2x) && NeverFalls(c.c1y, c.c2y)
    ensures 0.0 <= Ease(p, c) <= Ease(q, c) <= 1.0
  {
    NoFallStays(c.c1y, c.c2y);
    EaseInUnit(p, c);
    EaseInUnit(q, c);
    if 0.0 < p && q < 1.0 {
      EasingAccuracy(p, c.c1x, c.c2x);
      EasingAccuracy(q, c.c1x, c.c2x);
      TimeMonotone(p, q, c.c1x, c.c2x);
      NoFall(Time(p, c.c1x, c.c2x), Time(q, c.c1x, c.c2x), c.c1y, c.c2y);
    }
  }

  lemma TimeMonotone(p: real, q: real, c1x: real, c2x: real)
    requires p <= q && 0.0 < p && q < 1.0
    ensures Time(p, c1x, c2x) <= Time(q, c1x, c2x)
  {
    BisectMonotone(p, q, c1x, c2x, ITERATIONS);
    BisectBrackets(p, c1x, c2x, ITERATIONS);
    BisectBrackets(q, c1x, c2x, ITERATIONS);
  }

  /** Where the y coordinate stays in [0, 1] so does the eased value. */
  lemma EaseInUnit(p: real, c: ControlPoints)
    requires Unit(c.c1x) && Unit(c.c2x) && Stays(c.c1y, c.c2y)
    ensures Unit(Ease(p, c))
  {
    if 0.0 < p < 1.0 {
      EasingAccuracy(p, c.c1x, c.c2x);
      InUnit(Time(p, c.c1x, c.c2x), c.c1y, c.c2y);
    }
  }

  lemma UnitNeverFalls(a: real, b: real)
    requires Unit(a) && Unit(b)
    ensures NeverFalls(a, b)
  {
    if b < a {
      Product(b, a - b);
      Product(1.0 - a, a - b);
      assert a * (1.0 - b) - (b - a) * (b - a) == b * (a - b) + a * (1.0 - a);
      Product(a, 1.0 - a);
    }
  }

  /** In particular a curve all of whose control points lie in the unit square eases without falling and
      stays in [0, 1]. */
  lemma UnitEaseMonotone(p: real, q: real, c: ControlPoints)
    requires p <= q && Unit(c.c1x) && Unit(c.c2x) && Unit(c.c1y) && Unit(c.c2y)
    ensures 0.0 <= Ease(p, c) <= Ease(q, c) <= 1.0
  {
    UnitNeverFalls(c.c1y, c.c2y);
    EaseMonotone(p, q, c);
  }

  /** There are curves that `set_curve` accepts and that pass their end on the way. */
  lemma Overshoots()
    ensures exists c: ControlPoints, progress: real :: Unit(c.c1x) && Unit(c.c2x) && Ease(progress, c) > 1.0
  {
    var c, half := ControlPoints(0.0, 1.0, 1.0, 3.0), 0.5;
    EasingAccuracy(half, c.c1x, c.c2x);
    HalfWay(Time(half, c.c1x, c.c2x), half, c);
    assert Ease(half, c) > 1.0;
  }

  /** One of them: wherever it is half-way, within a hundredth, it is beyond its end. */
  lemma HalfWay(t: real, half: real, c: ControlPoints)
    requires c == ControlPoints(0.0, 1.0, 1.0, 3.0) && half == 0.5 && Unit(t)
    requires Curve(t, c.c1x, c.c2x) - half <= 0.01 && half - Curve(t, c.c1x, c.c2x) <= 0.01
    ensures Curve(t, c.c1y, c.c2y) > 1.0
  {
    assert Curve(0.4, 0.0, 1.0) == 0.352 && Curve(0.6, 0.0, 1.0) == 0.648;
    if t < 0.4 {
      CurveMonotoneLipschitz(t, 0.4, 0.0, 1.0);
    }
    if t > 0.6 {
      CurveMonotoneLipschitz(0.6, t, 0.0, 1.0);
    }
    assert 0.4 <= t <= 0.6;
    assert Curve(t, 1.0, 3.0) == 3.0 * t + (t * t) * (3.0 - 5.0 * t);
    Square(t);
    Product(t * t, 3.0 - 5.0 * t);
  }
}
