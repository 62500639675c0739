/** The schedule of one animation, on values: how many ticks it takes, over exact reals. */
module AnimationTicks {
  import B = Bezier

  datatype Kind = Resize | Open | Close | Fullscreen

  /** The fields of an animation; `initialized` tells whether it is on the manager's list. */
  datatype AnimState = AnimState(
    progress: real, multiplier: real, durationScale: real, delay: real, kind: Kind, initialized: bool)

  /** The durations of the configuration; a negative one is not set. */
  datatype Durations = Durations(base: real, open: real, close: real, resize: real, fullscreen: real)

  function Min(x: real, y: real): real {
    if x < y then x else y
  }

  /** How far one tick moves an animation. */
  function StepOf(s: AnimState, delta: real): real {
    if s.durationScale > 0.0 then delta / s.durationScale else delta / 1.0
  }

  /** What `animation_timer` does to an animation on its list. */
  function Tick(s: AnimState, delta: real, curve: B.ControlPoints): AnimState {
    var step := StepOf(s, delta);
    if s.delay > 0.0 then
      s.(delay := if s.delay - step < 0.0 then 0.0 else s.delay - step, progress := 0.0, multiplier := 0.0)
    else
      var progress := Min(s.progress + step, 1.0);
      s.(progress := progress, multiplier := B.Ease(progress, curve), initialized := progress != 1.0)
  }

  /** An animation after `n` ticks; ticks do not touch it once it is off the list. */
  function After(s: AnimState, delta: real, curve: B.ControlPoints, n: nat): AnimState {
    if n == 0 then s
    else
      var t := After(s, delta, curve, n - 1);
      if t.initialized then Tick(t, delta, curve) else t
  }

  /** As `add_animation` leaves it. */
  predicate Added(s: AnimState) {
    s.initialized && s.progress == 0.0 && s.multiplier == 0.0
  }

  // ---- rounding up ----

  function Ceil(x: real): int {
    -((-x).Floor)
  }

  lemma CeilIs(x: real, n: int)
    requires (n as real) - 1.0 < x <= n as real
    ensures Ceil(x) == n
  {
  }

  /** The number of steps of size `step` that cover `x`. */
  lemma StepsCover(x: real, step: real) returns (n: nat)
    requires step > 0.0 && x >= 0.0
    ensures n == Ceil(x / step) && Times(n, step) >= x && (n > 0 ==> Times(n - 1, step) < x)
  {
    var q := x / step;
    n := Ceil(q);
    Covers(x, step, q, n);
    if n > 0 { FallsShort(x, step, q, n - 1); }
  }

  lemma Covers(x: real, step: real, q: real, n: nat)
    requires step > 0.0 && q * step == x && q <= n as real
    ensures Times(n, step) >= x
  {
    Monotone(q, n as real, step);
  }

  lemma FallsShort(x: real, step: real, q: real, n: nat)
    requires step > 0.0 && q * step == x && (n as real) < q
    ensures Times(n, step) < x
  {
    StrictlyMonotone(n as real, q, step);
  }

  function Times(n: nat, step: real): real {
    (n as real) * step
  }

  lemma Monotone(x: real, y: real, step: real)
    requires x <= y && step > 0.0
    ensures x * step <= y * step
  {
    assert (y - x) * step >= 0.0;
  }

  lemma StrictlyMonotone(x: real, y: real, step: real)
    requires x < y && step > 0.0
    ensures x * step < y * step
  {
    assert (y - x) * step > 0.0;
  }

  lemma TimesNext(n: nat, step: real)
    ensures Times(n + 1, step) == Times(n, step) + step && Times(0, step) == 0.0
  {
    assert (n + 1) as real == (n as real) + 1.0;
  }

  lemma TimesMonotone(m: nat, n: nat, step: real)
    requires m <= n && step > 0.0
    ensures Times(m, step) <= Times(n, step)
  {
    Monotone(m as real, n as real, step);
  }

  // ---- the schedule ----

  /** While it is delayed an animation only counts down. */
  lemma {:induction false} DelayPhase(s: AnimState, delta: real, curve: B.ControlPoints, d: nat, n: nat)
    requires Added(s) && delta > 0.0 && StepOf(s, delta) > 0.0
    requires s.delay >= 0.0 && Times(d, StepOf(s, delta)) >= s.delay
    requires d > 0 ==> Times(d - 1, StepOf(s, delta)) < s.delay
    requires n <= d
    ensures var t := After(s, delta, curve, n); var left := s.delay - Times(n, StepOf(s, delta));
      t == s.(delay := if left < 0.0 then 0.0 else left)
  {
    var step := StepOf(s, delta);
    if n == 0 {
      TimesNext(0, step);
      assert s == s.(delay := s.delay);
    } else {
      DelayPhase(s, delta, curve, d, n - 1);
      TimesNext(n - 1, step);
      TimesMonotone(n - 1, d - 1, step);
    }
  }

  /** Then its progress grows by one step a tick until it is 1. */
  lemma {:induction false} ProgressPhase(s: AnimState, delta: real, curve: B.ControlPoints, d: nat, p: nat, k: nat)
    requires Added(s) && delta > 0.0 && StepOf(s, delta) > 0.0
    requires s.delay >= 0.0 && Times(d, StepOf(s, delta)) >= s.delay
    requires d > 0 ==> Times(d - 1, StepOf(s, delta)) < s.delay
    requires p > 0 && Times(p, StepOf(s, delta)) >= 1.0 && Times(p - 1, StepOf(s, delta)) < 1.0
    ensures var t := After(s, delta, curve, d + k);
      && t.progress == Min(Times(k, StepOf(s, delta)), 1.0)
      && (t.initialized <==> k < p)
      && t.delay == 0.0 && t.durationScale == s.durationScale && t.kind == s.kind
  {
    var step := StepOf(s, delta);
    if k == 0 {
      DelayPhase(s, delta, curve, d, d);
      TimesNext(0, step);
    } else {
      ProgressPhase(s, delta, curve, d, p, k - 1);
      TimesNext(k - 1, step);
      if k - 1 < p {
        TimesMonotone(k - 1, p - 1, step);
        if k < p { TimesMonotone(k, p - 1, step); } else { assert k == p; }
      } else {
        TimesMonotone(p, k - 1, step);
      }
    }
  }

  /** Scheduling is exact: an animation leaves the list after exactly ceil(delay / step) ticks of
      waiting and ceil(1 / step) ticks of moving. */
  lemma LeavesExactlyAt(s: AnimState, delta: real, curve: B.ControlPoints, n: nat)
    requires Added(s) && delta > 0.0 && s.delay >= 0.0
    ensures StepOf(s, delta) > 0.0
    ensures After(s, delta, curve, n).initialized <==>
      n < Ceil(s.delay / StepOf(s, delta)) + Ceil(1.0 / StepOf(s, delta))
  {
    var step := StepOf(s, delta);
    StepPositive(s, delta);
    var d := StepsCover(s.delay, step);
    var p := StepsCover(1.0, step);
    if p == 0 { TimesNext(0, step); assert false; }
    if n < d {
      DelayPhase(s, delta, curve, d, n);
    } else {
      ProgressPhase(s, delta, curve, d, p, n - d);
    }
  }

  lemma StepPositive(s: AnimState, delta: real)
    requires delta > 0.0
    ensures StepOf(s, delta) > 0.0
  {
  }

  /** Progress never falls and never exceeds 1. */
  lemma {:induction false} ProgressMonotone(s: AnimState, delta: real, curve: B.ControlPoints, n: nat)
    requires Added(s) && delta > 0.0
    ensures 0.0 <= After(s, delta, curve, n).progress <= After(s, delta, curve, n + 1).progress <= 1.0
    ensures After(s, delta, curve, n).durationScale == s.durationScale
    ensures After(s, delta, curve, n).delay > 0.0 ==> After(s, delta, curve, n).progress == 0.0
  {
    if n > 0 { ProgressMonotone(s, delta, curve, n - 1); }
    StepPositive(After(s, delta, curve, n), delta);
  }

  /** At every tick the animation is shown at the eased value of its progress. */
  lemma {:induction false} ShowsEase(s: AnimState, delta: real, curve: B.ControlPoints, n: nat)
    requires Added(s) && delta > 0.0
    ensures After(s, delta, curve, n).multiplier == B.Ease(After(s, delta, curve, n).progress, curve)
  {
    if n > 0 { ShowsEase(s, delta, curve, n - 1); }
  }

  // ---- durations ----

  /** `animation_kind_duration_ms`. */
  function KindDuration(d: Durations, kind: Kind): real {
    if d.base <= 0.0 then 0.0
    else match kind
      case Open => if d.open >= 0.0 then d.open else d.base
      case Close => if d.close >= 0.0 then d.close else d.base * 0.8
      case Resize => if d.resize >= 0.0 then d.resize else d.base
      case Fullscreen => if d.fullscreen >= 0.0 then d.fullscreen else d.base
  }

  /** `animation_scale_for_kind`. */
  function ScaleForKind(d: Durations, kind: Kind): real {
    if d.base <= 0.0 then 1.0
    else if KindDuration(d, kind) <= 0.0 then 1.0
    else KindDuration(d, kind) / d.base
  }

  /** The setting for animations of a kind. */
  function Setting(d: Durations, kind: Kind): real {
    match kind
    case Open => d.open
    case Close => d.close
    case Resize => d.resize
    case Fullscreen => d.fullscreen
  }

  /** Animations last as long as the setting for their kind says; where it is not set they run at the speed of the
      base duration, closing ones in four fifths of it; without a base duration there are none. */
  lemma KindDurationIs(d: Durations, kind: Kind)
    ensures d.base <= 0.0 ==> KindDuration(d, kind) == 0.0
    ensures d.base > 0.0 && Setting(d, kind) >= 0.0 ==> KindDuration(d, kind) == Setting(d, kind)
    ensures d.base > 0.0 && Setting(d, kind) < 0.0 ==> ScaleForKind(d, kind) == if kind == Close then 0.8 else 1.0
    ensures KindDuration(d, kind) > 0.0 ==> ScaleForKind(d, kind) * d.base == KindDuration(d, kind)
  {
    hide ScaleForKind;
    if d.base > 0.0 && Setting(d, kind) < 0.0 { UnsetScale(d, kind); }
    if KindDuration(d, kind) > 0.0 { ScaleTimesBase(d, kind); }
  }

  lemma UnsetScale(d: Durations, kind: Kind)
    requires d.base > 0.0 && Setting(d, kind) < 0.0
    ensures ScaleForKind(d, kind) == if kind == Close then 0.8 else 1.0
  {
    Portion(0.8, d.base);
    Portion(1.0, d.base);
  }

  lemma ScaleTimesBase(d: Durations, kind: Kind)
    requires KindDuration(d, kind) > 0.0
    ensures ScaleForKind(d, kind) * d.base == KindDuration(d, kind)
  {
    assert d.base > 0.0;
    hide KindDuration;
  }

  lemma Portion(part: real, base: real)
    requires base > 0.0
    ensures base * part / base == part
  {
    var x, y := base * part, base * part / base;
    assert y * base == x;
    Regroup(part, base, base);
    Cancel(y, part, base);
  }

  /** The progress per tick that `refresh_animation_manager_timing` computes. */
  function ProgressDelta(d: Durations, tickTime: real): real {
    if d.base > 0.0 then tickTime / d.base else 1.0
  }

  lemma Cancel(u: real, v: real, y: real)
    requires y > 0.0 && u * y == v * y
    ensures u == v
  {
    if u < v { StrictlyMonotone(u, v, y); }
    if v < u { StrictlyMonotone(v, u, y); }
  }

  lemma Regroup(x: real, y: real, z: real)
    ensures (x * y) * z == x * (y * z) && x * y == y * x
  {
  }

  lemma SameFactor(x: real, y: real, z: real)
    requires y == z
    ensures x * y == x * z
  {
  }

  lemma Quotient(tick: real, base: real, duration: real)
    requires tick > 0.0 && base > 0.0 && duration > 0.0
    ensures (tick / base) / (duration / base) > 0.0
    ensures 1.0 / ((tick / base) / (duration / base)) == duration / tick
  {
    var x, y, q := tick / base, duration / base, duration / tick;
    var z := x / y;
    assert x * base == tick && y * base == duration && q * tick == duration && z * y == x;
    Regroup(q, x, base);
    Cancel(q * x, y, base);
    Regroup(q, z, y);
    SameFactor(q, z * y, x);
    Cancel(q * z, 1.0, y);
    assert (1.0 / z) * z == 1.0;
    Cancel(1.0 / z, q, z);
  }

  /** Under its own scale an animation moves for ceil(duration / tick) ticks exactly if its kind has a
      positive duration; for others the scale falls back to the base duration, which is why no animation
      is started for them. */
  lemma MovingTicksIff(d: Durations, kind: Kind, tickTime: real, s: AnimState)
    requires tickTime > 0.0 && s.durationScale == ScaleForKind(d, kind)
    ensures var step := StepOf(s, ProgressDelta(d, tickTime));
      && step > 0.0
      && (Ceil(1.0 / step) == Ceil(KindDuration(d, kind) / tickTime) <==> KindDuration(d, kind) > 0.0)
      && (KindDuration(d, kind) <= 0.0 && d.base > 0.0 ==> Ceil(1.0 / step) == Ceil(d.base / tickTime))
  {
    var duration, delta := KindDuration(d, kind), ProgressDelta(d, tickTime);
    var step := StepOf(s, delta);
    if duration > 0.0 {
      Quotient(tickTime, d.base, duration);
    } else {
      assert duration == 0.0 && s.durationScale == 1.0 && step == delta / 1.0 == delta;
      CeilIs(0.0 / tickTime, 0);
      if d.base > 0.0 {
        Quotient(tickTime, d.base, d.base);
        assert d.base / d.base == 1.0 && (tickTime / d.base) / 1.0 == tickTime / d.base;
        assert d.base / tickTime > 0.0;
      } else {
        CeilIs(1.0, 1);
      }
    }
  }

  /** So an animation added without delay under the scale of its kind is on the list for
      ceil(duration / tick) ticks. */
  lemma KindLasts(d: Durations, kind: Kind, tickTime: real, s: AnimState, curve: B.ControlPoints, n: nat)
    requires tickTime > 0.0 && s.durationScale == ScaleForKind(d, kind) && KindDuration(d, kind) > 0.0
    requires Added(s) && s.delay == 0.0
    ensures After(s, ProgressDelta(d, tickTime), curve, n).initialized
       <==> n < Ceil(KindDuration(d, kind) / tickTime)
  {
    var delta := ProgressDelta(d, tickTime);
    MovingTicksIff(d, kind, tickTime, s);
    assert delta > 0.0;
    LeavesExactlyAt(s, delta, curve, n);
    CeilIs(0.0 / StepOf(s, delta), 0);
  }

  // ---- starting an animation ----

  /** The guard in front of every start of an animation of some kind. */
  predicate Starts(d: Durations, kind: Kind) {
    d.base > 0.0 && KindDuration(d, kind) > 0.0
  }

  function Max(x: real, y: real): real {
    if x > y then x else y
  }

  /** An animation as it is started: with the scale of its kind and its delay as a fraction of the
      duration of its kind. It stays as it is if the kind is switched off. */
  function Started(d: Durations, s: AnimState, kind: Kind, delayMs: real): AnimState {
    if Starts(d, kind) then
      var delay := if delayMs > 0.0 then delayMs / KindDuration(d, kind) else 0.0;
      AnimState(0.0, 0.0, ScaleForKind(d, kind), delay, kind, true)
    else s
  }

  lemma DelayQuotient(delay: real, duration: real, tick: real, step: real)
    requires duration > 0.0 && tick > 0.0 && step > 0.0 && 1.0 / step == duration / tick
    ensures (delay / duration) / step == delay / tick
  {
    var x, y, q := delay / duration, 1.0 / step, delay / tick;
    assert x * duration == delay && y * tick == duration && q * tick == delay && y * step == 1.0;
    Regroup(x, y, tick);
    Regroup(x, y, step);
    SameFactor(x, y * tick, duration);
    Cancel(x * y, q, tick);
    assert (x / step) * step == x;
    SameFactor(x, y * step, 1.0);
    Cancel(x / step, x * y, step);
  }

  /** The schedule from the settings to the last tick: an animation that is started stays on the list
      for ceil(delay / tick) ticks of waiting and ceil(duration / tick) ticks of moving, and one of a
      kind without duration never gets there. */
  lemma StartedLasts(d: Durations, s: AnimState, kind: Kind, delayMs: real, tickTime: real, curve: B.ControlPoints,
      n: nat)
    requires tickTime > 0.0 && !s.initialized
    ensures After(Started(d, s, kind, delayMs), ProgressDelta(d, tickTime), curve, n).initialized <==>
      KindDuration(d, kind) > 0.0 && n < Ceil(Max(delayMs, 0.0) / tickTime) + Ceil(KindDuration(d, kind) / tickTime)
  {
    hide After, Ceil;
    var delta := ProgressDelta(d, tickTime);
    if Starts(d, kind) {
      var t := Started(d, s, kind, delayMs);
      var step := StepOf(t, delta);
      assert delta > 0.0 && t.delay >= 0.0;
      Quotient(tickTime, d.base, KindDuration(d, kind));
      DelayQuotient(Max(delayMs, 0.0), KindDuration(d, kind), tickTime, step);
      LeavesExactlyAt(t, delta, curve, n);
    } else {
      NeverOnList(s, delta, curve, n);
    }
  }

  /** An animation that is on the list although there is no base duration is over with the first tick behind its
      delay; a scale that is not positive counts as 1. */
  lemma WithoutBase(d: Durations, s: AnimState, tickTime: real, curve: B.ControlPoints, n: nat)
    requires Added(s) && s.delay >= 0.0 && d.base <= 0.0
    requires s.durationScale == ScaleForKind(d, s.kind) || s.durationScale <= 0.0
    ensures After(s, ProgressDelta(d, tickTime), curve, n).initialized <==> n < Ceil(s.delay) + 1
  {
    hide After, Ceil;
    var delta := ProgressDelta(d, tickTime);
    assert StepOf(s, delta) == 1.0;
    LeavesExactlyAt(s, delta, curve, n);
    CeilIs(1.0, 1);
  }

  lemma {:induction false} NeverOnList(s: AnimState, delta: real, curve: B.ControlPoints, n: nat)
    requires !s.initialized
    ensures After(s, delta, curve, n) == s
  {
    if n > 0 { NeverOnList(s, delta, curve, n - 1); }
  }
}
