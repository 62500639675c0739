/** The animation manager: a list of animation objects and the timer that moves them. */
module Animation {
  import opened AnimationTicks
  import B = Bezier

  class Animation {
    var progress: real
    var multiplier: real
    var durationScale: real
    var delay: real
    var kind: Kind
    var initialized: bool

    /** `init_animation`. */
    constructor ()
      ensures State() == AnimState(0.0, 0.0, 1.0, 0.0, Resize, false)
    {
      progress, multiplier, durationScale, delay := 0.0, 0.0, 1.0, 0.0;
      kind, initialized := Resize, false;
    }

    ghost function State(): AnimState
      reads this
    {
      AnimState(progress, multiplier, durationScale, delay, kind, initialized)
    }

    /** The body of the timer's loop for one animation; true when it is finished. */
    method Advance(delta: real, curve: B.ControlPoints) returns (finished: bool)
      requires initialized
      modifies this
      ensures State() == Tick(old(State()), delta, curve) && finished == !initialized
    {
      var scale := if durationScale > 0.0 then durationScale else 1.0;
      if delay > 0.0 {
        delay := delay - delta / scale;
        if delay < 0.0 {
          delay := 0.0;
        }
        progress := 0.0;
        multiplier := 0.0;
        return false;
      }
      progress := Min(progress + delta / scale, 1.0);
      multiplier := B.WindowBezierEase(progress, curve);
      finished := progress == 1.0;
      if finished {
        initialized := false;
      }
    }
  }

  ghost predicate Distinct(s: seq<Animation>) {
    forall i, j :: 0 <= i < j < |s| ==> s[i] != s[j]
  }

  /** Those of the animations that are still initialized, in order. */
  ghost function Moving(s: seq<Animation>): seq<Animation>
    reads s
  {
    if s == [] then [] else (if s[0].initialized then [s[0]] else []) + Moving(s[1..])
  }

  lemma {:induction false} MovingAre(s: seq<Animation>)
    requires Distinct(s)
    ensures Distinct(Moving(s)) && forall a :: a in Moving(s) <==> a in s && a.initialized
  {
    if s != [] {
      assert forall i :: 0 < i < |s| ==> s[1..][i - 1] == s[i];
      assert s == [s[0]] + s[1..] && s[0] !in s[1..];
      MovingAre(s[1..]);
    }
  }

  /** What the list is when the flags tell, animation by animation, which of them it keeps. */
  ghost function Kept<T>(s: seq<T>, flags: seq<bool>): seq<T>
    requires |flags| == |s|
  {
    if s == [] then [] else (if flags[0] then [s[0]] else []) + Kept(s[1..], flags[1..])
  }

  lemma {:induction false} KeptIsMoving(s: seq<Animation>, flags: seq<bool>)
    requires |flags| == |s| && forall k :: 0 <= k < |s| ==> flags[k] == s[k].initialized
    ensures Kept(s, flags) == Moving(s)
  {
    if s != [] {
      KeptIsMoving(s[1..], flags[1..]);
    }
  }

  /** Taking or leaving the entry at `i` while the entries after it are settled. */
  lemma KeepStep<T>(all: seq<T>, i: nat, flags: seq<bool>, moving: bool, before: seq<T>, after: seq<T>)
    requires i < |all| == |flags|
    requires before == all[..i + 1] + Kept(all[i + 1..], flags[i + 1..])
    requires after == if moving then before else before[..i] + before[i + 1..]
    ensures after == all[..i] + Kept(all[i..], flags[i := moving][i..])
  {
    hide Kept;
    KeptNext(all, i, flags, moving);
    var rest := Kept(all[i + 1..], flags[i + 1..]);
    assert all[..i + 1] == all[..i] + [all[i]];
    if moving {
      assert all[..i] + [all[i]] + rest == all[..i] + ([all[i]] + rest);
    } else {
      assert before[..i] == all[..i] && before[i + 1..] == rest && [] + rest == rest;
    }
  }

  lemma KeptNone<T>(all: seq<T>, flags: seq<bool>)
    requires |flags| == |all|
    ensures all[..|all|] + Kept(all[|all|..], flags[|flags|..]) == all
  {
  }

  lemma KeptNext<T>(all: seq<T>, i: nat, flags: seq<bool>, moving: bool)
    requires i < |all| == |flags|
    ensures Kept(all[i..], flags[i := moving][i..])
         == (if moving then [all[i]] else []) + Kept(all[i + 1..], flags[i + 1..])
  {
    assert all[i..][1..] == all[i + 1..] && flags[i := moving][i..][1..] == flags[i + 1..];
  }

  /** The others, in order. */
  ghost function Without(s: seq<Animation>, a: Animation): seq<Animation> {
    if s == [] then [] else (if s[0] == a then [] else [s[0]]) + Without(s[1..], a)
  }

  lemma {:induction false} WithoutIs(s: seq<Animation>, a: Animation)
    requires Distinct(s)
    ensures Distinct(Without(s, a)) && forall b :: b in Without(s, a) <==> b in s && b != a
    ensures a !in s ==> Without(s, a) == s
  {
    if s != [] {
      assert forall i :: 0 < i < |s| ==> s[1..][i - 1] == s[i];
      assert s == [s[0]] + s[1..] && s[0] !in s[1..];
      WithoutIs(s[1..], a);
    }
  }

  lemma {:induction false} WithoutAt(s: seq<Animation>, a: Animation, k: nat)
    requires Distinct(s) && k < |s| && s[k] == a
    ensures Without(s, a) == s[..k] + s[k + 1..]
  {
    assert forall i :: 0 < i < |s| ==> s[1..][i - 1] == s[i];
    if k == 0 {
      WithoutIs(s[1..], a);
    } else {
      WithoutAt(s[1..], a, k - 1);
    }
  }

  class AnimationManager {
    var progressDelta: real
    var animations: seq<Animation>
    // every animation ever added
    ghost var known: set<Animation>

    /** An animation is on the list, once, exactly if it is initialized. */
    ghost predicate Valid()
      reads this, known
    {
      && Distinct(animations) && (forall a :: a in animations ==> a in known)
      && (forall a :: a in known ==> (a in animations <==> a.initialized))
    }

    constructor (progressDelta: real)
      ensures Valid() && animations == [] && this.progressDelta == progressDelta
    {
      this.progressDelta := progressDelta;
      animations, known := [], {};
    }

    /** `wl_list_remove`, for an animation at index `k`. */
    method Unlink(a: Animation, ghost k: nat)
      requires k < |animations| && animations[k] == a && a !in animations[..k]
      modifies this`animations
      ensures animations == old(animations)[..k] + old(animations)[k + 1..]
    {
      var i := 0;
      while animations[i] != a
        invariant 0 <= i <= k
        decreases k - i
      {
        assert i != k ==> animations[i] in animations[..k];
        i := i + 1;
      }
      animations := animations[..i] + animations[i + 1..];
    }

    /** `add_animation`: restarts the animation at the front of the list, from which it is taken
        first if it is there. An animation never seen before must not be initialized. */
    method Add(a: Animation)
      requires Valid() && (a !in known ==> !a.initialized)
      modifies this, a
      ensures Valid() && known == old(known) + {a}
      ensures a.State() == old(a.State()).(progress := 0.0, multiplier := 0.0, initialized := true)
      ensures animations == [a] + Without(old(animations), a)
    {
      WithoutIs(animations, a);
      if a.initialized {
        ghost var k :| 0 <= k < |animations| && animations[k] == a;
        WithoutAt(animations, a, k);
        Unlink(a, k);
      }
      a.progress, a.multiplier, a.initialized := 0.0, 0.0, true;
      animations, known := [a] + animations, known + {a};
    }

    /** Every animation on the list is of a kind that has a duration, and moves under its scale. */
    ghost predicate OfKinds(d: Durations)
      reads this, animations
    {
      forall a :: a in animations ==> Starts(d, a.kind) && a.durationScale == ScaleForKind(d, a.kind)
    }

    /** Starting an animation of some kind: nothing happens if the kind has no duration. */
    method Start(a: Animation, d: Durations, kind: Kind, delayMs: real)
      requires Valid() && (a !in known ==> !a.initialized)
      modifies this, a
      ensures Valid() && a.State() == Started(d, old(a.State()), kind, delayMs)
      ensures if Starts(d, kind) then animations == [a] + Without(old(animations), a) && known == old(known) + {a}
              else animations == old(animations) && known == old(known)
      ensures old(OfKinds(d)) ==> OfKinds(d)
    {
      if d.base > 0.0 && KindDuration(d, kind) > 0.0 {
        var delay := 0.0;
        if delayMs > 0.0 {
          delay := delayMs / KindDuration(d, kind);
        }
        a.kind, a.durationScale, a.delay := kind, ScaleForKind(d, kind), delay;
        WithoutIs(animations, a);
        Add(a);
      }
    }

    /** The timer keeps that: it changes neither kinds nor scales. */
    twostate lemma TimerKeepsKinds(d: Durations, curve: Kind -> B.ControlPoints)
      requires old(Valid()) && old(OfKinds(d)) && animations == Moving(old(animations))
      requires forall a :: a in old(animations) ==>
        allocated(a) && a.State() == Tick(old(a.State()), old(progressDelta), curve(old(a.kind)))
      ensures OfKinds(d)
    {
      MovingAre(old(animations));
    }

    /** `animation_timer`: moves every animation on the list, last first, and takes the finished
        ones off. */
    method Timer(curve: Kind -> B.ControlPoints)
      requires Valid()
      modifies this`animations, animations
      ensures Valid()
      ensures forall a :: a in old(animations) ==>
        a.State() == Tick(old(a.State()), progressDelta, curve(old(a.kind)))
      ensures animations == Moving(old(animations))
    {
      ghost var all := animations;
      ghost var flags := MoveAll(curve);
      KeptIsMoving(all, flags);
      MovingAre(all);
    }

    /** The loop: `flags` tell which animations stay on the list. */
    method MoveAll(curve: Kind -> B.ControlPoints) returns (ghost flags: seq<bool>)
      requires Distinct(animations) && forall a :: a in animations ==> a.initialized
      modifies this`animations, animations
      ensures |flags| == |old(animations)| && animations == Kept(old(animations), flags)
      ensures forall j :: 0 <= j < |flags| ==> flags[j] == old(animations)[j].initialized
      ensures forall a :: a in old(animations) ==>
        a.State() == Tick(old(a.State()), progressDelta, curve(old(a.kind)))
    {
      hide Kept, Moving, Tick;
      ghost var all := animations;
      flags := seq(|all|, _ => false);
      var i := |animations|;
      KeptNone(all, flags);
      while i > 0
        invariant 0 <= i <= |all| == |flags|
        invariant animations == all[..i] + Kept(all[i..], flags[i..])
        invariant forall j :: 0 <= j < i ==> all[j].State() == old(all[j].State())
        invariant forall j :: i <= j < |all| ==> flags[j] == all[j].initialized
        invariant forall j :: i <= j < |all| ==>
          all[j].State() == Tick(old(all[j].State()), progressDelta, curve(old(all[j].kind)))
      {
        i := i - 1;
        ghost var before := animations;
        var a := animations[i];
        assert a == all[i] && a in all && a.State().initialized && animations[..i] == all[..i];
        var finished := a.Advance(progressDelta, curve(a.kind));
        if finished {
          assert a !in all[..i];
          Unlink(a, i);
        }
        KeepStep(all, i, flags, !finished, before, animations);
        flags := flags[i := !finished];
      }
      assert all[0..] == all && flags[0..] == flags;
    }
  }
}
