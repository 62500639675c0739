/** Matching gestures against bindings, and the choice of the best binding. */
module GestureMatch {
  import opened GestureText

  /** `fingers == 0` accepts any number of fingers. */
  predicate Check(target: Gesture, kind: GestureType, fingers: nat) {
    target.kind == kind && (target.fingers == 0 || target.fingers == fingers)
  }

  predicate Match(target: Gesture, toMatch: Gesture, exact: bool) {
    && Check(target, toMatch.kind, toMatch.fingers)
    && (exact ==> target.directions == toMatch.directions)
    && target.directions * toMatch.directions == target.directions
  }

  /** A target matches gestures of its type, with its number of fingers if it has one, that have all its directions
      or, where that is asked for, exactly these. */
  lemma MatchIff(target: Gesture, g: Gesture, exact: bool)
    ensures Match(target, g, exact) <==>
      && target.kind == g.kind && (target.fingers != 0 ==> target.fingers == g.fingers)
      && if exact then target.directions == g.directions else target.directions <= g.directions
  {
    assert target.directions * g.directions == target.directions ==>
      forall d :: d in target.directions ==> d in target.directions * g.directions;
  }

  /** `directions` is a 32-bit field. */
  ghost predicate Sane(g: Gesture) {
    forall d :: d in g.directions ==> d < 32
  }

  /** `gesture_directions_count`: shift the field to the right and count the low bits. */
  method Count(directions: set<nat>) returns (count: nat)
    requires forall b :: b in directions ==> b < 32
    ensures count == |directions|
  {
    count := 0;
    var left, shifted := directions, 0;
    while left != {}
      invariant left <= directions && shifted <= 32 && forall b :: b in left ==> shifted <= b
      invariant count + |left| == |directions|
      decreases 32 - shifted
    {
      if shifted in left {
        count, left := count + 1, left - {shifted};
      }
      shifted := shifted + 1;
    }
  }

  /** `gesture_compare`. */
  method Compare(a: Gesture, b: Gesture) returns (diff: int)
    requires Sane(a) && Sane(b)
    ensures diff == |a.directions| - |b.directions|
  {
    var countA: int := Count(a.directions);
    var countB: int := Count(b.directions);
    diff := countA - countB;
  }

  lemma StrictlySmaller(a: set<nat>, b: set<nat>)
    ensures a <= b ==> |a| <= |b|
    ensures a < b ==> |a| < |b|
    ensures a <= b && |a| == |b| ==> a == b
  {
    if a <= b {
      assert b == a + (b - a);
    }
  }

  /** A target with strictly fewer directions comes strictly first, and whatever the larger one
      matches the smaller one matches too, if types and fingers agree. */
  lemma SmallerMatches(smaller: Gesture, larger: Gesture, g: Gesture)
    requires smaller.directions < larger.directions
    ensures |smaller.directions| - |larger.directions| < 0
    ensures smaller.kind == larger.kind && smaller.fingers in {0, larger.fingers} && Match(larger, g, false) ==>
      Match(smaller, g, false)
  {
    StrictlySmaller(smaller.directions, larger.directions);
    assert larger.directions * g.directions == larger.directions ==> larger.directions <= g.directions;
    assert smaller.directions <= g.directions ==> smaller.directions * g.directions == smaller.directions;
  }

  /** Of the targets a gesture matches, one that compares equal to it has all its directions. */
  lemma FullMatch(target: Gesture, g: Gesture)
    requires Match(target, g, false)
    ensures target.directions <= g.directions && |target.directions| <= |g.directions|
    ensures |target.directions| == |g.directions| <==> Match(target, g, true)
  {
    assert target.directions * g.directions <= g.directions;
    StrictlySmaller(target.directions, g.directions);
  }

  // ---- the choice of a binding

  datatype Binding = Binding(gesture: Gesture, input: string, exact: bool)

  predicate Applies(b: Binding, g: Gesture, input: string) {
    Match(b.gesture, g, b.exact) && (b.input == "*" || b.input == input)
  }

  /** Bindings for all devices apply to each, others to their own only. */
  lemma AppliesIff(b: Binding, g: Gesture, input: string)
    ensures Applies(b.(input := "*"), g, input) <==> Match(b.gesture, g, b.exact)
    ensures b.input != "*" ==> (Applies(b, g, input) <==> Match(b.gesture, g, b.exact) && input == b.input)
  {
  }

  /** `a` suits an input no better than `b`: a binding for the device goes first, then the number of
      directions counts. */
  predicate NoBetter(a: Binding, b: Binding, input: string) {
    if (a.input == input) != (b.input == input) then b.input == input
    else |a.gesture.directions| <= |b.gesture.directions|
  }

  /** The best of the first bindings, or -1 if none of them applies. */
  ghost predicate Best(bindings: seq<Binding>, n: nat, g: Gesture, input: string, current: int)
    requires n <= |bindings|
  {
    if current < 0 then forall i :: 0 <= i < n ==> !Applies(bindings[i], g, input)
    else
      && current < n && Applies(bindings[current], g, input)
      && forall i :: 0 <= i < n && Applies(bindings[i], g, input) ==> NoBetter(bindings[i], bindings[current], input)
  }

  /** A binding for the very device with all the directions of the gesture. */
  predicate Perfect(b: Binding, g: Gesture, input: string) {
    Applies(b, g, input) && b.input == input && |b.gesture.directions| == |g.directions|
  }

  /** Which of two bindings that apply, both for the device or both for all, has to stand back: exact ones stand
      before others, more directions before fewer, later ones before earlier ones. */
  predicate StandsBack(bindings: seq<Binding>, i: nat, current: nat)
    requires i < |bindings| && current < |bindings|
  {
    var a, b := bindings[i], bindings[current];
    var fewer := |a.gesture.directions| - |b.gesture.directions|;
    if b.exact then !a.exact || i < current else !a.exact && (fewer < 0 || (fewer == 0 && i < current))
  }

  /** The binding that leads among the first `n`, as long as none of these is perfect. */
  ghost predicate Leads(bindings: seq<Binding>, n: nat, g: Gesture, input: string, current: int)
    requires n <= |bindings|
  {
    && (current < 0 ==> forall i :: 0 <= i < n ==> !Applies(bindings[i], g, input))
    && (current >= 0 ==>
      && current < n && Applies(bindings[current], g, input)
      && (forall i :: 0 <= i < n && Applies(bindings[i], g, input) && bindings[i].input == input ==>
        bindings[current].input == input)
      && forall i :: 0 <= i < n && i != current && Applies(bindings[i], g, input) ==>
           bindings[i].input == bindings[current].input ==> StandsBack(bindings, i, current))
  }

  ghost predicate NonePerfect(bindings: seq<Binding>, n: nat, g: Gesture, input: string)
    requires n <= |bindings|
  {
    forall i :: 0 <= i < n ==> !Perfect(bindings[i], g, input)
  }

  lemma LeadsIsBest(bindings: seq<Binding>, n: nat, g: Gesture, input: string, current: int)
    requires n <= |bindings| && Leads(bindings, n, g, input, current)
    ensures Best(bindings, n, g, input, current)
  {
    if current >= 0 {
      forall i | 0 <= i < n && Applies(bindings[i], g, input)
        ensures NoBetter(bindings[i], bindings[current], input)
      {
        FullMatch(bindings[i].gesture, g);
        FullMatch(bindings[current].gesture, g);
      }
    }
  }

  /** What the loop does with one binding: the new current one. */
  method Consider(bindings: seq<Binding>, i: nat, current: int, g: Gesture, input: string) returns (now: int)
    requires i < |bindings| && Leads(bindings, i, g, input, current)
    requires forall k :: 0 <= k < |bindings| ==> Sane(bindings[k].gesture)
    ensures Leads(bindings, i + 1, g, input, now) && now in {current, i}
    ensures Perfect(bindings[i], g, input) && NonePerfect(bindings, i, g, input) ==> now == i
  {
    var binding := bindings[i];
    now := current;
    if !Match(binding.gesture, g, binding.exact) || (binding.input != "*" && binding.input != input) {
      return;
    }
    FullMatch(binding.gesture, g);
    if current >= 0 {
      FullMatch(bindings[current].gesture, g);
      if bindings[current].input == binding.input {
        if !binding.exact && bindings[current].exact {
          return;
        }
        var diff := Compare(bindings[current].gesture, binding.gesture);
        if diff > 0 {
          return;
        }
      } else if binding.input == "*" {
        return;
      }
    }
    now := i;
  }

  /** `gesture_binding_match`: the first perfect binding; if there is none the one before which all others stand
      back, bindings for the device first. None that applies is better. */
  method FindBinding(bindings: seq<Binding>, g: Gesture, input: string) returns (found: int)
    requires Sane(g) && forall k :: 0 <= k < |bindings| ==> Sane(bindings[k].gesture)
    ensures Best(bindings, |bindings|, g, input, found)
    ensures if NonePerfect(bindings, |bindings|, g, input) then Leads(bindings, |bindings|, g, input, found)
            else 0 <= found < |bindings| && Perfect(bindings[found], g, input) && NonePerfect(bindings, found, g, input)
  {
    found := -1;
    for i := 0 to |bindings|
      invariant Leads(bindings, i, g, input, found) && NonePerfect(bindings, i, g, input)
    {
      var now := Consider(bindings, i, found, g, input);
      if now == i {
        var diff := Compare(bindings[i].gesture, g);
        if bindings[i].input == input && diff == 0 {
          PerfectIsBest(bindings, g, input, i);
          return i;
        }
      }
      found := now;
    }
    LeadsIsBest(bindings, |bindings|, g, input, found);
  }

  lemma PerfectIsBest(bindings: seq<Binding>, g: Gesture, input: string, i: nat)
    requires i < |bindings| && Perfect(bindings[i], g, input)
    ensures Best(bindings, |bindings|, g, input, i)
  {
    forall k | 0 <= k < |bindings| && Applies(bindings[k], g, input)
      ensures NoBetter(bindings[k], bindings[i], input)
    {
      FullMatch(bindings[k].gesture, g);
    }
  }
}
