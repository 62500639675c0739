/** What the events of a session lock do to the outputs it covers, their surfaces and the focus, one by one
    and over all runs. */
module SessionLockRuns {
  import opened Options
  import opened SessionLockSpec

  /** The outputs covered, in the order of the list. */
  function Covers(outputs: seq<LockOutput>): seq<nat> {
    seq(|outputs|, i requires 0 <= i < |outputs| => outputs[i].output)
  }

  function Covered(s: State): multiset<nat> {
    if s.lock.Some? then multiset(Covers(s.lock.value.outputs)) else multiset{}
  }

  /** A request that is granted. */
  predicate Grants(s: State, e: Event) {
    e.RequestLock? && (s.lock.None? || s.lock.value.abandoned)
  }

  // ---- one event ----

  lemma CoversSplit(outputs: seq<LockOutput>, k: nat)
    requires k < |outputs|
    ensures multiset(Covers(outputs)) == multiset(Covers(Others(outputs, k))) + multiset{outputs[k].output}
  {
    var all := Covers(outputs);
    assert Covers(Others(outputs, k)) == all[..k] + all[k + 1..];
    assert all == all[..k] + [all[k]] + all[k + 1..];
  }

  /** An output that is added is covered, without a surface; nothing else changes. */
  lemma AddOutputCovers(s: State, output: nat)
    requires s.lock.Some?
    ensures var l, m := s.lock.value, AddOutput(s, output).lock.value;
      && multiset(Covers(m.outputs)) == multiset(Covers(l.outputs)) + multiset{output}
      && |m.outputs| == |l.outputs| + 1 && m.outputs[1..] == l.outputs
      && m.outputs[0].output == output && m.outputs[0].surface == None
      && m.focused == l.focused && m.id == l.id && m.abandoned == l.abandoned
  {
    var l, m := s.lock.value, AddOutput(s, output).lock.value;
    assert Covers(m.outputs) == [output] + Covers(l.outputs);
  }

  lemma {:induction false} AddOutputsCovers(s: State, outputs: seq<nat>)
    requires s.lock.Some?
    ensures var l, m := s.lock.value, AddOutputs(s, outputs).lock.value;
      && multiset(Covers(m.outputs)) == multiset(Covers(l.outputs)) + multiset(outputs)
      && (forall o :: o in m.outputs ==> o in l.outputs || o.surface == None)
      && m.focused == l.focused
  {
    if outputs != [] {
      var init, last := outputs[..|outputs| - 1], outputs[|outputs| - 1];
      AddOutputsCovers(s, init);
      AddOutputCovers(AddOutputs(s, init), last);
      assert outputs == init + [last];
      var before, after := AddOutputs(s, init).lock.value.outputs, AddOutputs(s, outputs).lock.value.outputs;
      assert after == [after[0]] + before;
    }
  }

  /** A lock that is granted covers exactly the outputs there are; none has a surface or the focus yet. */
  lemma GrantedCovers(s: State, id: nat, outputs: seq<nat>)
    requires Inv(s) && Enabled(s, RequestLock(id, outputs)) && Grants(s, RequestLock(id, outputs))
    ensures var t := Step(s, RequestLock(id, outputs));
      && t.lock.Some? && t.lock.value.id == id && multiset(Covers(t.lock.value.outputs)) == multiset(outputs)
      && (forall o :: o in t.lock.value.outputs ==> o.surface == None) && t.lock.value.focused == None
  {
    RequestLockKeepsInv(s, id, outputs);
    var t := if s.lock.Some? then DestroyLock(s) else s;
    var start := t.(lock := Some(Lock(id, false, None, [])));
    AddOutputsCovers(start, outputs);
    assert Covers([]) == [];
  }

  /** One lock output is replaced by another with the same uid. */
  ghost predicate Replaced(was: seq<LockOutput>, now: seq<LockOutput>, o: LockOutput) {
    forall p :: p in now <==> p == o || (p in was && p.uid != o.uid)
  }

  /** What an event does to the lock outputs while the lock stays in force. */
  ghost predicate OutputsAfter(was: seq<LockOutput>, now: seq<LockOutput>, e: Event) {
    match e
    case NewSurface(k, surface) =>
      k < |was| && Replaced(was, now, was[k].(surface := Some(Surface(surface, false))))
    case MapSurface(k) =>
      && k < |was| && was[k].surface.Some?
      && Replaced(was, now, was[k].(surface := Some(was[k].surface.value.(mapped := true))))
    case UnmapSurface(k) =>
      && k < |was| && was[k].surface.Some?
      && Replaced(was, now, was[k].(surface := Some(was[k].surface.value.(mapped := false))))
    case DestroySurface(k) => k < |was| && Replaced(was, now, was[k].(surface := None))
    case DestroyOutput(k) => k < |was| && forall p :: p in now <==> p in was && p.uid != was[k].uid
    case AddedOutput(output) => now != [] && now[1..] == was && now[0].output == output && now[0].surface == None
    case Abandon => |now| == |was| && forall i :: 0 <= i < |was| ==> now[i] == was[i].(red := true)
    case _ => now == was
  }

  lemma SurfaceReplaced(l: Lock, k: nat, surface: Option<Surface>)
    requires k < |l.outputs| && DistinctUids(l.outputs) && DistinctSurfaces(l.outputs)
    ensures Replaced(l.outputs, SetSurface(l, k, surface).outputs, l.outputs[k].(surface := surface))
  {
    SetSurfaceAre(l, k, surface);
  }

  lemma StepOutputs(s: State, e: Event)
    requires Inv(s) && Enabled(s, e) && s.lock.Some? && Step(s, e).lock.Some? && !Grants(s, e)
    ensures OutputsAfter(s.lock.value.outputs, Step(s, e).lock.value.outputs, e)
  {
    hide Replaced;
    var l := s.lock.value;
    match e
    case NewSurface(k, surface) => SurfaceReplaced(l, k, Some(Surface(surface, false)));
    case MapSurface(k) => SurfaceReplaced(l, k, Some(l.outputs[k].surface.value.(mapped := true)));
    case UnmapSurface(k) => SurfaceReplaced(l, k, Some(l.outputs[k].surface.value.(mapped := false)));
    case DestroySurface(k) => SurfaceReplaced(l, k, None);
    case DestroyOutput(k) => OthersMembers(l.outputs, k);
    case AddedOutput(output) => AddOutputCovers(s, output);
    case _ =>
  }

  /** The focus moves for two reasons only: a surface is mapped while there is none, or the surface that has it
      goes; then it goes to the first mapped surface of another lock output, if there is one. */
  ghost predicate FocusAfter(l: Lock, focused: Option<nat>, e: Event) {
    match e
    case MapSurface(k) =>
      && k < |l.outputs| && l.outputs[k].surface.Some?
      && focused == if l.focused == None then Some(l.outputs[k].surface.value.id) else l.focused
    case DestroySurface(k) => k < |l.outputs| && MovedFrom(l, k, focused)
    case DestroyOutput(k) => k < |l.outputs| && MovedFrom(l, k, focused)
    case _ => focused == l.focused
  }

  ghost predicate MovedFrom(l: Lock, k: nat, focused: Option<nat>)
    requires k < |l.outputs|
  {
    var surface := l.outputs[k].surface;
    if surface.None? || l.focused != Some(surface.value.id) then focused == l.focused
    else FocusGoesTo(l.outputs, k, 0, focused)
  }

  lemma StepFocus(s: State, e: Event)
    requires Inv(s) && Enabled(s, e) && s.lock.Some? && Step(s, e).lock.Some? && !Grants(s, e)
    ensures FocusAfter(s.lock.value, Step(s, e).lock.value.focused, e)
  {
    match e
    case DestroySurface(k) => NextFocusFromIs(s.lock.value.outputs, k, 0);
    case DestroyOutput(k) => NextFocusFromIs(s.lock.value.outputs, k, 0);
    case _ =>
  }

  // ---- runs ----

  /** The outputs that appeared from event `i` up to event `j`. */
  function Appeared(events: seq<Event>, i: nat, j: nat): multiset<nat>
    requires i <= j <= |events|
  {
    if i == j then multiset{} else Appeared(events, i, j - 1) + New(events[j - 1])
  }

  function New(e: Event): multiset<nat> {
    if e.AddedOutput? then multiset{e.output} else multiset{}
  }

  /** The lock outputs destroyed meanwhile, by the outputs they covered. */
  function Destroyed(states: seq<State>, events: seq<Event>, i: nat, j: nat): multiset<nat>
    requires i <= j <= |events| <= |states|
  {
    if i == j then multiset{}
    else Destroyed(states, events, i, j - 1) + Uncovered(states[j - 1], events[j - 1])
  }

  function Uncovered(s: State, e: Event): multiset<nat> {
    if e.DestroyOutput? && HasOutput(s, e.k) then multiset{s.lock.value.outputs[e.k].output} else multiset{}
  }

  lemma StepCovers(s: State, e: Event)
    requires Enabled(s, e) && s.lock.Some? && Step(s, e).lock.Some? && !Grants(s, e)
    ensures Covered(Step(s, e)) + Uncovered(s, e) == Covered(s) + New(e)
  {
    hide Covers;
    match e
    case DestroyOutput(k) => CoversSplit(s.lock.value.outputs, k);
    case AddedOutput(output) => AddOutputCovers(s, output);
    case _ => SameCovers(s, e);
  }

  lemma SameCovers(s: State, e: Event)
    requires Enabled(s, e) && s.lock.Some? && Step(s, e).lock.Some? && !Grants(s, e)
    requires !e.DestroyOutput? && !e.AddedOutput?
    ensures Covers(Step(s, e).lock.value.outputs) == Covers(s.lock.value.outputs)
  {
    hide Covers;
    var l := s.lock.value;
    match e
    case NewSurface(k, surface) => SurfaceCovers(l, k, Some(Surface(surface, false)));
    case MapSurface(k) => SurfaceCovers(l, k, Some(l.outputs[k].surface.value.(mapped := true)));
    case UnmapSurface(k) => SurfaceCovers(l, k, Some(l.outputs[k].surface.value.(mapped := false)));
    case DestroySurface(k) => SurfaceCovers(l, k, None);
    case Abandon => RedCovers(l.outputs);
    case _ =>
  }

  lemma SurfaceCovers(l: Lock, k: nat, surface: Option<Surface>)
    requires k < |l.outputs|
    ensures Covers(SetSurface(l, k, surface).outputs) == Covers(l.outputs)
    ensures l.outputs[k].surface.Some? ==> Covers(SetSurface(Refocus(l, k), k, surface).outputs) == Covers(l.outputs)
  {
  }

  lemma RedCovers(outputs: seq<LockOutput>)
    ensures Covers(AllRed(outputs)) == Covers(outputs)
  {
  }

  /** From the request that was granted on, as long as the lock is in force and not replaced: it covers the
      outputs there were then and those that appeared since, less those that went. */
  lemma {:induction false} CoveredOutputs(states: seq<State>, events: seq<Event>, i: nat, j: nat)
    requires Trace(states, events) && i < j < |states| && Grants(states[i], events[i])
    requires forall k :: i < k < j ==> !Lifts(states[k], events[k]) && !Grants(states[k], events[k])
    ensures states[j].lock.Some?
    ensures Covered(states[j]) + Destroyed(states, events, i + 1, j)
         == multiset(events[i].outputs) + Appeared(events, i + 1, j)
  {
    hide Inv, Step, Covered, Uncovered, New;
    TraceInv(states, events, j - 1);
    if j == i + 1 {
      GrantedIs(states[i], events[i]);
    } else {
      CoveredOutputs(states, events, i, j - 1);
      var s, e := states[j - 1], events[j - 1];
      StepOfLocked(s, e);
      StepCovers(s, e);
      Balance(Covered(s), Covered(states[j]), Uncovered(s, e), New(e), Destroyed(states, events, i + 1, j - 1),
        multiset(events[i].outputs) + Appeared(events, i + 1, j - 1));
    }
  }

  lemma Balance(was: multiset<nat>, now: multiset<nat>, lost: multiset<nat>, won: multiset<nat>, gone: multiset<nat>,
      all: multiset<nat>)
    requires now + lost == was + won && was + gone == all
    ensures now + (gone + lost) == all + won
  {
    assert now + (gone + lost) == (now + lost) + gone && (was + gone) + won == (was + won) + gone;
  }

  lemma GrantedIs(s: State, e: Event)
    requires Inv(s) && Enabled(s, e) && Grants(s, e)
    ensures Step(s, e).lock.Some? && Covered(Step(s, e)) == multiset(e.outputs)
  {
    GrantedCovers(s, e.id, e.outputs);
  }

  /** Locks can be asked for until the manager goes, and not after that. */
  lemma {:induction false} ManagedUntilDestroyed(states: seq<State>, events: seq<Event>, i: nat)
    requires Trace(states, events) && i < |states|
    ensures states[i].managed <==> DestroyManager !in events[..i]
    ensures NewLock in states[i].linked <==> DestroyManager !in events[..i]
  {
    TraceInv(states, events, i);
    assert NewLock in states[i].linked <==> Expected(states[i], NewLock);
    if i > 0 {
      ManagedUntilDestroyed(states, events, i - 1);
      TraceInv(states, events, i - 1);
      assert events[..i] == events[..i - 1] + [events[i - 1]];
      StepManaged(states[i - 1], events[i - 1]);
    }
  }

  lemma StepManaged(s: State, e: Event)
    requires Inv(s) && Enabled(s, e)
    ensures Step(s, e).managed <==> s.managed && e != DestroyManager
  {
    match e
    case RequestLock(id, outputs) =>
      RequestLockKeepsInv(s, id, outputs);
    case Unlock => DestroyLockKeepsInv(s);
    case DestroyManager => if s.lock.Some? { DestroyLockKeepsInv(s); }
    case _ =>
  }

  /** The answer to a request, refused exactly while a lock that is not abandoned is in force. */
  function AnswerTo(s: State, e: Event): seq<Answer> {
    if !e.RequestLock? then [] else if Grants(s, e) then [Accepted(e.id)] else [Refused(e.id)]
  }

  function AnswersTo(states: seq<State>, events: seq<Event>): seq<Answer>
    requires |events| <= |states|
  {
    if events == [] then []
    else
      var n := |events| - 1;
      AnswersTo(states, events[..n]) + AnswerTo(states[n], events[n])
  }

  /** In every run each request is answered once, in turn, and nothing else is answered. */
  lemma {:induction false} AnsweredInTurn(states: seq<State>, events: seq<Event>, i: nat)
    requires Trace(states, events) && i < |states|
    ensures states[i].answers == AnswersTo(states, events[..i])
  {
    hide Inv, Step, Enabled;
    if i > 0 {
      AnsweredInTurn(states, events, i - 1);
      TraceInv(states, events, i - 1);
      assert events[..i][..i - 1] == events[..i - 1];
      StepAnswers(states[i - 1], events[i - 1]);
    }
  }

  lemma StepAnswers(s: State, e: Event)
    requires Inv(s) && Enabled(s, e)
    ensures Step(s, e).answers == s.answers + AnswerTo(s, e)
  {
    match e
    case RequestLock(id, outputs) => RequestLockKeepsInv(s, id, outputs);
    case Unlock => DestroyLockKeepsInv(s);
    case DestroyManager => if s.lock.Some? { DestroyLockKeepsInv(s); }
    case _ =>
  }
}
