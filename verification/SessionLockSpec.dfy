/** The compositor side of ext-session-lock-v1 on values: what every event does to the lock, and
    what holds over all runs. */
module SessionLockSpec {
  import opened Options

  datatype Surface = Surface(id: nat, mapped: bool)

  /** A lock output: `uid` names the object, `output` the output it covers, `red` its background. */
  datatype LockOutput = LockOutput(uid: nat, output: nat, red: bool, surface: Option<Surface>)

  datatype Lock = Lock(id: nat, abandoned: bool, focused: Option<nat>, outputs: seq<LockOutput>)

  /** The listeners of this component, by what they listen to. */
  datatype Listener =
    | NewLock | ManagerDestroy
    | LockNewSurface(lock: nat) | LockUnlock(lock: nat) | LockDestroy(lock: nat)
    | OutputDestroy(uid: nat) | SurfaceDestroy(uid: nat) | SurfaceMap(uid: nat)

  datatype Answer = Accepted(lock: nat) | Refused(lock: nat)

  /** `linked` holds the listeners that are on some signal's list; `nextUid` is above every uid in use. */
  datatype State = State(managed: bool, lock: Option<Lock>, linked: set<Listener>, answers: seq<Answer>, nextUid: nat)

  const INITIAL := State(true, None, {NewLock, ManagerDestroy}, [], 0)

  // ---- the handlers ----

  /** The first mapped surface of an output other than number `k`. */
  function NextFocus(outputs: seq<LockOutput>, k: nat): Option<nat> {
    NextFocusFrom(outputs, k, 0)
  }

  function NextFocusFrom(outputs: seq<LockOutput>, k: nat, j: nat): Option<nat>
    decreases |outputs| - j
  {
    if j >= |outputs| then None
    else if j != k && outputs[j].surface.Some? && outputs[j].surface.value.mapped then Some(outputs[j].surface.value.id)
    else NextFocusFrom(outputs, k, j + 1)
  }

  /** `refocus_output` for output number `k`, which has a surface. */
  function Refocus(l: Lock, k: nat): Lock
    requires k < |l.outputs| && l.outputs[k].surface.Some?
  {
    if l.focused == Some(l.outputs[k].surface.value.id) then l.(focused := NextFocus(l.outputs, k)) else l
  }

  /** `sway_session_lock_output_destroy` of output number `k`. */
  function DropOutput(s: State, k: nat): State
    requires s.lock.Some? && k < |s.lock.value.outputs|
  {
    var l, o := s.lock.value, s.lock.value.outputs[k];
    var l1 := if o.surface.Some? then Refocus(l, k) else l;
    s.(lock := Some(l1.(outputs := Others(l.outputs, k))),
       linked := s.linked - {OutputDestroy(o.uid), SurfaceDestroy(o.uid), SurfaceMap(o.uid)})
  }

  function DropAllOutputs(s: State): State
    requires s.lock.Some?
    ensures DropAllOutputs(s).lock.Some? && DropAllOutputs(s).lock.value.id == s.lock.value.id
    ensures DropAllOutputs(s).lock.value.abandoned == s.lock.value.abandoned
    decreases |s.lock.value.outputs|
  {
    if s.lock.value.outputs == [] then s else DropAllOutputs(DropOutput(s, 0))
  }

  function LockListeners(id: nat): set<Listener> {
    {LockNewSurface(id), LockUnlock(id), LockDestroy(id)}
  }

  /** `sway_session_lock_destroy` of the current lock. */
  function DestroyLock(s: State): State
    requires s.lock.Some?
  {
    var t := DropAllOutputs(s);
    t.(lock := None, linked := if s.lock.value.abandoned then t.linked else t.linked - LockListeners(s.lock.value.id))
  }

  /** `sway_session_lock_add_output`: the new lock output goes to the front of the list. */
  function AddOutput(s: State, output: nat): State
    requires s.lock.Some?
  {
    var l := s.lock.value;
    s.(lock := Some(l.(outputs := [LockOutput(s.nextUid, output, l.abandoned, None)] + l.outputs)),
       linked := s.linked + {OutputDestroy(s.nextUid)}, nextUid := s.nextUid + 1)
  }

  function AddOutputs(s: State, outputs: seq<nat>): State
    requires s.lock.Some?
    ensures AddOutputs(s, outputs).lock.Some?
  {
    if outputs == [] then s else AddOutput(AddOutputs(s, outputs[..|outputs| - 1]), outputs[|outputs| - 1])
  }

  /** Everything that can happen; `k` is the number of a lock output on the list. */
  datatype Event =
    | RequestLock(id: nat, outputs: seq<nat>)
    | NewSurface(k: nat, surface: nat)
    | MapSurface(k: nat)
    | UnmapSurface(k: nat)  // no handler: wlroots only clears the flag
    | DestroySurface(k: nat)
    | DestroyOutput(k: nat)
    | AddedOutput(output: nat)
    | Unlock
    | Abandon
    | DestroyManager

  /** When an event can reach its handler: its listener is linked, and wlroots keeps to the
      protocol (a lock surface is new, unmapped, and the only one for its output). */
  ghost predicate Enabled(s: State, e: Event) {
    match e
    case RequestLock(id, _) => NewLock in s.linked && (s.lock.Some? ==> s.lock.value.id != id)
    case NewSurface(k, surface) =>
      && s.lock.Some? && LockNewSurface(s.lock.value.id) in s.linked
      && k < |s.lock.value.outputs| && s.lock.value.outputs[k].surface == None
      && forall o :: o in s.lock.value.outputs && o.surface.Some? ==> o.surface.value.id != surface
    case MapSurface(k) => HasSurface(s, k) && SurfaceMap(s.lock.value.outputs[k].uid) in s.linked
    case UnmapSurface(k) => HasSurface(s, k)
    case DestroySurface(k) => HasSurface(s, k) && SurfaceDestroy(s.lock.value.outputs[k].uid) in s.linked
    case DestroyOutput(k) => HasOutput(s, k) && OutputDestroy(s.lock.value.outputs[k].uid) in s.linked
    case AddedOutput(_) => s.lock.Some?
    case Unlock => s.lock.Some? && LockUnlock(s.lock.value.id) in s.linked
    case Abandon => s.lock.Some? && LockDestroy(s.lock.value.id) in s.linked
    case DestroyManager => ManagerDestroy in s.linked
  }

  predicate HasOutput(s: State, k: nat) {
    s.lock.Some? && k < |s.lock.value.outputs|
  }

  predicate HasSurface(s: State, k: nat) {
    HasOutput(s, k) && s.lock.value.outputs[k].surface.Some?
  }

  function SetSurface(l: Lock, k: nat, surface: Option<Surface>): Lock
    requires k < |l.outputs|
  {
    l.(outputs := l.outputs[k := l.outputs[k].(surface := surface)])
  }

  function Step(s: State, e: Event): State
    requires Enabled(s, e)
  {
    match e
    case RequestLock(id, outputs) =>
      if s.lock.Some? && !s.lock.value.abandoned then s.(answers := s.answers + [Refused(id)])
      else
        var t := if s.lock.Some? then DestroyLock(s) else s;
        var u := AddOutputs(t.(lock := Some(Lock(id, false, None, []))), outputs);
        u.(linked := u.linked + LockListeners(id), answers := u.answers + [Accepted(id)])
    case NewSurface(k, surface) =>
      var uid := s.lock.value.outputs[k].uid;
      s.(lock := Some(SetSurface(s.lock.value, k, Some(Surface(surface, false)))),
         linked := s.linked + {SurfaceDestroy(uid), SurfaceMap(uid)})
    case MapSurface(k) =>
      var surface := s.lock.value.outputs[k].surface.value;
      var l := SetSurface(s.lock.value, k, Some(surface.(mapped := true)));
      s.(lock := Some(if l.focused == None then l.(focused := Some(surface.id)) else l))
    case UnmapSurface(k) =>
      s.(lock := Some(SetSurface(s.lock.value, k, Some(s.lock.value.outputs[k].surface.value.(mapped := false)))))
    case DestroySurface(k) =>
      var uid := s.lock.value.outputs[k].uid;
      s.(lock := Some(SetSurface(Refocus(s.lock.value, k), k, None)),
         linked := s.linked - {SurfaceDestroy(uid), SurfaceMap(uid)})
    case DestroyOutput(k) => DropOutput(s, k)
    case AddedOutput(output) => AddOutput(s, output)
    case Unlock => DestroyLock(s)
    case Abandon =>
      var l := s.lock.value;
      s.(lock := Some(l.(abandoned := true, outputs := AllRed(l.outputs))),
         linked := s.linked - LockListeners(l.id))
    case DestroyManager =>
      var t := if s.lock.Some? then DestroyLock(s) else s;
      t.(managed := false, linked := t.linked - {NewLock, ManagerDestroy})
  }

  function AllRed(outputs: seq<LockOutput>): seq<LockOutput> {
    seq(|outputs|, i requires 0 <= i < |outputs| => outputs[i].(red := true))
  }

  // ---- the invariant ----

  /** Which listeners have to be linked, no more and no less. */
  ghost predicate Expected(s: State, x: Listener) {
    match x
    case NewLock => s.managed
    case ManagerDestroy => s.managed
    case LockNewSurface(id) => s.lock.Some? && s.lock.value.id == id && !s.lock.value.abandoned
    case LockUnlock(id) => s.lock.Some? && s.lock.value.id == id && !s.lock.value.abandoned
    case LockDestroy(id) => s.lock.Some? && s.lock.value.id == id && !s.lock.value.abandoned
    case OutputDestroy(uid) => s.lock.Some? && uid in Uids(s.lock.value.outputs)
    case SurfaceDestroy(uid) => s.lock.Some? && uid in SurfaceUids(s.lock.value.outputs)
    case SurfaceMap(uid) => s.lock.Some? && uid in SurfaceUids(s.lock.value.outputs)
  }

  /** The lock outputs on a list, and those of them that have a surface. */
  ghost function Uids(outputs: seq<LockOutput>): set<nat> {
    set o | o in outputs :: o.uid
  }

  ghost function SurfaceUids(outputs: seq<LockOutput>): set<nat> {
    set o | o in outputs && o.surface.Some? :: o.uid
  }

  ghost predicate Attached(l: Lock, surface: nat) {
    exists o :: o in l.outputs && o.surface.Some? && o.surface.value.id == surface
  }

  ghost predicate FocusOk(l: Lock) {
    match l.focused
    case Some(f) => Attached(l, f)
    case None => forall o :: o in l.outputs && o.surface.Some? ==> !o.surface.value.mapped
  }

  ghost predicate DistinctUids(outputs: seq<LockOutput>) {
    forall i, j :: 0 <= i < j < |outputs| ==> outputs[i].uid != outputs[j].uid
  }

  ghost predicate DistinctSurfaces(outputs: seq<LockOutput>) {
    forall i, j :: 0 <= i < j < |outputs| && outputs[i].surface.Some? && outputs[j].surface.Some? ==>
      outputs[i].surface.value.id != outputs[j].surface.value.id
  }

  ghost predicate LockOk(l: Lock, nextUid: nat) {
    && DistinctUids(l.outputs) && DistinctSurfaces(l.outputs)
    && (forall o :: o in l.outputs ==> o.uid < nextUid)
    && (forall o :: o in l.outputs ==> (o.red <==> l.abandoned))
    && FocusOk(l)
  }

  ghost predicate Linked(s: State) {
    forall x :: x in s.linked <==> Expected(s, x)
  }

  ghost predicate Inv(s: State) {
    Linked(s) && (s.lock.Some? ==> LockOk(s.lock.value, s.nextUid) && s.managed)
  }

  lemma OwnListeners(s: State)
    requires Inv(s) && s.lock.Some?
    ensures LockDestroy(s.lock.value.id) in s.linked <==> !s.lock.value.abandoned
    ensures LockUnlock(s.lock.value.id) in s.linked <==> !s.lock.value.abandoned
    ensures LockNewSurface(s.lock.value.id) in s.linked <==> !s.lock.value.abandoned
  {
    var id := s.lock.value.id;
    assert LockDestroy(id) in s.linked <==> Expected(s, LockDestroy(id));
    assert LockUnlock(id) in s.linked <==> Expected(s, LockUnlock(id));
    assert LockNewSurface(id) in s.linked <==> Expected(s, LockNewSurface(id));
  }

  // ---- every step keeps it ----

  predicate ShowsMapped(o: LockOutput) {
    o.surface.Some? && o.surface.value.mapped
  }

  /** Output number `i` is the first from `j` on, `k` left out, that has a mapped surface, and `f` is that. */
  ghost predicate FirstMapped(outputs: seq<LockOutput>, k: int, j: nat, i: int, f: nat) {
    && j <= i < |outputs| && i != k && ShowsMapped(outputs[i]) && outputs[i].surface.value.id == f
    && forall h :: j <= h < i && h != k ==> !ShowsMapped(outputs[h])
  }

  /** The focus goes to the first mapped surface, if there is one. */
  ghost predicate FocusGoesTo(outputs: seq<LockOutput>, k: int, j: nat, focused: Option<nat>) {
    if focused.Some? then exists i :: FirstMapped(outputs, k, j, i, focused.value)
    else forall i :: j <= i < |outputs| && i != k ==> !ShowsMapped(outputs[i])
  }

  lemma {:induction false} NextFocusFromIs(outputs: seq<LockOutput>, k: nat, j: nat)
    ensures FocusGoesTo(outputs, k, j, NextFocusFrom(outputs, k, j))
    decreases |outputs| - j
  {
    if j < |outputs| {
      NextFocusFromIs(outputs, k, j + 1);
      var next := NextFocusFrom(outputs, k, j);
      if j != k && ShowsMapped(outputs[j]) {
        FirstIs(outputs, k, j, j, next);
      } else if next.Some? {
        var i :| FirstMapped(outputs, k, j + 1, i, next.value);
        FirstIs(outputs, k, j, i, next);
      }
    }
  }

  lemma FirstIs(outputs: seq<LockOutput>, k: int, j: nat, i: int, focused: Option<nat>)
    requires focused.Some? && FirstMapped(outputs, k, j, i, focused.value)
    ensures FocusGoesTo(outputs, k, j, focused)
  {
  }

  function Others(outputs: seq<LockOutput>, k: nat): seq<LockOutput>
    requires k < |outputs|
  {
    outputs[..k] + outputs[k + 1..]
  }

  lemma OthersMembers(outputs: seq<LockOutput>, k: nat)
    requires k < |outputs| && DistinctUids(outputs)
    ensures forall o :: o in Others(outputs, k) <==> o in outputs && o.uid != outputs[k].uid
  {
    forall o | o in Others(outputs, k)
      ensures o in outputs && o.uid != outputs[k].uid
    {
      var j :| 0 <= j < |outputs| - 1 && Others(outputs, k)[j] == o;
      assert o == outputs[if j < k then j else j + 1];
    }
    forall o | o in outputs && o.uid != outputs[k].uid
      ensures o in Others(outputs, k)
    {
      var i :| 0 <= i < |outputs| && outputs[i] == o;
      assert Others(outputs, k)[if i < k then i else i - 1] == o;
    }
  }

  lemma OthersAre(outputs: seq<LockOutput>, k: nat)
    requires k < |outputs| && DistinctUids(outputs) && DistinctSurfaces(outputs)
    ensures DistinctUids(Others(outputs, k)) && DistinctSurfaces(Others(outputs, k))
    ensures forall o :: o in Others(outputs, k) <==> o in outputs && o.uid != outputs[k].uid
    ensures Uids(Others(outputs, k)) == Uids(outputs) - {outputs[k].uid}
    ensures SurfaceUids(Others(outputs, k)) == SurfaceUids(outputs) - {outputs[k].uid}
  {
    OthersMembers(outputs, k);
  }

  /** With the surface of output `k` out of the way, the focus is right for what is left. */
  lemma RefocusOk(l: Lock, k: nat, left: seq<LockOutput>)
    requires k < |l.outputs| && FocusOk(l) && DistinctUids(l.outputs) && DistinctSurfaces(l.outputs)
    requires forall o :: o in l.outputs && o.uid != l.outputs[k].uid ==> o in left
    requires forall o :: o in left && o.surface.Some? ==> o in l.outputs && o.uid != l.outputs[k].uid
    ensures FocusOk((if l.outputs[k].surface.Some? then Refocus(l, k) else l).(outputs := left))
  {
    NextFocusFromIs(l.outputs, k, 0);
    if l.focused.Some? && !(l.outputs[k].surface.Some? && l.focused == Some(l.outputs[k].surface.value.id)) {
      var o :| o in l.outputs && o.surface.Some? && o.surface.value.id == l.focused.value;
      assert o in left;
    } else if l.focused.Some? && NextFocus(l.outputs, k).Some? {
      var i :| FirstMapped(l.outputs, k, 0, i, NextFocus(l.outputs, k).value);
      assert l.outputs[i] in left;
    }
  }

  lemma DropOutputLinked(s: State, k: nat)
    requires Linked(s) && HasOutput(s, k)
    requires DistinctUids(s.lock.value.outputs) && DistinctSurfaces(s.lock.value.outputs)
    ensures Linked(DropOutput(s, k))
  {
    OthersAre(s.lock.value.outputs, k);
  }

  lemma DropOutputKeepsInv(s: State, k: nat)
    requires Inv(s) && HasOutput(s, k)
    ensures Inv(DropOutput(s, k))
  {
    var l := s.lock.value;
    DropOutputLinked(s, k);
    OthersAre(l.outputs, k);
    RefocusOk(l, k, Others(l.outputs, k));
    assert DropOutput(s, k).lock.value
        == (if l.outputs[k].surface.Some? then Refocus(l, k) else l).(outputs := Others(l.outputs, k));
  }

  lemma {:induction false} DropAllOutputsKeepsInv(s: State)
    requires Inv(s) && s.lock.Some?
    ensures Inv(DropAllOutputs(s)) && DropAllOutputs(s).lock.value.outputs == []
    ensures DropAllOutputs(s) == s.(lock := DropAllOutputs(s).lock, linked := DropAllOutputs(s).linked)
    decreases |s.lock.value.outputs|
  {
    if s.lock.value.outputs != [] {
      DropOutputKeepsInv(s, 0);
      DropAllOutputsKeepsInv(DropOutput(s, 0));
    }
  }

  /** Destroying a lock leaves no listener of it linked. */
  lemma DestroyLockKeepsInv(s: State)
    requires Inv(s) && s.lock.Some?
    ensures Inv(DestroyLock(s)) && DestroyLock(s) == s.(lock := None, linked := {NewLock, ManagerDestroy})
  {
    DropAllOutputsKeepsInv(s);
    forall x
      ensures x in DestroyLock(s).linked <==> x == NewLock || x == ManagerDestroy
    {
      assert x in DropAllOutputs(s).linked <==> Expected(DropAllOutputs(s), x);
    }
  }

  lemma AddOutputKeepsInv(s: State, output: nat)
    requires Inv(s) && s.lock.Some?
    ensures Inv(AddOutput(s, output))
  {
    var l := s.lock.value;
    var o := LockOutput(s.nextUid, output, l.abandoned, None);
    var outputs := [o] + l.outputs;
    assert Uids(outputs) == Uids(l.outputs) + {o.uid} && SurfaceUids(outputs) == SurfaceUids(l.outputs);
    if l.focused.Some? {
      var f :| f in l.outputs && f.surface.Some? && f.surface.value.id == l.focused.value;
      assert f in outputs;
    }
  }

  /** During the set-up of a lock its own three listeners are not linked yet. */
  ghost predicate SettingUp(s: State) {
    && s.lock.Some? && s.managed && LockOk(s.lock.value, s.nextUid) && !s.lock.value.abandoned
    && forall x :: x in s.linked <==> Expected(s, x) && x !in LockListeners(s.lock.value.id)
  }

  lemma SettingUpStarts(s: State, id: nat)
    requires Inv(s) && s.lock == None && NewLock in s.linked
    ensures SettingUp(s.(lock := Some(Lock(id, false, None, []))))
  {
    assert Expected(s, NewLock);
  }

  /** While a lock is set up, the next uid and its own listeners are still free. */
  lemma SettingUpFree(s: State)
    requires SettingUp(s)
    ensures OutputDestroy(s.nextUid) !in s.linked && LockListeners(s.lock.value.id) !! s.linked
  {
    assert !Expected(s, OutputDestroy(s.nextUid));
  }

  lemma {:induction false} AddOutputsSetsUp(s: State, outputs: seq<nat>)
    requires SettingUp(s)
    ensures SettingUp(AddOutputs(s, outputs))
    ensures var t := AddOutputs(s, outputs); t.lock.value.id == s.lock.value.id && t.answers == s.answers
  {
    if outputs != [] {
      var init := AddOutputs(s, outputs[..|outputs| - 1]);
      AddOutputsSetsUp(s, outputs[..|outputs| - 1]);
      var all := init.linked + LockListeners(init.lock.value.id);
      assert Inv(init.(linked := all));
      AddOutputKeepsInv(init.(linked := all), outputs[|outputs| - 1]);
      var t := AddOutput(init.(linked := all), outputs[|outputs| - 1]);
      assert AddOutputs(s, outputs) == t.(linked := AddOutputs(s, outputs).linked);
      assert AddOutputs(s, outputs).linked == t.linked - LockListeners(init.lock.value.id);
    }
  }

  lemma RequestLockKeepsInv(s: State, id: nat, outputs: seq<nat>)
    requires Inv(s) && Enabled(s, RequestLock(id, outputs))
    ensures Inv(Step(s, RequestLock(id, outputs)))
    ensures s.lock.Some? && !s.lock.value.abandoned ==>
      Step(s, RequestLock(id, outputs)) == s.(answers := s.answers + [Refused(id)])
    ensures s.lock.None? || s.lock.value.abandoned ==>
      var t := Step(s, RequestLock(id, outputs));
      t.lock.Some? && t.lock.value.id == id && !t.lock.value.abandoned && t.answers == s.answers + [Accepted(id)]
  {
    if !(s.lock.Some? && !s.lock.value.abandoned) {
      if s.lock.Some? { DestroyLockKeepsInv(s); }
      var t := if s.lock.Some? then DestroyLock(s) else s;
      assert Expected(s, NewLock);
      AddOutputsSetsUp(t.(lock := Some(Lock(id, false, None, []))), outputs);
    }
  }

  /** Replacing the surface of one lock output. */
  lemma SetSurfaceAre(l: Lock, k: nat, surface: Option<Surface>)
    requires k < |l.outputs| && DistinctUids(l.outputs) && DistinctSurfaces(l.outputs)
    ensures var m, o := SetSurface(l, k, surface), l.outputs[k].(surface := surface);
      && DistinctUids(m.outputs) && Uids(m.outputs) == Uids(l.outputs)
      && (forall p :: p in m.outputs <==> p == o || (p in l.outputs && p.uid != o.uid))
      && SurfaceUids(m.outputs)
         == if surface.Some? then SurfaceUids(l.outputs) + {o.uid} else SurfaceUids(l.outputs) - {o.uid}
  {
    var m, o := SetSurface(l, k, surface), l.outputs[k].(surface := surface);
    assert m.outputs[k] == o;
    forall p | p in l.outputs && p.uid != o.uid
      ensures p in m.outputs
    {
      var i :| 0 <= i < |l.outputs| && l.outputs[i] == p;
      assert m.outputs[i] == p;
    }
    assert forall i :: 0 <= i < |l.outputs| ==> m.outputs[i].uid == l.outputs[i].uid;
    assert forall p :: p in l.outputs ==> p == l.outputs[k] || p.uid != o.uid;
  }

  lemma NewSurfaceLockOk(l: Lock, k: nat, surface: nat, nextUid: nat)
    requires LockOk(l, nextUid) && k < |l.outputs| && l.outputs[k].surface == None
    requires forall o :: o in l.outputs && o.surface.Some? ==> o.surface.value.id != surface
    ensures LockOk(SetSurface(l, k, Some(Surface(surface, false))), nextUid)
  {
    SetSurfaceAre(l, k, Some(Surface(surface, false)));
    var m := SetSurface(l, k, Some(Surface(surface, false)));
    assert l.outputs[k] in l.outputs;
    assert forall i :: 0 <= i < |l.outputs| && i != k ==> m.outputs[i] == l.outputs[i] && l.outputs[i] in l.outputs;
    if l.focused.Some? {
      var o :| o in l.outputs && o.surface.Some? && o.surface.value.id == l.focused.value;
      assert o in m.outputs;
    }
  }

  lemma NewSurfaceKeepsInv(s: State, k: nat, surface: nat)
    requires Inv(s) && Enabled(s, NewSurface(k, surface))
    ensures Inv(Step(s, NewSurface(k, surface)))
  {
    NewSurfaceLockOk(s.lock.value, k, surface, s.nextUid);
    SetSurfaceAre(s.lock.value, k, Some(Surface(surface, false)));
  }

  /** Setting the mapped flag of an attached surface. */
  lemma SetMappedAre(l: Lock, k: nat, mapped: bool)
    requires k < |l.outputs| && l.outputs[k].surface.Some? && DistinctUids(l.outputs) && DistinctSurfaces(l.outputs)
    ensures var m := SetSurface(l, k, Some(l.outputs[k].surface.value.(mapped := mapped)));
      DistinctSurfaces(m.outputs) && forall f :: Attached(m, f) <==> Attached(l, f)
  {
    var m := SetSurface(l, k, Some(l.outputs[k].surface.value.(mapped := mapped)));
    SetSurfaceAre(l, k, m.outputs[k].surface);
    assert l.outputs[k] in l.outputs && m.outputs[k] in m.outputs;
    forall f
      ensures Attached(m, f) <==> Attached(l, f)
    {
      if Attached(l, f) {
        var o :| o in l.outputs && o.surface.Some? && o.surface.value.id == f;
        assert o == l.outputs[k] || o in m.outputs;
      }
    }
  }

  lemma MapSurfaceKeepsInv(s: State, k: nat)
    requires Inv(s) && Enabled(s, MapSurface(k))
    ensures Inv(Step(s, MapSurface(k)))
  {
    var l := s.lock.value;
    SetSurfaceAre(l, k, Some(l.outputs[k].surface.value.(mapped := true)));
    SetMappedAre(l, k, true);
    assert l.outputs[k] in l.outputs;
    assert Attached(l, l.outputs[k].surface.value.id);
  }

  lemma UnmapSurfaceKeepsInv(s: State, k: nat)
    requires Inv(s) && Enabled(s, UnmapSurface(k))
    ensures Inv(Step(s, UnmapSurface(k)))
  {
    var l := s.lock.value;
    SetSurfaceAre(l, k, Some(l.outputs[k].surface.value.(mapped := false)));
    SetMappedAre(l, k, false);
    assert l.outputs[k] in l.outputs;
  }

  lemma DestroySurfaceLinked(s: State, k: nat)
    requires Linked(s) && HasSurface(s, k) && SurfaceMap(s.lock.value.outputs[k].uid) in s.linked
    requires SurfaceDestroy(s.lock.value.outputs[k].uid) in s.linked
    requires DistinctUids(s.lock.value.outputs) && DistinctSurfaces(s.lock.value.outputs)
    ensures Linked(Step(s, DestroySurface(k)))
  {
    SetSurfaceAre(s.lock.value, k, None);
  }

  lemma DestroySurfaceLockOk(l: Lock, k: nat, nextUid: nat)
    requires LockOk(l, nextUid) && k < |l.outputs| && l.outputs[k].surface.Some?
    ensures LockOk(SetSurface(Refocus(l, k), k, None), nextUid)
  {
    SetSurfaceAre(l, k, None);
    RefocusOk(l, k, SetSurface(l, k, None).outputs);
    assert SetSurface(Refocus(l, k), k, None) == Refocus(l, k).(outputs := SetSurface(l, k, None).outputs);
    assert l.outputs[k] in l.outputs;
  }

  lemma DestroySurfaceKeepsInv(s: State, k: nat)
    requires Inv(s) && Enabled(s, DestroySurface(k))
    ensures Inv(Step(s, DestroySurface(k)))
  {
    hide Linked, LockOk;
    SurfaceLinked(s, k);
    DestroySurfaceLinked(s, k);
    DestroySurfaceLockOk(s.lock.value, k, s.nextUid);
  }

  lemma SurfaceLinked(s: State, k: nat)
    requires Inv(s) && HasSurface(s, k)
    ensures SurfaceMap(s.lock.value.outputs[k].uid) in s.linked
    ensures DistinctUids(s.lock.value.outputs) && DistinctSurfaces(s.lock.value.outputs)
  {
    assert s.lock.value.outputs[k] in s.lock.value.outputs;
    assert Expected(s, SurfaceMap(s.lock.value.outputs[k].uid));
  }

  lemma AllRedAre(outputs: seq<LockOutput>)
    ensures forall o :: o in outputs ==> o.(red := true) in AllRed(outputs)
    ensures Uids(AllRed(outputs)) == Uids(outputs) && SurfaceUids(AllRed(outputs)) == SurfaceUids(outputs)
  {
    forall o | o in outputs
      ensures o.(red := true) in AllRed(outputs)
    {
      var i :| 0 <= i < |outputs| && outputs[i] == o;
      assert AllRed(outputs)[i] == o.(red := true);
    }
  }

  lemma AbandonLockOk(l: Lock, nextUid: nat)
    requires LockOk(l, nextUid)
    ensures LockOk(l.(abandoned := true, outputs := AllRed(l.outputs)), nextUid)
  {
    AllRedAre(l.outputs);
    if l.focused.Some? {
      var o :| o in l.outputs && o.surface.Some? && o.surface.value.id == l.focused.value;
      assert o.(red := true) in AllRed(l.outputs);
    }
  }

  lemma AbandonKeepsInv(s: State)
    requires Inv(s) && Enabled(s, Abandon)
    ensures Inv(Step(s, Abandon))
  {
    AllRedAre(s.lock.value.outputs);
    AbandonLockOk(s.lock.value, s.nextUid);
  }

  lemma StepKeepsInv(s: State, e: Event)
    requires Inv(s) && Enabled(s, e)
    ensures Inv(Step(s, e))
  {
    match e
    case RequestLock(id, outputs) => RequestLockKeepsInv(s, id, outputs);
    case NewSurface(k, surface) => NewSurfaceKeepsInv(s, k, surface);
    case MapSurface(k) => MapSurfaceKeepsInv(s, k);
    case UnmapSurface(k) => UnmapSurfaceKeepsInv(s, k);
    case DestroySurface(k) => DestroySurfaceKeepsInv(s, k);
    case DestroyOutput(k) => DropOutputKeepsInv(s, k);
    case AddedOutput(output) => AddOutputKeepsInv(s, output);
    case Unlock => DestroyLockKeepsInv(s);
    case Abandon => AbandonKeepsInv(s);
    case DestroyManager => if s.lock.Some? { DestroyLockKeepsInv(s); }
  }

  // ---- all runs ----

  ghost predicate Trace(states: seq<State>, events: seq<Event>) {
    && |states| == |events| + 1 && states[0] == INITIAL
    && forall i :: 0 <= i < |events| ==> Enabled(states[i], events[i]) && states[i + 1] == Step(states[i], events[i])
  }

  lemma {:induction false} TraceInv(states: seq<State>, events: seq<Event>, i: nat)
    requires Trace(states, events) && i < |states|
    ensures Inv(states[i])
  {
    if i > 0 {
      TraceInv(states, events, i - 1);
      StepKeepsInv(states[i - 1], events[i - 1]);
    }
  }

  /** What one event can do to the lock that is in force: only its own unlock and the end of the
      manager lift it, only its own client can abandon it, and it gives way to another lock only
      once it is abandoned. */
  lemma StepOfLocked(s: State, e: Event)
    requires Inv(s) && Enabled(s, e) && s.lock.Some?
    ensures var l, t := s.lock.value, Step(s, e);
      && (e == Unlock ==> !l.abandoned)
      && (t.lock.None? <==> e == Unlock || e == DestroyManager)
      && (t.lock.Some? && t.lock.value.id != l.id ==> l.abandoned && e.RequestLock? && t.lock.value.id == e.id)
      && (t.lock.Some? && t.lock.value.id == l.id ==> (t.lock.value.abandoned <==> l.abandoned || e == Abandon))
  {
    match e
    case RequestLock(id, outputs) => RequestLockKeepsInv(s, id, outputs);
    case Unlock => assert Expected(s, LockUnlock(s.lock.value.id));
    case _ =>
  }

  /** The events that end a lock for good. */
  ghost predicate Lifts(s: State, e: Event) {
    s.lock.Some? && (e == DestroyManager || (e == Unlock && !s.lock.value.abandoned))
  }

  /** Locked stays locked: from any moment of a run at which the session is locked, it is locked
      until the manager is torn down or some lock in force that was not abandoned is unlocked. */
  lemma {:induction false} LockedUntilUnlocked(states: seq<State>, events: seq<Event>, i: nat, j: nat)
    requires Trace(states, events) && i <= j < |states| && states[i].lock.Some?
    ensures states[j].lock.Some? || exists k :: i <= k < j && Lifts(states[k], events[k])
  {
    if i < j {
      LockedUntilUnlocked(states, events, i, j - 1);
      if states[j - 1].lock.Some? {
        TraceInv(states, events, j - 1);
        StepOfLocked(states[j - 1], events[j - 1]);
        assert states[j] == Step(states[j - 1], events[j - 1]);
      }
    }
  }

  /** An abandoned lock stays in force, abandoned, until another client asks for a lock or the
      manager goes; the request that comes is granted. */
  lemma {:induction false} AbandonedStays(states: seq<State>, events: seq<Event>, i: nat, j: nat)
    requires Trace(states, events) && i <= j < |states|
    requires states[i].lock.Some? && states[i].lock.value.abandoned
    requires forall k :: i <= k < j ==> !events[k].RequestLock? && events[k] != DestroyManager
    ensures states[j].lock.Some? && states[j].lock.value.abandoned && states[j].lock.value.id == states[i].lock.value.id
    ensures j < |events| && events[j].RequestLock? ==>
      states[j + 1].lock.Some? && states[j + 1].lock.value.id == events[j].id && !states[j + 1].lock.value.abandoned
  {
    hide Inv, Step;
    TraceInv(states, events, j);
    if i < j {
      AbandonedStays(states, events, i, j - 1);
      TraceInv(states, events, j - 1);
      StepOfLocked(states[j - 1], events[j - 1]);
    }
    if j < |events| && events[j].RequestLock? {
      RequestLockKeepsInv(states[j], events[j].id, events[j].outputs);
    }
  }

  /** In every state of every run: the listeners that are linked are exactly those of the objects
      alive, so none outlives its object; the focus is on an attached surface or, when there is
      none, no attached surface is mapped; a background is red iff the lock is abandoned. */
  lemma AlwaysConsistent(states: seq<State>, events: seq<Event>, i: nat)
    requires Trace(states, events) && i < |states|
    ensures forall x :: x in states[i].linked <==> Expected(states[i], x)
    ensures states[i].lock.None? ==>
      states[i].linked == if states[i].managed then {NewLock, ManagerDestroy} else {}
    ensures states[i].lock.Some? ==>
      && FocusOk(states[i].lock.value)
      && (forall o :: o in states[i].lock.value.outputs ==> (o.red <==> states[i].lock.value.abandoned))
      && (forall o :: o in states[i].lock.value.outputs ==> OutputDestroy(o.uid) in states[i].linked)
      && (forall o :: o in states[i].lock.value.outputs ==>
        (SurfaceMap(o.uid) in states[i].linked <==> o.surface.Some?))
  {
    TraceInv(states, events, i);
    assert states[i].lock.None? ==> forall x :: x in states[i].linked <==> Expected(states[i], x);
    if states[i].lock.Some? {
      var outputs := states[i].lock.value.outputs;
      forall o | o in outputs
        ensures OutputDestroy(o.uid) in states[i].linked && (SurfaceMap(o.uid) in states[i].linked <==> o.surface.Some?)
      {
        assert Expected(states[i], OutputDestroy(o.uid));
        assert SurfaceMap(o.uid) in states[i].linked <==> o.uid in SurfaceUids(outputs);
        if o.uid in SurfaceUids(outputs) {
          var p :| p in outputs && p.surface.Some? && p.uid == o.uid;
          assert p == o;
        }
      }
    }
  }
}
