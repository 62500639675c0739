/** The session lock objects of the compositor and their event handlers. */
module SessionLock {
  import opened Options
  import opened SessionLockSpec

  class SessionLock {
    const id: nat
    var abandoned: bool
    var focused: Option<nat>
    var outputs: seq<LockOutput>

    constructor (id: nat)
      ensures this.id == id && !abandoned && focused == None && outputs == []
    {
      this.id := id;
      abandoned, focused, outputs := false, None, [];
    }

    ghost function Value(): Lock
      reads this
    {
      Lock(id, abandoned, focused, outputs)
    }

    /** `refocus_output`: moves the focus to another surface if one is available. */
    method RefocusOutput(k: nat)
      requires k < |outputs| && outputs[k].surface.Some?
      modifies this`focused
      ensures Value() == Refocus(old(Value()), k)
    {
      if focused == Some(outputs[k].surface.value.id) {
        var next: Option<nat> := None;
        var j := 0;
        while j < |outputs|
          invariant 0 <= j <= |outputs| && next == None
          invariant NextFocus(outputs, k) == NextFocusFrom(outputs, k, j)
        {
          var candidate := outputs[j];
          if j != k && candidate.surface.Some? {
            if candidate.surface.value.mapped {
              next := Some(candidate.surface.value.id);
              break;
            }
          }
          j := j + 1;
        }
        focused := next;
      }
    }
  }

  /** `server.session_lock`, with the list of linked listeners. Linking requires the listener to
      be off all lists and unlinking requires it to be on one. */
  class LockServer {
    var managed: bool
    var lock: SessionLock?
    ghost var linked: set<Listener>
    ghost var answers: seq<Answer>
    var nextUid: nat

    ghost function State(): SessionLockSpec.State
      reads this, lock
    {
      SessionLockSpec.State(managed, if lock == null then None else Some(lock.Value()), linked, answers, nextUid)
    }

    ghost predicate Valid()
      reads this, lock
    {
      Inv(State())
    }

    /** `sway_session_lock_init`. */
    constructor ()
      ensures State() == INITIAL && Valid()
    {
      managed, lock, linked, answers, nextUid := true, null, {NewLock, ManagerDestroy}, [], 0;
    }

    ghost method Link(x: Listener)
      requires x !in linked
      modifies this`linked
      ensures linked == old(linked) + {x}
    {
      linked := linked + {x};
    }

    /** `wl_list_remove`. */
    ghost method Unlink(x: Listener)
      requires x in linked
      modifies this`linked
      ensures linked == old(linked) - {x}
    {
      linked := linked - {x};
    }

    /** `sway_session_lock_output_destroy`. */
    method OutputDestroyed(k: nat)
      requires Valid() && HasOutput(State(), k)
      modifies this`linked, lock
      ensures State() == DropOutput(old(State()), k) && Valid()
    {
      hide Inv;
      DropOutputKeepsInv(State(), k);
      var output := lock.outputs[k];
      SurfaceOf(State(), k);
      if output.surface.Some? {
        lock.RefocusOutput(k);
        Unlink(SurfaceDestroy(output.uid));
        Unlink(SurfaceMap(output.uid));
      }
      Unlink(OutputDestroy(output.uid));
      lock.outputs := lock.outputs[..k] + lock.outputs[k + 1..];
    }

    /** `sway_session_lock_destroy` of the current lock. */
    method DestroyCurrentLock()
      requires Valid() && lock != null
      modifies this`linked, this`lock, lock
      ensures State() == DestroyLock(old(State())) && Valid()
    {
      hide Inv;
      DestroyLockKeepsInv(State());
      while lock.outputs != []
        invariant lock == old(lock) && Valid() && DropAllOutputs(State()) == DropAllOutputs(old(State()))
        invariant lock.abandoned == old(lock.abandoned)
        decreases |lock.outputs|
      {
        // destroying the node also destroys the whole lock output
        OutputDestroyed(0);
      }
      if !lock.abandoned {
        OwnListeners(State());
        Unlink(LockDestroy(lock.id));
        Unlink(LockUnlock(lock.id));
        Unlink(LockNewSurface(lock.id));
      }
      lock := null;
    }

    /** The state with `l` as the lock in force, as it is while a lock is being set up. */
    ghost function StateWith(l: SessionLock): SessionLockSpec.State
      reads this, l
    {
      SessionLockSpec.State(managed, Some(l.Value()), linked, answers, nextUid)
    }

    /** `sway_session_lock_add_output`. */
    method AddOutput(l: SessionLock, output: nat)
      requires OutputDestroy(nextUid) !in linked
      modifies this`linked, this`nextUid, l`outputs
      ensures StateWith(l) == SessionLockSpec.AddOutput(old(StateWith(l)), output)
    {
      var lockOutput := LockOutput(nextUid, output, l.abandoned, None);
      Link(OutputDestroy(nextUid));
      nextUid := nextUid + 1;
      l.outputs := [lockOutput] + l.outputs;
    }

    /** An output appears while a lock is in force. */
    method HandleNewOutput(output: nat)
      requires Valid() && Enabled(State(), AddedOutput(output))
      modifies this`linked, this`nextUid, lock
      ensures Valid() && State() == Step(old(State()), AddedOutput(output))
    {
      StepKeepsInv(State(), AddedOutput(output));
      assert !Expected(State(), OutputDestroy(nextUid));
      AddOutput(lock, output);
    }

    /** `handle_session_lock`: a client asks for a lock. */
    method HandleSessionLock(id: nat, allOutputs: seq<nat>)
      requires Valid() && Enabled(State(), RequestLock(id, allOutputs))
      modifies this, lock
      ensures Valid() && State() == Step(old(State()), RequestLock(id, allOutputs))
    {
      hide Inv, SettingUp, AddOutputs;
      ghost var was := State();
      RequestLockKeepsInv(was, id, allOutputs);
      if lock != null {
        if lock.abandoned {
          DestroyLockKeepsInv(was);
          DestroyCurrentLock();
        } else {
          answers := answers + [Refused(id)];
          return;
        }
      }
      SettingUpStarts(State(), id);
      var l := new SessionLock(id);
      ghost var start := StateWith(l);
      AddAllOutputs(l, allOutputs);
      AddOutputsSetsUp(start, allOutputs);
      SettingUpFree(StateWith(l));
      Link(LockNewSurface(id));
      Link(LockUnlock(id));
      Link(LockDestroy(id));
      answers := answers + [Accepted(id)];
      lock := l;
      assert State() == Step(was, RequestLock(id, allOutputs));
    }

    /** The loop over all outputs while a lock is being set up. */
    method AddAllOutputs(l: SessionLock, allOutputs: seq<nat>)
      requires SettingUp(StateWith(l))
      modifies this`linked, this`nextUid, l`outputs
      ensures StateWith(l) == AddOutputs(old(StateWith(l)), allOutputs)
    {
      ghost var start := StateWith(l);
      var n := 0;
      while n < |allOutputs|
        invariant 0 <= n <= |allOutputs| && StateWith(l) == AddOutputs(start, allOutputs[..n])
      {
        AddOutputsSetsUp(start, allOutputs[..n]);
        SettingUpFree(StateWith(l));
        assert allOutputs[..n + 1][..n] == allOutputs[..n];
        AddOutput(l, allOutputs[n]);
        n := n + 1;
      }
      assert allOutputs[..n] == allOutputs;
    }

    /** `handle_new_surface`, once the lock output of the surface has been found. */
    method HandleNewSurface(k: nat, surface: nat)
      requires Valid() && Enabled(State(), NewSurface(k, surface))
      modifies this`linked, lock
      ensures Valid() && State() == Step(old(State()), NewSurface(k, surface))
    {
      StepKeepsInv(State(), NewSurface(k, surface));
      SurfaceOf(State(), k);
      var output := lock.outputs[k];
      lock.outputs := lock.outputs[k := output.(surface := Some(Surface(surface, false)))];
      Link(SurfaceDestroy(output.uid));
      Link(SurfaceMap(output.uid));
    }

    /** `handle_surface_map`; wlroots has just set the mapped flag. */
    method HandleSurfaceMap(k: nat)
      requires Valid() && Enabled(State(), MapSurface(k))
      modifies lock
      ensures Valid() && State() == Step(old(State()), MapSurface(k))
    {
      StepKeepsInv(State(), MapSurface(k));
      var surface := lock.outputs[k].surface.value;
      lock.outputs := lock.outputs[k := lock.outputs[k].(surface := Some(surface.(mapped := true)))];
      if lock.focused == None {
        lock.focused := Some(surface.id);
      }
    }

    /** `handle_surface_destroy`. */
    method HandleSurfaceDestroy(k: nat)
      requires Valid() && Enabled(State(), DestroySurface(k))
      modifies this`linked, lock
      ensures Valid() && State() == Step(old(State()), DestroySurface(k))
    {
      StepKeepsInv(State(), DestroySurface(k));
      SurfaceOf(State(), k);
      lock.RefocusOutput(k);
      var output := lock.outputs[k];
      lock.outputs := lock.outputs[k := output.(surface := None)];
      Unlink(SurfaceDestroy(output.uid));
      Unlink(SurfaceMap(output.uid));
      assert State() == Step(old(State()), DestroySurface(k));
    }

    /** `handle_unlock`. */
    method HandleUnlock()
      requires Valid() && Enabled(State(), Unlock)
      modifies this`linked, this`lock, lock
      ensures Valid() && State() == Step(old(State()), Unlock)
    {
      DestroyCurrentLock();
    }

    /** `handle_abandon`: the client went away without unlocking. */
    method HandleAbandon()
      requires Valid() && Enabled(State(), Abandon)
      modifies this`linked, lock
      ensures Valid() && State() == Step(old(State()), Abandon)
    {
      hide Inv;
      StepKeepsInv(State(), Abandon);
      OwnListeners(State());
      ghost var was := lock.outputs;
      var n := 0;
      while n < |lock.outputs|
        invariant lock == old(lock) && 0 <= n <= |lock.outputs| == |was|
        invariant lock.abandoned == old(lock.abandoned) && lock.focused == old(lock.focused) && linked == old(linked)
        invariant forall i :: 0 <= i < |was| ==> lock.outputs[i] == if i < n then was[i].(red := true) else was[i]
      {
        lock.outputs := lock.outputs[n := lock.outputs[n].(red := true)];
        n := n + 1;
      }
      assert lock.outputs == AllRed(was);
      lock.abandoned := true;
      Unlink(LockDestroy(lock.id));
      Unlink(LockUnlock(lock.id));
      Unlink(LockNewSurface(lock.id));
      assert linked == old(linked) - LockListeners(lock.id);
      assert State() == Step(old(State()), Abandon);
    }

    /** `handle_session_lock_destroy`: the lock manager goes away. */
    method HandleManagerDestroy()
      requires Valid() && Enabled(State(), DestroyManager)
      modifies this, lock
      ensures Valid() && State() == Step(old(State()), DestroyManager)
    {
      StepKeepsInv(State(), DestroyManager);
      assert Expected(State(), ManagerDestroy) && Expected(State(), NewLock);
      if lock != null {
        DestroyLockKeepsInv(State());
        DestroyCurrentLock();
      }
      Unlink(NewLock);
      Unlink(ManagerDestroy);
      managed := false;
    }
  }

  /** The listeners of a lock output are linked as its surface demands. */
  lemma SurfaceOf(s: SessionLockSpec.State, k: nat)
    requires Inv(s) && HasOutput(s, k)
    ensures var o := s.lock.value.outputs[k];
      && OutputDestroy(o.uid) in s.linked
      && (SurfaceDestroy(o.uid) in s.linked <==> o.surface.Some?)
      && (SurfaceMap(o.uid) in s.linked <==> o.surface.Some?)
  {
    var outputs := s.lock.value.outputs;
    var o := outputs[k];
    assert o in outputs && Expected(s, OutputDestroy(o.uid));
    assert o.uid in SurfaceUids(outputs) <==> o.surface.Some? by {
      if o.uid in SurfaceUids(outputs) {
        var p :| p in outputs && p.surface.Some? && p.uid == o.uid;
        assert p == o;
      }
    }
    assert Expected(s, SurfaceDestroy(o.uid)) <==> o.surface.Some?;
    assert Expected(s, SurfaceMap(o.uid)) <==> o.surface.Some?;
  }
}
