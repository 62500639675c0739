/** The lines that reading a configuration file puts off until the compositor runs. */
module ConfigDeferred {
  import opened Tokens
  import opened ConfigReader
  import opened ConfigItems

  /** The line of a command: its words with the headers of the blocks around it in front. */
  function LineOf(argv: seq<string>): string {
    if argv == [] then "" else Join(argv)
  }

  /** Of the first `n` commands that were run those whose handler asked to be called later, in order. */
  ghost function PutOff(exec: Exec, t: Trace, n: nat): seq<string>
    requires n <= |t.log|
  {
    if n == 0 then []
    else
      var argv := t.log[n - 1];
      PutOff(exec, t, n - 1) + if exec(Before(t, n - 1), argv) == Deferred then [LineOf(argv)] else []
  }

  lemma {:induction false} PutOffSame(exec: Exec, t: Trace, u: Trace, n: nat)
    requires n <= |t.log| && n <= |u.log|
    requires forall i :: 0 <= i < n ==> Before(u, i) == Before(t, i) && u.log[i] == t.log[i]
    ensures PutOff(exec, u, n) == PutOff(exec, t, n)
  {
    if n > 0 { PutOffSame(exec, t, u, n - 1); }
  }

  /** The deferred lines are those. */
  ghost predicate Queued(exec: Exec, r: Reader) {
    r.deferred == PutOff(exec, r.trace, |r.trace.log|)
  }

  lemma BorderQueued(exec: Exec, r: Reader, s: Reader)
    requires TraceOk(r.trace) && Queued(exec, r)
    requires s.deferred == r.deferred && s.trace in {r.trace, ResetBar(r.trace), ClearContext(r.trace)}
    ensures TraceOk(s.trace) && Queued(exec, s)
  {
    var t, u := r.trace, s.trace;
    forall i | 0 <= i < |t.log|
      ensures Before(u, i) == Before(t, i) && u.log[i] == t.log[i]
    {
      if u != t { BorderBefore(t, u, i); }
    }
    PutOffSame(exec, t, u, |t.log|);
  }

  lemma RunQueued(exec: Exec, r: Reader, argv: seq<string>)
    requires TraceOk(r.trace) && Queued(exec, r) && argv != []
    ensures Queued(exec, RunCommand(exec, r, argv, Join(argv)))
  {
    var t := r.trace;
    var u := t.(log := t.log + [argv]);
    forall i | 0 <= i < |t.log|
      ensures Before(u, i) == Before(t, i) && u.log[i] == t.log[i]
    {
      assert u.log[..i] == t.log[..i];
    }
    PutOffSame(exec, t, u, |t.log|);
    BeforeAll(t);
    assert u.log[..|t.log|] == t.log[..|t.log|];
    assert Before(u, |t.log|) == t;
  }

  lemma OpenQueued(exec: Exec, r: Reader, block: string)
    requires TraceOk(r.trace) && Queued(exec, r)
    ensures Queued(exec, OpenBlock(r, block))
  {
    BorderQueued(exec, r, OpenBlock(r, block));
  }

  lemma CloseQueued(exec: Exec, r: Reader)
    requires TraceOk(r.trace) && Queued(exec, r)
    ensures Queued(exec, CloseBlock(r))
  {
    if r.stack == [] {
      BorderQueued(exec, r, CloseBlock(r));
    } else {
      var s := r.(trace := Border(r.stack[0], r.trace));
      BorderQueued(exec, r, s);
      BorderQueued(exec, s, CloseBlock(r));
    }
  }

  lemma QueuedNext(exec: Exec, r: Reader, paths: seq<seq<string>>, it: Item)
    requires TraceOk(r.trace) && Queued(exec, r)
    ensures Queued(exec, Do(exec, r, paths, it))
  {
    match it
    case CommentLine(_) =>
    case LeafLine(_, words) => if words != [] { RunQueued(exec, r, Top(paths) + words); }
    case OpenLine(_, header, _, _) => if header != [] { OpenQueued(exec, r, Join(Top(paths) + header)); }
    case CloseLine(_) => CloseQueued(exec, r);
  }

  lemma {:induction false} AllQueued(exec: Exec, items: seq<Item>)
    requires forall i :: 0 <= i < |items| && items[i].OpenLine? ==> items[i].header != []
    ensures Queued(exec, DoAll(exec, START, [], items))
  {
    if items != [] {
      var init, last := items[..|items| - 1], items[|items| - 1];
      AllQueued(exec, init);
      AllJudged(exec, init);
      DoAllLast(exec, START, [], init, last);
      QueuedNext(exec, DoAll(exec, START, [], init), EnterAll([], init), last);
      assert items == init + [last];
    }
  }

  /** For every list of commands, comments and block lines: reading it puts off exactly the lines of those
      commands whose handlers asked for it, in the order of the file. */
  lemma DeferredInOrder(exec: Exec, items: seq<Item>)
    requires ItemsOk([], items)
    ensures var r := Read(exec, PrintItems(items), START);
      r.deferred == PutOff(exec, r.trace, |r.trace.log|)
  {
    ItemsRead(exec, [], items, [], START);
    assert PrintItems(items) + [] == PrintItems(items);
    forall i | 0 <= i < |items| && items[i].OpenLine?
      ensures items[i].header != []
    {
      ItemsOkOpens([], items, i);
    }
    AllQueued(exec, items);
  }
}
