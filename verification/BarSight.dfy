/** Nested and flat files again, for handlers as they are: only those of `bar` look at the current bar,
    and unsetting it means nothing to them while no bar was selected. */
module BarSight {
  import opened Tokens
  import opened ConfigReader
  import opened ConfigItems
  import opened NestedConfig

  predicate IsBar(argv: seq<string>) {
    argv != [] && argv[0] == "bar"
  }

  ghost predicate HasBar(log: seq<seq<string>>, n: nat) {
    exists i :: 0 <= i < n && i < |log| && IsBar(log[i])
  }

  /** The places where a current bar was unset. */
  ghost function Felt(t: Trace): set<nat> {
    set p | p in t.barResets && HasBar(t.log, p)
  }

  /** Handlers of other commands look at nothing but the commands before, those of `bar` also at where the
      current bar was unset. */
  ghost predicate OnlyBarsSee(exec: Exec) {
    forall t: Trace, u: Trace, argv: seq<string> {:trigger exec(t, argv), exec(u, argv)} ::
      t.log == u.log && (IsBar(argv) ==> Felt(t) == Felt(u)) ==> exec(t, argv) == exec(u, argv)
  }

  predicate IsBarRun(s: Step) {
    s.Run? && IsBar(s.argv)
  }

  predicate NoBarRuns(steps: seq<Step>) {
    forall i :: 0 <= i < |steps| ==> !IsBarRun(steps[i])
  }

  /** The begin or end of a `bar` block lies between two `bar` commands. */
  ghost predicate Between(steps: seq<Step>, i: int, j: int, k: int) {
    0 <= i < j < k < |steps| && IsBarRun(steps[i]) && steps[j].BarBorder? && IsBarRun(steps[k])
  }

  ghost predicate BarsApart(steps: seq<Step>) {
    exists i, j, k :: Between(steps, i, j, k)
  }

  /** The same step by step; `seen` tells whether there was a `bar` command before. */
  ghost predicate Together(seen: bool, steps: seq<Step>)
    decreases |steps|
  {
    steps == [] ||
      if steps[0].BarBorder? && seen then NoBarRuns(steps[1..]) && Together(seen, steps[1..])
      else Together(seen || IsBarRun(steps[0]), steps[1..])
  }

  lemma Shift(steps: seq<Step>, i: int, j: int, k: int)
    requires steps != [] && i > 0
    ensures Between(steps, i, j, k) <==> Between(steps[1..], i - 1, j - 1, k - 1)
  {
  }

  /** Once a `bar` command was seen, only borders with another one behind matter. */
  lemma {:induction false} TogetherSeen(steps: seq<Step>)
    ensures Together(true, steps) <==>
      !exists j, k :: 0 <= j < k < |steps| && steps[j].BarBorder? && IsBarRun(steps[k])
    decreases |steps|
  {
    if steps != [] {
      var rest := steps[1..];
      TogetherSeen(rest);
      if j, k :| 0 <= j < k < |rest| && rest[j].BarBorder? && IsBarRun(rest[k]) {
        assert steps[j + 1].BarBorder? && IsBarRun(steps[k + 1]);
      }
      if j, k :| 0 <= j < k < |steps| && steps[j].BarBorder? && IsBarRun(steps[k]) {
        assert IsBarRun(rest[k - 1]);
        if j > 0 { assert rest[j - 1].BarBorder?; }
      }
      if steps[0].BarBorder? && !NoBarRuns(rest) {
        var k :| 0 <= k < |rest| && IsBarRun(rest[k]);
        assert steps[0].BarBorder? && IsBarRun(steps[k + 1]);
      }
    }
  }

  lemma {:induction false} TogetherIff(steps: seq<Step>)
    ensures Together(false, steps) <==> !BarsApart(steps)
    decreases |steps|
  {
    if steps != [] {
      var rest := steps[1..];
      if IsBarRun(steps[0]) {
        TogetherSeen(rest);
        if j, k :| 0 <= j < k < |rest| && rest[j].BarBorder? && IsBarRun(rest[k]) {
          assert Between(steps, 0, j + 1, k + 1);
        }
        if i, j, k :| Between(steps, i, j, k) {
          assert rest[j - 1].BarBorder? && IsBarRun(rest[k - 1]);
        }
      } else {
        TogetherIff(rest);
        if i, j, k :| Between(rest, i, j, k) {
          Shift(steps, i + 1, j + 1, k + 1);
        }
        if i, j, k :| Between(steps, i, j, k) {
          Shift(steps, i, j, k);
        }
      }
    }
  }

  // ---- when both do the same ----

  lemma RunFelt(t: Trace, argv: seq<string>)
    requires TraceOk(t)
    ensures Felt(t.(log := t.log + [argv])) == Felt(t)
    ensures HasBar(t.log + [argv], |t.log| + 1) <==> HasBar(t.log, |t.log|) || IsBar(argv)
  {
    var log := t.log + [argv];
    forall p | p in t.barResets
      ensures HasBar(log, p) <==> HasBar(t.log, p)
    {
      if i :| 0 <= i < p && i < |log| && IsBar(log[i]) { assert IsBar(t.log[i]); }
      if i :| 0 <= i < p && i < |t.log| && IsBar(t.log[i]) { assert IsBar(log[i]); }
    }
    if IsBar(argv) { assert IsBar(log[|t.log|]); }
    if i :| 0 <= i < |t.log| && IsBar(t.log[i]) { assert IsBar(log[i]); }
    if i :| 0 <= i < |log| && IsBar(log[i]) { assert i < |t.log| ==> IsBar(t.log[i]); }
  }

  lemma ResetFelt(t: Trace)
    requires TraceOk(t)
    ensures Felt(ResetBar(t)) == if HasBar(t.log, |t.log|) then Felt(t) + {|t.log|} else Felt(t)
    ensures TraceOk(ResetBar(t))
  {
  }

  lemma {:induction false} SameWhileTogether(exec: Exec, a: Reader, b: Reader, steps: seq<Step>)
    requires OnlyBarsSee(exec) && SameOutcome(a, b) && b.trace.barResets == {} && TraceOk(a.trace)
    requires NoEmptyRuns(steps) && Together(HasBar(a.trace.log, |a.trace.log|), steps)
    requires Felt(a.trace) != {} ==> NoBarRuns(steps)
    ensures SameOutcome(DoSteps(exec, a, steps), DoSteps(exec, b, Runs(RunsIn(steps))))
    decreases |steps|
  {
    if steps != [] {
      var rest := steps[1..];
      var s := DoStep(exec, a, steps[0]);
      if steps[0].Run? {
        SameRun(exec, a, b, steps[0]);
        RunsNext(steps);
        SameWhileTogether(exec, s, DoStep(exec, b, steps[0]), rest);
      } else {
        ResetFelt(a.trace);
        assert RunsIn(steps) == RunsIn(rest);
        SameWhileTogether(exec, s, b, rest);
      }
    }
  }

  lemma SameRun(exec: Exec, a: Reader, b: Reader, run: Step)
    requires OnlyBarsSee(exec) && SameOutcome(a, b) && b.trace.barResets == {} && TraceOk(a.trace)
    requires run.Run? && run.argv != [] && (Felt(a.trace) != {} ==> !IsBarRun(run))
    ensures SameOutcome(DoStep(exec, a, run), DoStep(exec, b, run)) && DoStep(exec, b, run).trace.barResets == {}
    ensures var t := DoStep(exec, a, run).trace;
      && TraceOk(t) && Felt(t) == Felt(a.trace)
      && (HasBar(t.log, |t.log|) <==> HasBar(a.trace.log, |a.trace.log|) || IsBarRun(run))
  {
    RunFelt(a.trace, run.argv);
    RunIgnoresContext(a.trace, run.argv);
    assert Felt(b.trace) == {};
    assert exec(a.trace, run.argv) == exec(b.trace, run.argv);
  }

  lemma RunIgnoresContext(t: Trace, argv: seq<string>)
    requires TraceOk(t)
    ensures TraceOk(t.(log := t.log + [argv]))
  {
  }

  lemma RunsNext(steps: seq<Step>)
    requires steps != [] && steps[0].Run? && steps[0].argv != []
    ensures Runs(RunsIn(steps)) != [] && Runs(RunsIn(steps))[0] == steps[0]
    ensures Runs(RunsIn(steps))[1..] == Runs(RunsIn(steps[1..]))
  {
    var argv := steps[0].argv;
    assert ([argv] + RunsIn(steps[1..]))[1..] == RunsIn(steps[1..]);
  }

  // ---- and when they do not ----

  /** A `bar` command that fails once a current bar was unset. */
  ghost function TouchyBar(): Exec {
    (t: Trace, argv: seq<string>) => if IsBar(argv) && Unset(t) then Failure else Success
  }

  predicate Unset(t: Trace) {
    exists p, i :: p in t.barResets && 0 <= i < p && i < |t.log| && IsBar(t.log[i])
  }

  lemma UnsetIs(t: Trace)
    ensures Unset(t) <==> Felt(t) != {}
  {
    if Unset(t) {
      var p, i :| p in t.barResets && 0 <= i < p && i < |t.log| && IsBar(t.log[i]);
      assert HasBar(t.log, p) && p in Felt(t);
    }
    if Felt(t) != {} {
      var p :| p in Felt(t);
      var i :| 0 <= i < p && i < |t.log| && IsBar(t.log[i]);
    }
  }

  lemma TouchyBarIsOne()
    ensures OnlyBarsSee(TouchyBar())
  {
    forall t: Trace, u: Trace, argv: seq<string> | t.log == u.log && (IsBar(argv) ==> Felt(t) == Felt(u))
      ensures TouchyBar()(t, argv) == TouchyBar()(u, argv)
    {
      UnsetIs(t);
      UnsetIs(u);
    }
  }

  lemma {:induction false} UnsetFails(r: Reader, steps: seq<Step>)
    requires Felt(r.trace) != {} && TraceOk(r.trace) && !NoBarRuns(steps) && NoEmptyRuns(steps)
    ensures !DoSteps(TouchyBar(), r, steps).ok
    decreases |steps|
  {
    var s := DoStep(TouchyBar(), r, steps[0]);
    if IsBarRun(steps[0]) {
      UnsetIs(r.trace);
      FailedStays(TouchyBar(), s, steps[1..]);
    } else {
      if steps[0].Run? { RunFelt(r.trace, steps[0].argv); }
      ResetFelt(r.trace);
      var k :| 0 <= k < |steps| && IsBarRun(steps[k]);
      assert IsBarRun(steps[1..][k - 1]);
      UnsetFails(s, steps[1..]);
    }
  }

  lemma {:induction false} ApartFails(r: Reader, steps: seq<Step>)
    requires !Together(HasBar(r.trace.log, |r.trace.log|), steps) && TraceOk(r.trace) && NoEmptyRuns(steps)
    ensures !DoSteps(TouchyBar(), r, steps).ok
    decreases |steps|
  {
    var s := DoStep(TouchyBar(), r, steps[0]);
    if steps[0].Run? { RunFelt(r.trace, steps[0].argv); }
    ResetFelt(r.trace);
    if steps[0].BarBorder? && HasBar(r.trace.log, |r.trace.log|) && !NoBarRuns(steps[1..]) {
      assert |r.trace.log| in Felt(s.trace);
      UnsetFails(s, steps[1..]);
    } else {
      ApartFails(s, steps[1..]);
    }
  }

  lemma {:induction false} FlatTouchySucceeds(r: Reader, commands: seq<seq<string>>)
    requires r.ok && r.trace.barResets == {}
    ensures DoSteps(TouchyBar(), r, Runs(commands)).ok
    decreases |commands|
  {
    if commands != [] {
      assert Runs(commands)[1..] == Runs(commands[1..]);
      FlatTouchySucceeds(DoStep(TouchyBar(), r, Run(commands[0])), commands[1..]);
    }
  }

  /** For such handlers the nested file does what its flat form does exactly if no begin or end of a `bar`
      block lies between two `bar` commands. */
  lemma BarsMeanFlatIff(ns: seq<Node>)
    requires AllWellFormed([], ns)
    ensures (forall exec: Exec :: OnlyBarsSee(exec) ==>
        SameOutcome(Read(exec, PrintAll(ns), START), Read(exec, FlatLines(Commands([], ns)), START)))
      <==> !BarsApart(Steps([], ns))
  {
    var steps, commands := Steps([], ns), Commands([], ns);
    StepsRun([], ns);
    NothingEmpty([], ns);
    CommandsFlatOk([], ns);
    TogetherIff(steps);
    assert !HasBar([], 0) && Felt(NOTHING) == {};
    if !BarsApart(steps) {
      forall exec: Exec | OnlyBarsSee(exec)
        ensures SameOutcome(Read(exec, PrintAll(ns), START), Read(exec, FlatLines(commands), START))
      {
        NestedDoes(exec, ns);
        FlatDoes(exec, commands);
        SameWhileTogether(exec, START, START, steps);
      }
    } else {
      var exec := TouchyBar();
      NestedDoes(exec, ns);
      FlatDoes(exec, commands);
      ApartFails(START, steps);
      FlatTouchySucceeds(START, commands);
      TouchyBarIsOne();
    }
  }

  // ---- one bar block ----

  lemma {:induction false} StepsAppend(path: seq<string>, a: seq<Node>, b: seq<Node>)
    ensures Steps(path, a + b) == Steps(path, a) + Steps(path, b)
    decreases |a|
  {
    if a == [] {
      assert a + b == b;
    } else {
      assert (a + b)[1..] == a[1..] + b;
      StepsAppend(path, a[1..], b);
    }
  }

  lemma DeepIsNoBar(path: seq<string>, header: seq<string>)
    requires path != [] && header != []
    ensures Borders(path + header) == []
  {
    var words := path + header;
    assert Join(words)[|words[0]|] == ' ';
    assert ' ' !in "bar";
  }

  lemma {:induction false} NoBordersInside(path: seq<string>, ns: seq<Node>)
    requires path != [] && AllWellFormed(path, ns)
    ensures forall s :: s in Steps(path, ns) ==> !s.BarBorder?
    decreases ns
  {
    if ns != [] {
      NoBordersInside(path, ns[1..]);
      if ns[0].Block? {
        DeepIsNoBar(path, ns[0].header);
        NoBordersInside(path + ns[0].header, ns[0].body);
      }
    }
  }

  lemma {:induction false} WellFormedParts(path: seq<string>, a: seq<Node>, b: seq<Node>)
    requires AllWellFormed(path, a + b)
    ensures AllWellFormed(path, b)
    decreases |a|
  {
    if a == [] {
      assert a + b == b;
    } else {
      assert (a + b)[1..] == a[1..] + b;
      WellFormedParts(path, a[1..], b);
    }
  }

  /** The steps of a top-level block have no borders but its own. */
  lemma BlockSteps(block: Node, rest: seq<Node>)
    requires block.Block? && AllWellFormed([], [block] + rest)
    ensures var path := [] + block.header; var body := Steps(path, block.body);
      && StepsOf([], block) == Borders(path) + body + (Borders(path) + [BlockEnd])
      && forall s :: s in body ==> !s.BarBorder?
  {
    assert ([block] + rest)[0] == block;
    NoBordersInside([] + block.header, block.body);
  }

  lemma StepsOfThree(before: seq<Node>, block: Node, after: seq<Node>)
    ensures Steps([], before + [block] + after) == Steps([], before) + StepsOf([], block) + Steps([], after)
  {
    StepsAppend([], before + [block], after);
    StepsAppend([], before, [block]);
    assert [block][1..] == [];
  }

  /** In particular a file with one block, `bar` or not, among nodes without `bar` commands. */
  lemma OneBlockMeansFlat(exec: Exec, before: seq<Node>, block: Node, after: seq<Node>)
    requires AllWellFormed([], before + [block] + after) && block.Block? && OnlyBarsSee(exec)
    requires NoBarRuns(Steps([], before)) && NoBarRuns(Steps([], after))
    ensures var ns := before + [block] + after;
      SameOutcome(Read(exec, PrintAll(ns), START), Read(exec, FlatLines(Commands([], ns)), START))
  {
    OneBlockNotApart(before, block, after);
    BarsMeanFlatIff(before + [block] + after);
  }

  lemma OneBlockNotApart(before: seq<Node>, block: Node, after: seq<Node>)
    requires AllWellFormed([], before + [block] + after) && block.Block?
    requires NoBarRuns(Steps([], before)) && NoBarRuns(Steps([], after))
    ensures !BarsApart(Steps([], before + [block] + after))
  {
    var path := [] + block.header;
    assert before + [block] + after == before + ([block] + after);
    WellFormedParts([], before, [block] + after);
    BlockSteps(block, after);
    StepsOfThree(before, block, after);
    NotApart(Steps([], before), Borders(path), Steps(path, block.body), Borders(path) + [BlockEnd], Steps([], after));
  }

  lemma NotApart(head: seq<Step>, open: seq<Step>, body: seq<Step>, close: seq<Step>, tail: seq<Step>)
    requires NoBarRuns(head) && NoBarRuns(tail) && NoBarRuns(open) && NoBarRuns(close)
    requires forall s :: s in body ==> !s.BarBorder?
    ensures !BarsApart(head + (open + body + close) + tail)
  {
    var steps, from := head + (open + body + close) + tail, |head| + |open|;
    forall i | 0 <= i < |steps| && !(from <= i < from + |body|)
      ensures !IsBarRun(steps[i])
    {
    }
    forall j | from <= j < from + |body|
      ensures !steps[j].BarBorder?
    {
      assert steps[j] == body[j - from];
    }
  }
}
