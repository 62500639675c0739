/** Nested configuration files mean the same as flat ones: the block stack of `read_config`
    prefixes every command with the headers of its blocks, in file order. */
module NestedConfig {
  import opened Tokens
  import opened ConfigReader
  import opened ConfigItems

  /** A configuration tree. Every node carries its indentation; a block's opening brace stands on
      the line of its header or, behind some blank lines, on a line of its own. */
  datatype Node =
    | Leaf(indent: string, words: seq<string>)
    | Block(indent: string, header: seq<string>, sameLine: bool, blanks: nat, body: seq<Node>)
    | Comment(text: string)

  /** The lines of a tree, from top to bottom. */
  function ItemsOf(n: Node): seq<Item>
    decreases n, 1
  {
    match n
    case Comment(text) => [CommentLine(text)]
    case Leaf(indent, words) => [LeafLine(indent, words)]
    case Block(indent, header, sameLine, blanks, body) =>
      [OpenLine(indent, header, sameLine, blanks)] + Items(body) + [CloseLine(indent)]
  }

  function Items(ns: seq<Node>): seq<Item>
    decreases ns, 0
  {
    if ns == [] then [] else ItemsOf(ns[0]) + Items(ns[1..])
  }

  function PrintAll(ns: seq<Node>): seq<string> {
    PrintItems(Items(ns))
  }

  predicate WellFormed(path: seq<string>, n: Node)
    decreases n, 1
  {
    match n
    case Block(indent, header, sameLine, blanks, body) =>
      ItemOk(path, OpenLine(indent, header, sameLine, blanks)) && AllWellFormed(path + header, body)
    case _ => ItemOk(path, ItemsOf(n)[0])
  }

  predicate AllWellFormed(path: seq<string>, ns: seq<Node>)
    decreases ns, 0
  {
    ns == [] || (WellFormed(path, ns[0]) && AllWellFormed(path, ns[1..]))
  }

  // ---- what a tree means ----

  /** The leaves in file order, each with the words of all its headers in front. */
  function Commands(path: seq<string>, ns: seq<Node>): seq<seq<string>>
    decreases ns, 0
  {
    if ns == [] then [] else CommandsOf(path, ns[0]) + Commands(path, ns[1..])
  }

  function CommandsOf(path: seq<string>, n: Node): seq<seq<string>>
    decreases n, 1
  {
    match n
    case Comment(_) => []
    case Leaf(_, words) => [path + words]
    case Block(_, header, _, _, body) => Commands(path + header, body)
  }

  /** Commands, and what happens at the borders of blocks. */
  datatype Step = Run(argv: seq<string>) | BarBorder | BlockEnd

  function Borders(path: seq<string>): seq<Step> {
    if path != [] && Join(path) == "bar" then [BarBorder] else []
  }

  function StepsOf(path: seq<string>, n: Node): seq<Step>
    decreases n, 1
  {
    match n
    case Comment(_) => []
    case Leaf(_, words) => [Run(path + words)]
    case Block(_, header, _, _, body) =>
      Borders(path + header) + Steps(path + header, body) + (Borders(path + header) + [BlockEnd])
  }

  function Steps(path: seq<string>, ns: seq<Node>): seq<Step>
    decreases ns, 0
  {
    if ns == [] then [] else StepsOf(path, ns[0]) + Steps(path, ns[1..])
  }

  function DoStep(exec: Exec, r: Reader, s: Step): Reader {
    match s
    case Run(argv) => if argv == [] then r else RunCommand(exec, r, argv, Join(argv))
    case BarBorder => r.(trace := ResetBar(r.trace))
    case BlockEnd => r.(trace := ClearContext(r.trace))
  }

  function DoSteps(exec: Exec, r: Reader, steps: seq<Step>): Reader
    decreases |steps|
  {
    if steps == [] then r else DoSteps(exec, DoStep(exec, r, steps[0]), steps[1..])
  }

  lemma {:induction false} DoStepsAppend(exec: Exec, r: Reader, a: seq<Step>, b: seq<Step>)
    ensures DoSteps(exec, r, a + b) == DoSteps(exec, DoSteps(exec, r, a), b)
    decreases |a|
  {
    if a == [] {
      assert a + b == b;
    } else {
      assert (a + b)[1..] == a[1..] + b;
      DoStepsAppend(exec, DoStep(exec, r, a[0]), a[1..], b);
    }
  }

  /** Steps neither look at the block stack nor change it. */
  lemma {:induction false} DoStepsOnStack(exec: Exec, r: Reader, stack: seq<string>, steps: seq<Step>)
    ensures DoSteps(exec, r.(stack := stack), steps) == DoSteps(exec, r, steps).(stack := stack)
    ensures DoSteps(exec, r, steps).stack == r.stack
    decreases |steps|
  {
    if steps != [] {
      DoStepsOnStack(exec, DoStep(exec, r, steps[0]), stack, steps[1..]);
    }
  }

  lemma {:induction false} DoAllAppend(exec: Exec, r: Reader, paths: seq<seq<string>>, a: seq<Item>, b: seq<Item>)
    ensures DoAll(exec, r, paths, a + b) == DoAll(exec, DoAll(exec, r, paths, a), EnterAll(paths, a), b)
    ensures EnterAll(paths, a + b) == EnterAll(EnterAll(paths, a), b)
    decreases |a|
  {
    if a == [] {
      assert a + b == b;
    } else {
      assert (a + b)[1..] == a[1..] + b;
      DoAllAppend(exec, Do(exec, r, paths, a[0]), Enter(paths, a[0]), a[1..], b);
    }
  }

  lemma {:induction false} ItemsOkAppend(paths: seq<seq<string>>, a: seq<Item>, b: seq<Item>)
    requires ItemsOk(paths, a) && ItemsOk(EnterAll(paths, a), b)
    ensures ItemsOk(paths, a + b)
    decreases |a|
  {
    if a == [] {
      assert a + b == b;
    } else {
      assert (a + b)[1..] == a[1..] + b;
      ItemsOkAppend(Enter(paths, a[0]), a[1..], b);
    }
  }

  /** The items of a forest are well formed and leave the headers as they were. */
  lemma {:induction false} ForestItems(paths: seq<seq<string>>, ns: seq<Node>)
    requires AllWellFormed(Top(paths), ns)
    ensures ItemsOk(paths, Items(ns)) && EnterAll(paths, Items(ns)) == paths
    decreases ns, 0
  {
    if ns != [] {
      TreeItems(paths, ns[0]);
      ForestItems(paths, ns[1..]);
      ItemsOkAppend(paths, ItemsOf(ns[0]), Items(ns[1..]));
      EnterAllAppend(paths, ItemsOf(ns[0]), Items(ns[1..]));
    }
  }

  lemma EnterAllAppend(paths: seq<seq<string>>, a: seq<Item>, b: seq<Item>)
    ensures EnterAll(paths, a + b) == EnterAll(EnterAll(paths, a), b)
  {
    DoAllAppend((_, _) => Success, START, paths, a, b);
  }

  lemma {:induction false} TreeItems(paths: seq<seq<string>>, n: Node)
    requires WellFormed(Top(paths), n)
    ensures ItemsOk(paths, ItemsOf(n)) && EnterAll(paths, ItemsOf(n)) == paths
    decreases n, 1
  {
    if n.Block? {
      var open := OpenLine(n.indent, n.header, n.sameLine, n.blanks);
      var inner := Enter(paths, open);
      ForestItems(inner, n.body);
      var tail := Items(n.body) + [CloseLine(n.indent)];
      ItemsOkAppend(inner, Items(n.body), [CloseLine(n.indent)]);
      EnterAllAppend(inner, Items(n.body), [CloseLine(n.indent)]);
      assert ItemsOf(n) == [open] + tail && ([open] + tail)[1..] == tail;
      assert inner[1..] == paths && [CloseLine(n.indent)][1..] == [];
    } else {
      assert ItemsOf(n)[1..] == [];
    }
  }

  // ---- a nested file does its steps ----

  lemma {:induction false} ForestDoes(exec: Exec, r: Reader, paths: seq<seq<string>>, ns: seq<Node>)
    requires AllWellFormed(Top(paths), ns) && Framed(r.stack, paths)
    ensures DoAll(exec, r, paths, Items(ns)) == DoSteps(exec, r, Steps(Top(paths), ns))
    decreases ns, 0
  {
    if ns != [] {
      var first, rest := StepsOf(Top(paths), ns[0]), Steps(Top(paths), ns[1..]);
      TreeItems(paths, ns[0]);
      TreeDoes(exec, r, paths, ns[0]);
      DoAllAppend(exec, r, paths, ItemsOf(ns[0]), Items(ns[1..]));
      DoStepsAppend(exec, r, first, rest);
      DoStepsOnStack(exec, r, [], first);
      ForestDoes(exec, DoSteps(exec, r, first), paths, ns[1..]);
    }
  }

  lemma {:induction false} TreeDoes(exec: Exec, r: Reader, paths: seq<seq<string>>, n: Node)
    requires WellFormed(Top(paths), n) && Framed(r.stack, paths)
    ensures DoAll(exec, r, paths, ItemsOf(n)) == DoSteps(exec, r, StepsOf(Top(paths), n))
    decreases n, 1
  {
    if n.Block? {
      var path := Top(paths) + n.header;
      var begun := OpenBlock(r, Join(path));
      FrameKept(exec, paths, OpenLine(n.indent, n.header, n.sameLine, n.blanks), r);
      ForestDoes(exec, begun, [path] + paths, n.body);
      BlockItems(exec, r, paths, n);
      BlockDoes(exec, r, path, Steps(path, n.body));
    } else {
      assert ItemsOf(n)[1..] == [] && StepsOf(Top(paths), n)[if n.Leaf? then 1 else 0..] == [];
    }
  }

  lemma FirstItem(exec: Exec, r: Reader, paths: seq<seq<string>>, it: Item, rest: seq<Item>)
    ensures DoAll(exec, r, paths, [it] + rest) == DoAll(exec, Do(exec, r, paths, it), Enter(paths, it), rest)
  {
    assert ([it] + rest)[1..] == rest;
  }

  lemma OnlyItem(exec: Exec, r: Reader, paths: seq<seq<string>>, it: Item)
    ensures DoAll(exec, r, paths, [it]) == Do(exec, r, paths, it)
  {
    assert [it][1..] == [];
  }

  /** A block's items: its body between opening and closing it. */
  lemma BlockItems(exec: Exec, r: Reader, paths: seq<seq<string>>, n: Node)
    requires n.Block? && WellFormed(Top(paths), n)
    ensures var path := Top(paths) + n.header;
      DoAll(exec, r, paths, ItemsOf(n))
        == CloseBlock(DoAll(exec, OpenBlock(r, Join(path)), [path] + paths, Items(n.body)))
  {
    hide Items, DoAll;
    var open, close := OpenLine(n.indent, n.header, n.sameLine, n.blanks), CloseLine(n.indent);
    var path := Top(paths) + n.header;
    var begun := OpenBlock(r, Join(path));
    ForestItems([path] + paths, n.body);
    DoAllAppend(exec, begun, [path] + paths, Items(n.body), [close]);
    assert ItemsOf(n) == [open] + (Items(n.body) + [close]);
    FirstItem(exec, r, paths, open, Items(n.body) + [close]);
    OnlyItem(exec, DoAll(exec, begun, [path] + paths, Items(n.body)), [path] + paths, close);
  }

  /** A block around its steps: the borders, and a frame that comes and goes. */
  lemma BlockDoes(exec: Exec, r: Reader, path: seq<string>, body: seq<Step>)
    requires path != []
    ensures CloseBlock(DoSteps(exec, OpenBlock(r, Join(path)), body))
         == DoSteps(exec, r, Borders(path) + body + (Borders(path) + [BlockEnd]))
  {
    var begun := r.(trace := Border(Join(path), r.trace));
    BordersDo(exec, r, path);
    DoStepsAppend(exec, r, Borders(path) + body, Borders(path) + [BlockEnd]);
    DoStepsAppend(exec, r, Borders(path), body);
    DoStepsOnStack(exec, begun, [Join(path)] + r.stack, body);
    var done := DoSteps(exec, begun, body);
    assert ([Join(path)] + r.stack)[1..] == r.stack;
    BordersDo(exec, done, path);
    DoStepsAppend(exec, done, Borders(path), [BlockEnd]);
    assert [BlockEnd][1..] == [];
  }

  lemma BordersDo(exec: Exec, r: Reader, path: seq<string>)
    requires path != []
    ensures DoSteps(exec, r, Borders(path)) == r.(trace := Border(Join(path), r.trace))
  {
    assert [BarBorder][1..] == [];
  }

  /** A well-formed nested file does its steps in file order. */
  lemma NestedDoes(exec: Exec, ns: seq<Node>)
    requires AllWellFormed([], ns)
    ensures Read(exec, PrintAll(ns), START) == DoSteps(exec, START, Steps([], ns))
  {
    ForestItems([], ns);
    ItemsRead(exec, [], Items(ns), [], START);
    assert PrintAll(ns) + [] == PrintAll(ns);
    ForestDoes(exec, START, [], ns);
  }

  function RunsIn(steps: seq<Step>): seq<seq<string>> {
    if steps == [] then []
    else (if steps[0].Run? && steps[0].argv != [] then [steps[0].argv] else []) + RunsIn(steps[1..])
  }

  lemma {:induction false} RunsAppend(a: seq<Step>, b: seq<Step>)
    ensures RunsIn(a + b) == RunsIn(a) + RunsIn(b)
  {
    if a == [] {
      assert a + b == b;
    } else {
      assert (a + b)[1..] == a[1..] + b;
      RunsAppend(a[1..], b);
    }
  }

  lemma {:induction false} LogIsRuns(exec: Exec, r: Reader, steps: seq<Step>)
    ensures DoSteps(exec, r, steps).trace.log == r.trace.log + RunsIn(steps)
    decreases |steps|
  {
    if steps != [] {
      LogIsRuns(exec, DoStep(exec, r, steps[0]), steps[1..]);
    }
  }

  lemma {:induction false} StepsRun(path: seq<string>, ns: seq<Node>)
    requires AllWellFormed(path, ns)
    ensures RunsIn(Steps(path, ns)) == Commands(path, ns)
    decreases ns
  {
    if ns != [] {
      StepsRun(path, ns[1..]);
      RunsAppend(StepsOf(path, ns[0]), Steps(path, ns[1..]));
      match ns[0]
      case Comment(_) =>
      case Leaf(_, words) =>
        assert [Run(path + words)][1..] == [];
      case Block(_, header, _, _, body) =>
        StepsRun(path + header, body);
        BordersRunNothing(Borders(path + header), Steps(path + header, body));
    }
  }

  lemma BordersRunNothing(borders: seq<Step>, body: seq<Step>)
    requires borders in [[], [BarBorder]]
    ensures RunsIn(borders + body + (borders + [BlockEnd])) == RunsIn(body)
  {
    RunsAppend(borders + body, borders + [BlockEnd]);
    RunsAppend(borders, body);
    RunsAppend(borders, [BlockEnd]);
    OneStep(BlockEnd);
    OneStep(BarBorder);
  }

  lemma OneStep(s: Step)
    requires !s.Run?
    ensures RunsIn([s]) == []
  {
    assert [s][1..] == [];
  }

  /** Block compilation: the commands that are run are the leaves in file order, each behind all its
      headers, whatever the handlers answer. */
  lemma NestedMeansCommands(exec: Exec, ns: seq<Node>)
    requires AllWellFormed([], ns)
    ensures Read(exec, PrintAll(ns), START).trace.log == Commands([], ns)
  {
    NestedDoes(exec, ns);
    LogIsRuns(exec, START, Steps([], ns));
    StepsRun([], ns);
  }

  // ---- the flat form ----

  /** The flat form of a file: one line per command. */
  function FlatLines(commands: seq<seq<string>>): seq<string> {
    if commands == [] then []
    else if commands[0] == [] then FlatLines(commands[1..])
    else [Join(commands[0])] + FlatLines(commands[1..])
  }

  /** Flat lines that can be read back. */
  predicate FlatOk(commands: seq<seq<string>>) {
    forall i :: 0 <= i < |commands| ==> ItemOk([], LeafLine("", commands[i]))
  }

  function AsLeaves(commands: seq<seq<string>>): seq<Node> {
    if commands == [] then [] else [Leaf("", commands[0])] + AsLeaves(commands[1..])
  }

  function Runs(commands: seq<seq<string>>): seq<Step> {
    if commands == [] then [] else [Run(commands[0])] + Runs(commands[1..])
  }

  /** The leaves are printed as the flat lines of the commands, and mean just running them. */
  predicate Denotes(leaves: seq<Node>, commands: seq<seq<string>>) {
    PrintAll(leaves) == FlatLines(commands) && AllWellFormed([], leaves) && Steps([], leaves) == Runs(commands)
  }

  lemma {:induction false} FlatIsLeaves(commands: seq<seq<string>>)
    requires FlatOk(commands)
    ensures Denotes(AsLeaves(commands), commands)
  {
    if commands != [] {
      assert forall i :: 0 <= i < |commands[1..]| ==> commands[1..][i] == commands[i + 1];
      FlatIsLeaves(commands[1..]);
      FlatCons(commands[0], commands, AsLeaves(commands[1..]));
    }
  }

  lemma FlatCons(c: seq<string>, commands: seq<seq<string>>, leaves: seq<Node>)
    requires commands != [] && commands[0] == c && Denotes(leaves, commands[1..]) && ItemOk([], LeafLine("", c))
    ensures Denotes([Leaf("", c)] + leaves, commands)
  {
    var all := [Leaf("", c)] + leaves;
    assert all[1..] == leaves && [] + c == c && "" + Join(c) == Join(c);
    assert Items(all) == [LeafLine("", c)] + Items(leaves) && Items(all)[1..] == Items(leaves);
    assert StepsOf([], Leaf("", c)) == [Run(c)];
  }

  lemma PathThenWords(path: seq<string>, words: seq<string>)
    requires IsLine(words) && (forall w :: w in path ==> IsToken(w))
    requires (path != [] ==> path[0] != "" && path[0][0] != '#')
    ensures IsLine(path + words) && (path + words)[|path + words| - 1] == words[|words| - 1]
  {
    forall i | 0 <= i < |path + words| - 1
      ensures IsToken((path + words)[i])
    {
      if i < |path| { assert (path + words)[i] in path; } else { assert (path + words)[i] == words[i - |path|]; }
    }
  }

  lemma {:induction false} CommandsFlatOk(path: seq<string>, ns: seq<Node>)
    requires AllWellFormed(path, ns) && forall w :: w in path ==> IsToken(w)
    requires path != [] ==> path[0] != "" && path[0][0] != '#'
    ensures FlatOk(Commands(path, ns))
    decreases ns
  {
    if ns != [] {
      CommandsFlatOk(path, ns[1..]);
      match ns[0]
      case Comment(_) =>
      case Leaf(_, words) => PathThenWords(path, words);
      case Block(_, header, _, _, body) =>
        assert (path + header)[0] == if path == [] then header[0] else path[0];
        CommandsFlatOk(path + header, body);
    }
  }

  lemma FlatDoes(exec: Exec, commands: seq<seq<string>>)
    requires FlatOk(commands)
    ensures Read(exec, FlatLines(commands), START) == DoSteps(exec, START, Runs(commands))
  {
    FlatIsLeaves(commands);
    NestedDoes(exec, AsLeaves(commands));
  }

  // ---- when both do the same ----

  /** Same commands, same order, same deferred lines, same verdict. */
  predicate SameOutcome(a: Reader, b: Reader) {
    a.trace.log == b.trace.log && a.deferred == b.deferred && a.ok == b.ok
  }

  /** Handlers look at nothing but the commands before and the unsettings of the current bar, and,
      where `context` says so, the clearings of the handler context. */
  ghost predicate Sees(exec: Exec, context: bool) {
    forall t: Trace, u: Trace, argv: seq<string> {:trigger exec(t, argv), exec(u, argv)} ::
      t.log == u.log && t.barResets == u.barResets && (context ==> t.contextClears == u.contextClears) ==>
        exec(t, argv) == exec(u, argv)
  }

  predicate IsBorder(s: Step, context: bool) {
    s.BarBorder? || (context && s.BlockEnd?)
  }

  predicate NoRuns(steps: seq<Step>) {
    steps == [] || (!steps[0].Run? && NoRuns(steps[1..]))
  }

  /** No border that handlers can see lies between two commands; `seen` tells whether there were
      commands before. */
  predicate Undisturbed(seen: bool, steps: seq<Step>, context: bool)
    decreases |steps|
  {
    if steps == [] then true
    else if steps[0].Run? then Undisturbed(true, steps[1..], context)
    else (IsBorder(steps[0], context) && seen ==> NoRuns(steps[1..])) && Undisturbed(seen, steps[1..], context)
  }

  predicate Marked(t: Trace, context: bool) {
    t.barResets != {} || (context && t.contextClears != {})
  }

  lemma {:induction false} SameWhileUndisturbed(exec: Exec, a: Reader, b: Reader, steps: seq<Step>, context: bool)
    requires Sees(exec, context) && SameOutcome(a, b) && b.trace.barResets == b.trace.contextClears == {}
    requires forall i :: 0 <= i < |steps| && steps[i].Run? ==> steps[i].argv != []
    requires Undisturbed(a.trace.log != [], steps, context) && (Marked(a.trace, context) ==> NoRuns(steps))
    ensures SameOutcome(DoSteps(exec, a, steps), DoSteps(exec, b, Runs(RunsIn(steps))))
    decreases |steps|
  {
    if steps != [] {
      var rest := steps[1..];
      var s := DoStep(exec, a, steps[0]);
      if steps[0].Run? {
        var argv := steps[0].argv;
        assert exec(a.trace, argv) == exec(b.trace, argv);
        assert Runs(RunsIn(steps)) == [Run(argv)] + Runs(RunsIn(rest)) by {
          assert ([argv] + RunsIn(rest))[1..] == RunsIn(rest);
        }
        assert Runs(RunsIn(steps))[1..] == Runs(RunsIn(rest));
        SameWhileUndisturbed(exec, s, DoStep(exec, b, steps[0]), rest, context);
      } else {
        assert RunsIn(steps) == RunsIn(rest);
        SameWhileUndisturbed(exec, s, b, rest, context);
      }
    }
  }

  /** Handlers that fail as soon as a border that they can see lies behind them. */
  function Touchy(context: bool): Exec {
    (t: Trace, argv: seq<string>) => if Marked(t, context) then Failure else Success
  }

  ghost predicate NoEmptyRuns(steps: seq<Step>) {
    forall i :: 0 <= i < |steps| && steps[i].Run? ==> steps[i].argv != []
  }

  lemma {:induction false} FailedStays(exec: Exec, r: Reader, steps: seq<Step>)
    requires !r.ok
    ensures !DoSteps(exec, r, steps).ok
    decreases |steps|
  {
    if steps != [] {
      FailedStays(exec, DoStep(exec, r, steps[0]), steps[1..]);
    }
  }

  lemma {:induction false} MarkedFails(r: Reader, steps: seq<Step>, context: bool)
    requires Marked(r.trace, context) && !NoRuns(steps) && NoEmptyRuns(steps)
    ensures !DoSteps(Touchy(context), r, steps).ok
    decreases |steps|
  {
    var s := DoStep(Touchy(context), r, steps[0]);
    if steps[0].Run? {
      FailedStays(Touchy(context), s, steps[1..]);
    } else {
      MarkedFails(s, steps[1..], context);
    }
  }

  lemma {:induction false} DisturbedFails(r: Reader, steps: seq<Step>, context: bool)
    requires !Undisturbed(r.trace.log != [], steps, context) && NoEmptyRuns(steps)
    ensures !DoSteps(Touchy(context), r, steps).ok
    decreases |steps|
  {
    var s := DoStep(Touchy(context), r, steps[0]);
    if !steps[0].Run? && IsBorder(steps[0], context) && r.trace.log != [] && !NoRuns(steps[1..]) {
      assert |r.trace.log| in s.trace.barResets + s.trace.contextClears;
      MarkedFails(s, steps[1..], context);
    } else {
      DisturbedFails(s, steps[1..], context);
    }
  }

  lemma {:induction false} FlatSucceeds(r: Reader, commands: seq<seq<string>>, context: bool)
    requires r.ok && r.trace.barResets == r.trace.contextClears == {}
    ensures DoSteps(Touchy(context), r, Runs(commands)).ok
    decreases |commands|
  {
    if commands != [] {
      assert Runs(commands)[1..] == Runs(commands[1..]);
      FlatSucceeds(DoStep(Touchy(context), r, Run(commands[0])), commands[1..], context);
    }
  }

  lemma {:induction false} NothingEmpty(path: seq<string>, ns: seq<Node>)
    requires AllWellFormed(path, ns)
    ensures NoEmptyRuns(Steps(path, ns))
    decreases ns
  {
    if ns != [] {
      NothingEmpty(path, ns[1..]);
      match ns[0]
      case Comment(_) =>
      case Leaf(_, words) =>
      case Block(_, header, _, _, body) => NothingEmpty(path + header, body);
    }
  }

  /** The nested file does what its flat form does, for all handlers, exactly if no border that they
      can see lies between two commands: no beginning or end of a `bar` block and, for handlers that
      look at the context others left behind, no end of any block. */
  lemma NestedMeansFlatIff(ns: seq<Node>, context: bool)
    requires AllWellFormed([], ns)
    ensures (forall exec: Exec :: Sees(exec, context) ==>
        SameOutcome(Read(exec, PrintAll(ns), START), Read(exec, FlatLines(Commands([], ns)), START)))
      <==> Undisturbed(false, Steps([], ns), context)
  {
    var steps, commands := Steps([], ns), Commands([], ns);
    StepsRun([], ns);
    NothingEmpty([], ns);
    CommandsFlatOk([], ns);
    if Undisturbed(false, steps, context) {
      forall exec: Exec | Sees(exec, context)
        ensures SameOutcome(Read(exec, PrintAll(ns), START), Read(exec, FlatLines(commands), START))
      {
        NestedDoes(exec, ns);
        FlatDoes(exec, commands);
        SameWhileUndisturbed(exec, START, START, steps, context);
      }
    } else {
      var exec := Touchy(context);
      NestedDoes(exec, ns);
      FlatDoes(exec, commands);
      DisturbedFails(START, steps, context);
      FlatSucceeds(START, commands, context);
      assert Sees(exec, context);
    }
  }

  /** The condition, as a property of positions. */
  lemma {:induction false} UndisturbedIff(seen: bool, steps: seq<Step>, context: bool)
    ensures Undisturbed(seen, steps, context) <==> !exists j, k :: Disturbs(seen, steps, context, j, k)
    decreases |steps|
  {
    if steps != [] {
      var s, rest := steps[0], steps[1..];
      var began := seen || s.Run?;
      UndisturbedIff(began, rest, context);
      NoRunsIff(rest);
      if j, k :| Disturbs(began, rest, context, j, k) {
        DisturbsShift(seen, steps, context, j + 1, k + 1);
      }
      if !s.Run? && IsBorder(s, context) && seen && !NoRuns(rest) {
        var k :| 0 <= k < |rest| && rest[k].Run?;
        assert Disturbs(seen, steps, context, 0, k + 1);
      }
      if j, k :| Disturbs(seen, steps, context, j, k) {
        assert rest[k - 1].Run?;
        if j > 0 {
          DisturbsShift(seen, steps, context, j, k);
        }
      }
    }
  }

  lemma DisturbsShift(seen: bool, steps: seq<Step>, context: bool, j: int, k: int)
    requires steps != [] && j > 0
    ensures Disturbs(seen, steps, context, j, k) <==> Disturbs(seen || steps[0].Run?, steps[1..], context, j - 1, k - 1)
  {
    var rest := steps[1..];
    if j < k < |steps| && !seen && !steps[0].Run? {
      if i :| 0 <= i < j && steps[i].Run? {
        assert rest[i - 1].Run?;
      }
      if i :| 0 <= i < j - 1 && rest[i].Run? {
        assert steps[i + 1].Run?;
      }
    }
  }

  /** A border at `j` with a command behind it and one in front of it. */
  ghost predicate Disturbs(seen: bool, steps: seq<Step>, context: bool, j: int, k: int) {
    && 0 <= j < k < |steps| && IsBorder(steps[j], context) && steps[k].Run?
    && (seen || exists i :: 0 <= i < j && steps[i].Run?)
  }

  lemma {:induction false} NoRunsIff(steps: seq<Step>)
    ensures NoRuns(steps) <==> forall i :: 0 <= i < |steps| ==> !steps[i].Run?
  {
    if steps != [] {
      NoRunsIff(steps[1..]);
      assert forall i :: 0 < i < |steps| ==> steps[i] == steps[1..][i - 1];
    }
  }

  /** No block's headers add up to the word `bar`. */
  predicate NoBars(path: seq<string>, ns: seq<Node>)
    decreases ns
  {
    ns == [] || (NoBars(path, ns[1..]) && (ns[0].Block? ==>
      Borders(path + ns[0].header) == [] && NoBars(path + ns[0].header, ns[0].body)))
  }

  lemma {:induction false} NoBarsNoBorders(path: seq<string>, ns: seq<Node>)
    requires NoBars(path, ns)
    ensures BarBorder !in Steps(path, ns)
    decreases ns
  {
    if ns != [] {
      NoBarsNoBorders(path, ns[1..]);
      if ns[0].Block? {
        NoBarsNoBorders(path + ns[0].header, ns[0].body);
      }
    }
  }

  /** In particular a file without `bar` blocks means the same as its flat form to handlers that do not
      look at the context others left behind. */
  lemma NestedMeansFlat(exec: Exec, ns: seq<Node>)
    requires AllWellFormed([], ns) && NoBars([], ns) && Sees(exec, false)
    ensures SameOutcome(Read(exec, PrintAll(ns), START), Read(exec, FlatLines(Commands([], ns)), START))
  {
    NoBarsNoBorders([], ns);
    UndisturbedIff(false, Steps([], ns), false);
    NestedMeansFlatIff(ns, false);
  }

  // ---- braces that do not match ----

  lemma NoBraceAtClose(indent: string, rest: seq<string>)
    requires IsBlank(indent)
    ensures DetectBrace([indent + "}"] + rest) == 0
  {
    TrimIndented(indent, "}");
  }

  lemma {:induction false} StaysFailed(exec: Exec, lines: seq<string>, r: Reader)
    requires !r.ok
    ensures !Read(exec, lines, r).ok
    decreases |lines|
  {
    if lines != [] {
      NextLineShrinks(lines);
      ReadStep(exec, lines, r);
      StaysFailed(exec, TakeLine(lines).2, AfterLine(exec, lines, r));
    }
  }

  /** A closing brace behind a well-nested part makes the load fail, whatever follows. */
  lemma UnmatchedBraceFails(exec: Exec, ns: seq<Node>, indent: string, rest: seq<string>)
    requires AllWellFormed([], ns) && IsBlank(indent)
    ensures !Read(exec, PrintAll(ns) + ([indent + "}"] + rest), START).ok
  {
    ForestItems([], ns);
    NoBraceAtClose(indent, rest);
    ItemsRead(exec, [], Items(ns), [indent + "}"] + rest, START);
    ForestDoes(exec, START, [], ns);
    var r := DoSteps(exec, START, Steps([], ns));
    DoStepsOnStack(exec, START, [], Steps([], ns));
    CloseReads(exec, [], indent, rest, r);
    StaysFailed(exec, rest, r.(ok := false));
  }

  /** A file that is nothing but an opening line loads, with the block still on the stack. */
  lemma UnclosedBlockUnnoticed(exec: Exec, open: Item)
    requires open.OpenLine? && ItemOk([], open)
    ensures Read(exec, PrintItem(open), START) == START.(stack := [Join(open.header)])
  {
    OpenReads(exec, [], open, [], START);
    assert PrintItem(open) + [] == PrintItem(open) && [] + open.header == open.header;
  }
}
