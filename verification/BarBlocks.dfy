/** Two `bar` blocks in one file: where a nested file fails and its flat form does not. */
module BarBlocks {
  import opened Tokens
  import opened ConfigReader
  import opened ConfigItems
  import opened NestedConfig
  import W = WorkspaceCommand

  /** How `bar id` answers: it fails if an earlier bar has that id, that is, if it was given before the
      current bar was last unset. */
  function BarId(t: Trace, argv: seq<string>): Status {
    if exists i, p :: 0 <= i < |t.log| && p in t.barResets && i < p && t.log[i] == argv then Failure else Success
  }

  const ID := ["bar", "id", "a"]
  const BAR := Block("", ["bar"], true, 0, [Leaf("", ["id", "a"])])
  const ONE_BAR := [BarBorder, Run(ID), BarBorder, BlockEnd]

  lemma BarWords()
    ensures IsToken("bar") && IsToken("id") && IsToken("a")
  {
    assert forall i :: 0 <= i < 3 ==> Feed(CLEAR, "bar"[i]) == CLEAR && !IsSpace("bar"[i]);
    W.PlainToken("bar");
    assert forall i :: 0 <= i < 2 ==> Feed(CLEAR, "id"[i]) == CLEAR && !IsSpace("id"[i]);
    W.PlainToken("id");
    assert Feed(CLEAR, "a"[0]) == CLEAR && !IsSpace("a"[0]);
    W.PlainToken("a");
  }

  lemma BarWellFormed()
    ensures WellFormed([], BAR)
  {
    BarWords();
    var leaf := [Leaf("", ["id", "a"])];
    assert IsNormal(["bar"]) && IsNormal(["id", "a"]);
    assert leaf[1..] == [] && [] + ["bar"] == ["bar"];
    assert "bar" != "<commands>" by { assert |"bar"| == 3; }
    assert "a"[0] == 'a' && "bar"[2] == 'r';
    assert WellFormed(["bar"], leaf[0]);
    assert ItemOk([], OpenLine("", ["bar"], true, 0));
    assert AllWellFormed([] + ["bar"], leaf);
  }

  lemma BarMeans()
    ensures StepsOf([], BAR) == ONE_BAR && CommandsOf([], BAR) == [ID]
  {
    var leaf, path := [Leaf("", ["id", "a"])], [] + ["bar"];
    assert leaf[1..] == [] && path == ["bar"] && path + ["id", "a"] == ID;
    assert Steps(path, leaf) == [Run(ID)] && Commands(path, leaf) == [ID];
    assert Borders(path) == [BarBorder];
  }

  lemma BarPrinted()
    ensures PrintItems(ItemsOf(BAR)) == ["bar {", "id a", "}"]
  {
    var leaf := [Leaf("", ["id", "a"])];
    assert leaf[1..] == [] && Items(leaf) == [LeafLine("", ["id", "a"])];
    var items := ItemsOf(BAR);
    assert items == [OpenLine("", ["bar"], true, 0), LeafLine("", ["id", "a"]), CloseLine("")];
    assert items[1..][1..][1..] == [] && ["id", "a"][1..] == ["a"];
    assert Join(["bar"]) == "bar" && "" + ("bar" + " {") == "bar {";
    assert Join(["id", "a"]) == "id" + " " + "a" && "" + ("id" + " " + "a") == "id a" && "" + "}" == "}";
    assert PrintItem(items[0]) == ["bar {"] && PrintItem(items[1]) == ["id a"] && PrintItem(items[2]) == ["}"];
    assert PrintItems(items[1..][1..]) == ["}"];
    assert PrintItems(items[1..]) == ["id a", "}"];
  }

  /** The second time the bar is a new one, and its id is taken. */
  lemma SecondBarFails()
    ensures !DoSteps(BarId, START, ONE_BAR + ONE_BAR).ok
  {
    DoStepsAppend(BarId, START, ONE_BAR, ONE_BAR);
    LogIsRuns(BarId, START, ONE_BAR);
    var r := DoSteps(BarId, START, ONE_BAR);
    var s := DoStep(BarId, r, BarBorder);
    OneBarRuns();
    assert s.trace.log[0] == ID && 1 in s.trace.barResets;
    var t := DoStep(BarId, s, Run(ID));
    assert !t.ok;
    FailedStays(BarId, t, ONE_BAR[2..]);
    assert ONE_BAR[1..][1..] == ONE_BAR[2..];
  }

  lemma OneBarRuns()
    ensures RunsIn(ONE_BAR) == [ID]
  {
    assert ONE_BAR[1..] == [Run(ID), BarBorder, BlockEnd];
    assert ONE_BAR[1..][1..] == [BarBorder, BlockEnd];
    assert ONE_BAR[1..][1..][1..][1..] == [];
    assert RunsIn(ONE_BAR[1..][1..][1..]) == [];
    assert RunsIn(ONE_BAR[1..]) == [ID];
  }

  lemma {:induction false} FlatBarSucceeds(r: Reader, commands: seq<seq<string>>)
    requires r.ok && r.trace.barResets == {}
    ensures DoSteps(BarId, r, Runs(commands)).ok
    decreases |commands|
  {
    if commands != [] {
      assert Runs(commands)[1..] == Runs(commands[1..]);
      FlatBarSucceeds(DoStep(BarId, r, Run(commands[0])), commands[1..]);
    }
  }

  /** A file in which two `bar` blocks have the same id fails to load, while its flat form loads. */
  lemma TwoBars(ns: seq<Node>)
    requires ns == [BAR, BAR]
    ensures PrintAll(ns) == ["bar {", "id a", "}", "bar {", "id a", "}"]
    ensures FlatLines(Commands([], ns)) == ["bar id a", "bar id a"]
    ensures !Read(BarId, PrintAll(ns), START).ok && Read(BarId, FlatLines(Commands([], ns)), START).ok
  {
    BarWellFormed();
    TwoBarsMean(ns);
    NestedDoes(BarId, ns);
    SecondBarFails();
    CommandsFlatOk([], ns);
    FlatDoes(BarId, Commands([], ns));
    FlatBarSucceeds(START, Commands([], ns));
    TwoBarsPrinted(ns);
    IdPrinted(Commands([], ns));
  }

  lemma TwoBarsMean(ns: seq<Node>)
    requires ns == [BAR, BAR]
    ensures Steps([], ns) == ONE_BAR + ONE_BAR && Commands([], ns) == [ID, ID]
    ensures WellFormed([], BAR) ==> AllWellFormed([], ns)
  {
    BarMeans();
    assert ns[1..] == [BAR] && ns[1..][1..] == [];
    assert Steps([], ns[1..]) == ONE_BAR && Commands([], ns[1..]) == [ID];
  }

  lemma TwoBarsPrinted(ns: seq<Node>)
    requires ns == [BAR, BAR]
    ensures PrintAll(ns) == ["bar {", "id a", "}", "bar {", "id a", "}"]
  {
    assert ns[1..] == [BAR] && ns[1..][1..] == [];
    assert Items(ns) == ItemsOf(BAR) + ItemsOf(BAR);
    PrintItemsAppend(ItemsOf(BAR), ItemsOf(BAR));
    BarPrinted();
  }

  lemma {:induction false} PrintItemsAppend(a: seq<Item>, b: seq<Item>)
    ensures PrintItems(a + b) == PrintItems(a) + PrintItems(b)
  {
    if a == [] {
      assert a + b == b;
    } else {
      assert (a + b)[1..] == a[1..] + b;
      PrintItemsAppend(a[1..], b);
    }
  }

  lemma IdPrinted(two: seq<seq<string>>)
    requires two == [ID, ID]
    ensures FlatLines(two) == ["bar id a", "bar id a"]
  {
    assert ID[1..] == ["id", "a"] && ID[1..][1..] == ["a"];
    assert Join(ID) == "bar id a";
    assert two[1..] == [ID] && two[1..][1..] == [];
    assert FlatLines(two[1..]) == ["bar id a"];
  }
}
