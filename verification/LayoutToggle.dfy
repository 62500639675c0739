/** `layout toggle`: the cyclic search for the next layout. */
module LayoutToggle {
  import opened Layouts

  function LowerChar(c: char): char {
    if 'A' <= c <= 'Z' then c - 'A' + 'a' else c
  }

  function Lower(s: string): string {
    if s == "" then "" else [LowerChar(s[0])] + Lower(s[1..])
  }

  function ParseLayout(s: string): Layout {
    if Lower(s) == "splith" then Horiz
    else if Lower(s) == "splitv" then Vert
    else if Lower(s) == "scrollable" || Lower(s) == "scrollh" then ScrollH
    else if Lower(s) == "tabbed" then Tabbed
    else if Lower(s) == "stacking" then Stacked
    else NoLayout
  }

  /** What the command knows besides its arguments. */
  datatype Context = Context(layout: Layout, prevSplit: Layout, defaultOrientation: Layout, outputWidth: int,
      outputHeight: int)

  function ToggleSplit(c: Context): (l: Layout)
    ensures l != NoLayout
  {
    if c.layout == Horiz then Vert
    else if c.layout == Vert then Horiz
    else if c.prevSplit != NoLayout then c.prevSplit
    else if c.defaultOrientation != NoLayout then c.defaultOrientation
    else if c.outputHeight > c.outputWidth then Vert
    else Horiz
  }

  /** The layout an entry of the list stands for, or none; `split` is case sensitive here. */
  function Value(entry: string, c: Context): Layout {
    if ParseLayout(entry) != NoLayout then ParseLayout(entry)
    else if entry == "split" then ToggleSplit(c)
    else NoLayout
  }

  predicate IsCurrent(entry: string, c: Context) {
    ParseLayout(entry) == c.layout || (entry == "split" && c.layout in {Vert, Horiz})
  }

  /** The index of the current layout in the list, or the length. */
  function CurrentIndex(args: seq<string>, c: Context, k: nat): (curr: nat)
    requires k <= |args|
    ensures k <= curr <= |args| && (curr < |args| ==> IsCurrent(args[curr], c))
    ensures forall j :: k <= j < curr ==> !IsCurrent(args[j], c)
    decreases |args| - k
  {
    if k == |args| || IsCurrent(args[k], c) then k else CurrentIndex(args, c, k + 1)
  }

  function Curr(args: seq<string>, c: Context): (curr: nat)
    requires |args| >= 1
  {
    CurrentIndex(args, c, 1)
  }

  /** How far after the current one an entry comes; the position of the subcommand itself counts. */
  function Distance(args: seq<string>, curr: nat, i: nat): int {
    if i > curr then i - curr else i - curr + |args|
  }

  /** The search passes the current entry by, unless that is the first of the list. */
  predicate Visited(args: seq<string>, curr: nat, i: nat) {
    1 <= i < |args| && (i != curr || curr == 1)
  }

  predicate Candidate(args: seq<string>, c: Context, curr: nat, i: nat) {
    Visited(args, curr, i) && Value(args[i], c) != NoLayout
  }

  /** The first candidate in cyclic order after the current entry. */
  ghost predicate First(args: seq<string>, c: Context, curr: nat, i: nat) {
    && Candidate(args, c, curr, i)
    && forall j :: Candidate(args, c, curr, j) ==> Distance(args, curr, i) <= Distance(args, curr, j)
  }

  ghost predicate NoneValid(args: seq<string>, c: Context) {
    forall i :: 1 <= i < |args| ==> Value(args[i], c) == NoLayout
  }

  /** The first loop of `get_layout_toggle`. */
  method FindCurrent(args: seq<string>, c: Context) returns (curr: nat)
    requires |args| >= 1
    ensures curr == Curr(args, c)
  {
    curr := 1;
    while curr < |args|
      invariant 1 <= curr <= |args| && CurrentIndex(args, c, curr) == Curr(args, c)
    {
      if IsCurrent(args[curr], c) {
        return;
      }
      curr := curr + 1;
    }
  }

  lemma CurrentAtFirst(args: seq<string>, c: Context)
    requires |args| >= 2 && (c.layout != NoLayout || !NoneValid(args, c))
    ensures Curr(args, c) == 1 ==> exists i :: Candidate(args, c, 1, i)
  {
    if Curr(args, c) == 1 {
      if c.layout != NoLayout {
        assert Candidate(args, c, 1, 1);
      } else {
        var i :| 1 <= i < |args| && Value(args[i], c) != NoLayout;
        assert Candidate(args, c, 1, i);
      }
    }
  }

  /** The search for two or more names. The loop resets its index, and it ends exactly if there is a
      current layout or some entry is valid; see `NeverEnds`. */
  method Search(args: seq<string>, c: Context) returns (layout: Layout)
    requires |args| >= 3 && (c.layout != NoLayout || !NoneValid(args, c))
    ensures layout != NoLayout ==> exists i: nat :: First(args, c, Curr(args, c), i) && layout == Value(args[i], c)
    ensures layout == NoLayout ==> forall i :: !Candidate(args, c, Curr(args, c), i)
  {
    var curr := FindCurrent(args, c);
    CurrentAtFirst(args, c);
    var i := curr + 1;
    ghost var passed, wrapped := 0, false;
    while i != curr
      invariant if wrapped then 2 <= i <= curr && passed == i - 1 - curr + |args|
                else curr < i <= |args| + 1 && passed == i - curr - 1
      invariant forall j :: Candidate(args, c, curr, j) ==> Distance(args, curr, j) > passed
      decreases 2 * |args| - passed
    {
      if i >= |args| {
        i, wrapped := 1, true;
      }
      passed := Distance(args, curr, i);
      var parsed := ParseLayout(args[i]);
      if parsed != NoLayout {
        assert First(args, c, curr, i);
        return parsed;
      }
      if args[i] == "split" {
        assert First(args, c, curr, i);
        return ToggleSplit(c);
      }
      i := i + 1;
    }
    return NoLayout;
  }

  /** The index after `k` rounds of the second loop that end neither the search nor the loop. */
  function IndexAfter(args: seq<string>, curr: nat, k: nat): nat {
    if k == 0 then curr + 1 else AtEntry(args, IndexAfter(args, curr, k - 1)) + 1
  }

  /** The entry a round looks at. */
  function AtEntry(args: seq<string>, i: nat): nat {
    if i >= |args| then 1 else i
  }

  /** Why the search needs a current layout or a valid entry: without either, the first entry counts
      as the current one, and the loop steps past its index in every round. */
  lemma {:induction false} NeverEnds(args: seq<string>, c: Context, k: nat)
    requires |args| >= 3 && c.layout == NoLayout && NoneValid(args, c)
    ensures Curr(args, c) == 1 && IndexAfter(args, 1, k) != 1
    ensures Value(args[AtEntry(args, IndexAfter(args, 1, k))], c) == NoLayout
  {
    assert Value(args[1], c) == NoLayout;
    if k > 0 {
      NeverEnds(args, c, k - 1);
    }
  }

  /** A list of different layouts is walked through in a circle. */
  lemma NextInCircle(args: seq<string>, c: Context, i: nat)
    requires |args| >= 3 && forall j :: 1 <= j < |args| ==> ParseLayout(args[j]) != NoLayout
    requires Curr(args, c) < |args| && First(args, c, Curr(args, c), i)
    ensures i == if Curr(args, c) == |args| - 1 then 1 else Curr(args, c) + 1
  {
    var curr := Curr(args, c);
    var next := if curr == |args| - 1 then 1 else curr + 1;
    assert Candidate(args, c, curr, next);
  }

  /** `get_layout_toggle`. */
  method GetLayoutToggle(args: seq<string>, c: Context) returns (layout: Layout)
    requires |args| >= 1 && (|args| >= 3 ==> c.layout != NoLayout || !NoneValid(args, c))
    ensures |args| == 1 || (|args| == 2 && Lower(args[1]) == "split") ==> layout == ToggleSplit(c)
    ensures |args| == 2 && Lower(args[1]) == "all" ==> layout == NextOfAll(c.layout)
    ensures |args| == 2 && Lower(args[1]) !in ["split", "all"] ==> layout == NoLayout
    ensures |args| >= 3 && layout != NoLayout ==>
      exists i: nat :: First(args, c, Curr(args, c), i) && layout == Value(args[i], c)
    ensures |args| >= 3 && layout == NoLayout ==> forall i :: !Candidate(args, c, Curr(args, c), i)
  {
    if |args| == 1 {
      return ToggleSplit(c);
    }
    if |args| == 2 {
      if Lower(args[1]) == "split" {
        return ToggleSplit(c);
      }
      if Lower(args[1]) == "all" {
        return NextOfAll(c.layout);
      }
      return NoLayout;
    }
    layout := Search(args, c);
  }

  function NextOfAll(layout: Layout): Layout {
    match layout
    case Horiz => Vert
    case Vert => ScrollH
    case ScrollH => Stacked
    case Stacked => Tabbed
    case _ => Horiz
  }

  // ---- the tables

  /** The order in which `layout toggle all` goes through the layouts. */
  const ALL := [Horiz, Vert, ScrollH, Stacked, Tabbed]

  /** Toggling through all of them comes back to each layout after all the others; from no layout it starts with
      the first. */
  lemma AllInTurn(i: nat)
    requires i < |ALL|
    ensures NextOfAll(ALL[i]) == ALL[(i + 1) % |ALL|] && NextOfAll(NoLayout) == ALL[0]
    ensures forall l: Layout :: l != NoLayout ==> l in ALL
  {
  }

  /** The names of a layout. */
  function NamesOf(l: Layout): set<string> {
    match l
    case Horiz => {"splith"}
    case Vert => {"splitv"}
    case ScrollH => {"scrollable", "scrollh"}
    case Tabbed => {"tabbed"}
    case Stacked => {"stacking"}
    case NoLayout => {}
  }

  /** A text stands for a layout exactly if it is one of its names, in upper or lower case. */
  lemma ParseLayoutIff(s: string, l: Layout)
    requires l != NoLayout
    ensures ParseLayout(s) == l <==> Lower(s) in NamesOf(l)
  {
  }

  /** The 26 letters from `a` or `A` on. */
  function Letters(first: char): string
    requires first == 'a' || first == 'A'
  {
    seq(26, i requires 0 <= i < 26 => first + i as char)
  }

  /** Lower case is made character by character, of letters only. */
  lemma {:induction false} LowerIs(s: string)
    ensures |Lower(s)| == |s|
    ensures forall i, k :: 0 <= i < |s| && 0 <= k < 26 && s[i] == Letters('A')[k] ==> Lower(s)[i] == Letters('a')[k]
    ensures forall i :: 0 <= i < |s| && s[i] !in Letters('A') ==> Lower(s)[i] == s[i]
  {
    if s != "" {
      LowerIs(s[1..]);
      if 'A' <= s[0] <= 'Z' { assert Letters('A')[s[0] as int - 'A' as int] == s[0]; }
    }
  }

  /** Between the two split layouts toggling goes back and forth; from others it goes to the split used before, or to
      the default one, or along the longer side of the output. */
  lemma ToggleSplitIs(c: Context)
    ensures c.layout in {Horiz, Vert} ==>
      ToggleSplit(c) in {Horiz, Vert} - {c.layout} && ToggleSplit(c.(layout := ToggleSplit(c))) == c.layout
    ensures c.layout !in {Horiz, Vert} && c.prevSplit != NoLayout ==> ToggleSplit(c) == c.prevSplit
    ensures c.layout !in {Horiz, Vert} && c.prevSplit == NoLayout && c.defaultOrientation != NoLayout ==>
      ToggleSplit(c) == c.defaultOrientation
    ensures c.layout !in {Horiz, Vert} && c.prevSplit == c.defaultOrientation == NoLayout ==>
      ToggleSplit(c) == if c.outputHeight > c.outputWidth then Vert else Horiz
  {
  }
}
