/** Tiled resize on the container tree: finding the container to resize, and writing the new
    fractions of its siblings. */
module Resize {
  import opened Layouts
  import opened TiledResize

  const MIN_SANE_W := 100
  const MIN_SANE_H := 60

  function Minimum(axis: Axis): real {
    if IsHorizontal(axis) then MIN_SANE_W as real else MIN_SANE_H as real
  }

  class Container {
    var parent: Container?
    var workspace: Workspace?
    var children: seq<Container>
    var layout: Layout
    var width: real
    var height: real
    var widthFraction: real
    var heightFraction: real
    var childTotalWidth: real
    var childTotalHeight: real
    // the distance from the root of the tree
    ghost var depth: nat

    function Size(axis: Axis): real
      reads this`width, this`height
    {
      if IsHorizontal(axis) then width else height
    }

    function ChildTotal(axis: Axis): real
      reads this`childTotalWidth, this`childTotalHeight
    {
      if IsHorizontal(axis) then childTotalWidth else childTotalHeight
    }

    function Fraction(axis: Axis): real
      reads this`widthFraction, this`heightFraction
    {
      if IsHorizontal(axis) then widthFraction else heightFraction
    }

    /** The fraction across the axis. */
    function Across(axis: Axis): real
      reads this`widthFraction, this`heightFraction
    {
      if IsHorizontal(axis) then heightFraction else widthFraction
    }

    /** Writing the fraction along one axis. */
    method SetFraction(axis: Axis, fraction: real)
      modifies this`widthFraction, this`heightFraction
      ensures widthFraction == if IsHorizontal(axis) then fraction else old(widthFraction)
      ensures heightFraction == if IsHorizontal(axis) then old(heightFraction) else fraction
    {
      if IsHorizontal(axis) {
        widthFraction := fraction;
      } else {
        heightFraction := fraction;
      }
    }
  }

  class Workspace {
    var tiling: seq<Container>
    var floating: seq<Container>
    var layout: Layout
    var width: int
    // all containers of the workspace
    ghost var nodes: set<Container>

    constructor (layout: Layout, width: int)
      ensures Valid() && nodes == {} && tiling == [] && this.layout == layout && this.width == width
    {
      tiling, floating, nodes := [], [], {};
      this.layout, this.width := layout, width;
    }

    /** `workspace_add_tiling` without a default layout, for a container that is on no workspace and has
        no children. */
    method AddTiling(c: Container)
      requires Valid() && c !in nodes && c.workspace == null && c.children == []
      modifies this`tiling, this`nodes, c`workspace, c`parent
      ensures Valid() && tiling == old(tiling) + [c] && nodes == old(nodes) + {c}
    {
      tiling := tiling + [c];
      c.workspace, c.parent := this, null;
      nodes := nodes + {c};
    }

    /** The containers form trees: each is once on the list of its parent, or of the workspace. */
    ghost predicate Valid()
      reads this, nodes`workspace, nodes`parent, nodes`children, nodes`depth, nodes`layout
    {
      && (forall c :: c in nodes ==> c.workspace == this && InPlace(c))
      && Unique(tiling) && Unique(floating)
      && (forall c :: c in tiling ==> c in nodes && c.parent == null && c !in floating)
      && (forall c :: c in floating ==> c in nodes && c.parent == null)
    }

    ghost predicate InPlace(c: Container)
      reads this, nodes`workspace, nodes`parent, nodes`children, nodes`depth, nodes`layout
      requires c in nodes
    {
      && Unique(c.children) && (forall x :: x in c.children ==> x in nodes && x.parent == c)
      && (c.parent == null ==> c in tiling || c in floating)
      && (c.parent != null ==> c.parent in nodes && c in c.parent.children && c.parent.depth < c.depth)
    }

    /** A container and its ancestors. */
    ghost function Line(c: Container): (line: set<Container>)
      requires Valid() && c in nodes
      reads this, nodes`workspace, nodes`parent, nodes`children, nodes`depth, nodes`layout
      ensures forall x :: x in line ==> x in nodes && x.depth <= c.depth
      decreases c.depth
    {
      {c} + if c.parent == null then {} else Line(c.parent)
    }

    /** The container can be resized along the axis among its siblings. */
    ghost predicate CanResize(c: Container, axis: Axis)
      requires Valid() && c in nodes
      reads this, nodes`workspace, nodes`parent, nodes`children, nodes`depth, nodes`layout
    {
      && ParentLayout(c) == ParallelLayout(axis)
      && exists i :: 0 <= i < |Siblings(c)| && Siblings(c)[i] == c && Fits(axis, i, |Siblings(c)|)
    }

    /** The search of `container_find_resize_parent`, from the inside out. */
    ghost function ResizeParent(c: Container, axis: Axis): Container?
      requires Valid() && c in nodes
      reads this, nodes`workspace, nodes`parent, nodes`children, nodes`depth, nodes`layout
      decreases c.depth
    {
      if Scrolls(axis) && c.parent == null then c
      else if !Scrolls(axis) && CanResize(c, axis) then c
      else if c.parent == null then null
      else ResizeParent(c.parent, axis)
    }

    /** A horizontal resize on a scrolling workspace changes the width of a whole column. */
    predicate Scrolls(axis: Axis)
      reads this`layout
    {
      IsHorizontal(axis) && layout == ScrollH
    }

    /** Of a container and its ancestors, `r` is the innermost that can be resized along the axis. */
    ghost predicate Nearest(con: Container, axis: Axis, r: Container)
      requires Valid() && con in nodes
      reads this, nodes`workspace, nodes`parent, nodes`children, nodes`depth, nodes`layout
    {
      && r in Line(con) && CanResize(r, axis)
      && forall c :: c in Line(con) && CanResize(c, axis) ==> c.depth <= r.depth
    }
  }

  function ParallelLayout(axis: Axis): Layout {
    if IsHorizontal(axis) then Horiz else Vert
  }

  ghost function ParentOf(c: Container): set<Container>
    reads c`parent
  {
    if c.parent == null then {} else {c.parent}
  }

  /** `container_get_siblings`, for a container on a workspace. */
  function Siblings(c: Container): seq<Container>
    requires c.workspace != null
    reads c`parent, c`workspace, ParentOf(c)`children, ParentOf(c)`layout, c.workspace
  {
    if c.parent != null then c.parent.children
    else if c in c.workspace.tiling then c.workspace.tiling
    else c.workspace.floating
  }

  /** `container_parent_layout`, for a container on a workspace. */
  function ParentLayout(c: Container): Layout
    requires c.workspace != null
    reads c`parent, c`workspace, ParentOf(c)`children, ParentOf(c)`layout, c.workspace
  {
    if c.parent != null then c.parent.layout else c.workspace.layout
  }

  /** `list_find`. */
  method IndexOf(c: Container, s: seq<Container>) returns (i: nat)
    requires c in s
    ensures i < |s| && s[i] == c && c !in s[..i]
  {
    i := 0;
    while s[i] != c
      invariant i < |s| && c !in s[..i]
      decreases |s| - i
    {
      assert s == s[..i + 1] + s[i + 1..] && c in s[i + 1..];
      i := i + 1;
    }
  }

  lemma ListedOnce(ws: Workspace, c: Container)
    requires ws.Valid() && c in ws.nodes
    ensures c in Siblings(c) && Unique(Siblings(c))
  {
    assert ws.InPlace(c);
    if c.parent != null {
      assert ws.InPlace(c.parent);
    }
  }

  /** The test in the loop of `container_find_resize_parent`. */
  method TestResizable(ws: Workspace, c: Container, axis: Axis) returns (ok: bool)
    requires ws.Valid() && c in ws.nodes
    ensures ok == ws.CanResize(c, axis)
  {
    ListedOnce(ws, c);
    var siblings := Siblings(c);
    var index := IndexOf(c, siblings);
    return ParentLayout(c) == ParallelLayout(axis) && Fits(axis, index, |siblings|);
  }

  /** What the search finds: the innermost container that can be resized along the axis, or the
      outermost container where the workspace scrolls, or nothing because there is none. */
  lemma {:induction false} ResizeParentIs(ws: Workspace, con: Container, axis: Axis)
    requires ws.Valid() && con in ws.nodes
    ensures var r := ws.ResizeParent(con, axis);
      r == null <==> !ws.Scrolls(axis) && forall c :: c in ws.Line(con) ==> !ws.CanResize(c, axis)
    ensures var r := ws.ResizeParent(con, axis);
      r != null && ws.Scrolls(axis) ==> r in ws.Line(con) && r.parent == null
    ensures var r := ws.ResizeParent(con, axis);
      r != null && !ws.Scrolls(axis) ==> ws.Nearest(con, axis, r)
    decreases con.depth
  {
    assert ws.InPlace(con);
    if con.parent != null && (ws.Scrolls(axis) || !ws.CanResize(con, axis)) {
      ResizeParentIs(ws, con.parent, axis);
    }
  }

  /** `container_find_resize_parent`. */
  method FindResizeParent(ws: Workspace, con: Container, axis: Axis) returns (r: Container?)
    requires ws.Valid() && con in ws.nodes
    ensures r == ws.ResizeParent(con, axis)
  {
    r := con;
    if IsHorizontal(axis) && ws.layout == ScrollH {
      while r.parent != null
        invariant r in ws.nodes && ws.ResizeParent(r, axis) == ws.ResizeParent(con, axis)
        decreases r.depth
      {
        assert ws.InPlace(r);
        r := r.parent;
      }
      return;
    }
    while r != null
      invariant r != null ==> r in ws.nodes
      invariant ws.ResizeParent(con, axis) == if r == null then null else ws.ResizeParent(r, axis)
      decreases if r == null then 0 else r.depth + 1
    {
      var ok := TestResizable(ws, r, axis);
      if ok {
        return;
      }
      assert ws.InPlace(r);
      r := r.parent;
    }
  }

  ghost predicate Unique(s: seq<Container>) {
    forall i, j :: 0 <= i < j < |s| ==> s[i] != s[j]
  }

  ghost predicate SizesAre(siblings: seq<Container>, axis: Axis, sizes: seq<real>)
    reads siblings`width, siblings`height
  {
    |sizes| == |siblings| && forall i :: 0 <= i < |siblings| ==> sizes[i] == siblings[i].Size(axis)
  }

  /** Arranging the parent gives all its children the same total. */
  ghost predicate SameTotal(siblings: seq<Container>, axis: Axis, total: real)
    reads siblings`childTotalWidth, siblings`childTotalHeight
  {
    forall i :: 0 <= i < |siblings| ==> siblings[i].ChildTotal(axis) == total
  }

  /** The fractions of the siblings stand for these sizes. */
  ghost predicate StandFor(siblings: seq<Container>, axis: Axis, total: real, sizes: seq<real>)
    requires |sizes| == |siblings|
    reads siblings`widthFraction, siblings`heightFraction
  {
    total > 0.0 && forall i :: 0 <= i < |siblings| ==> siblings[i].Fraction(axis) == sizes[i] / total
  }

  /** The fractions across the axis, which a resize has no business with. */
  ghost predicate OthersAre(siblings: seq<Container>, axis: Axis, others: seq<real>)
    reads siblings`widthFraction, siblings`heightFraction
  {
    |others| == |siblings| && forall i :: 0 <= i < |siblings| ==> others[i] == siblings[i].Across(axis)
  }

  /** Snap the fractions of all siblings to the pixels they occupy. */
  method Snap(siblings: seq<Container>, axis: Axis, ghost total: real, ghost sizes: seq<real>, ghost others: seq<real>)
    requires OthersAre(siblings, axis, others) && SizesAre(siblings, axis, sizes)
    requires Unique(siblings) && SameTotal(siblings, axis, total) && total > 0.0
    modifies siblings`widthFraction, siblings`heightFraction
    ensures StandFor(siblings, axis, total, sizes)
    ensures OthersAre(siblings, axis, others)
  {
    for i := 0 to |siblings|
      invariant forall j :: 0 <= j < i ==> siblings[j].Fraction(axis) == sizes[j] / total
      invariant OthersAre(siblings, axis, others)
    {
      siblings[i].SetFraction(axis, siblings[i].Size(axis) / siblings[i].ChildTotal(axis));
    }
  }

  lemma AddFractions(a: real, d: real, total: real)
    requires total > 0.0
    ensures a / total + d / total == (a + d) / total && a / total - d / total == (a - d) / total
    ensures d / total / 2.0 == d / 2.0 / total
  {
  }

  /** Add to the fraction of one sibling. */
  method Shift(c: Container, ghost siblings: seq<Container>, ghost k: nat, axis: Axis, fraction: real,
      ghost total: real, ghost sizes: seq<real>, ghost d: real, ghost others: seq<real>)
    requires OthersAre(siblings, axis, others) && Unique(siblings) && k < |siblings| == |sizes|
    requires c == siblings[k] && StandFor(siblings, axis, total, sizes) && fraction == d / total
    modifies c`widthFraction, c`heightFraction
    ensures StandFor(siblings, axis, total, Change(sizes, k, d)) && OthersAre(siblings, axis, others)
  {
    AddFractions(sizes[k], d, total);
    assert forall j :: 0 <= j < |siblings| && j != k ==> siblings[j] != siblings[k];
    c.SetFraction(axis, c.Fraction(axis) + fraction);
  }

  /** Give to one sibling and take from its neighbours. */
  method Apply(siblings: seq<Container>, m: Move, axis: Axis, ghost total: real, ghost sizes: seq<real>,
      ghost others: seq<real>)
    requires OthersAre(siblings, axis, others) && Unique(siblings)
    requires SameTotal(siblings, axis, total) && InRange(m, |siblings|)
    requires |sizes| == |siblings| && StandFor(siblings, axis, total, sizes)
    modifies siblings`widthFraction, siblings`heightFraction
    ensures StandFor(siblings, axis, total, Resized(sizes, m))
    ensures OthersAre(siblings, axis, others)
  {
    var con, next := siblings[m.con], siblings[m.next];
    var fraction := m.amount as real / con.ChildTotal(axis);
    var siblingFraction := if m.prev.Some? then fraction / 2.0 else fraction;
    AddFractions(0.0, m.amount as real, total);
    NegateFraction(SiblingAmount(m), total);
    Shift(con, siblings, m.con, axis, fraction, total, sizes, m.amount as real, others);
    ghost var one := Change(sizes, m.con, m.amount as real);
    ghost var two := Change(one, m.next, -SiblingAmount(m));
    assert Resized(sizes, m) == if m.prev.Some? then Change(two, m.prev.value, -SiblingAmount(m)) else two;
    Shift(next, siblings, m.next, axis, -siblingFraction, total, one, -SiblingAmount(m), others);
    if m.prev.Some? {
      var prev := siblings[m.prev.value];
      Shift(prev, siblings, m.prev.value, axis, -siblingFraction, total, two, -SiblingAmount(m), others);
    }
  }

  /** The checks before a resize. */
  method MayResize(siblings: seq<Container>, m: Move, axis: Axis, ghost total: real, ghost sizes: seq<real>)
    returns (ok: bool)
    requires SameTotal(siblings, axis, total) && InRange(m, |siblings|) && SizesAre(siblings, axis, sizes)
    ensures ok <==> total > 0.0 && Allowed(sizes, m, Minimum(axis))
  {
    var con, next := siblings[m.con], siblings[m.next];
    var siblingAmount := if m.prev.Some? then HalfUp(m.amount) else m.amount;
    if con.Size(axis) + m.amount as real < Minimum(axis) || next.Size(axis) - siblingAmount as real < Minimum(axis) {
      return false;
    }
    if m.prev.Some? && siblings[m.prev.value].Size(axis) - siblingAmount as real < Minimum(axis) {
      return false;
    }
    return con.ChildTotal(axis) > 0.0;
  }

  /** The fractions stand for what the sizes are once the container at `index` has grown by the amount and its
      neighbours have paid for it. */
  ghost predicate Grown(siblings: seq<Container>, index: nat, axis: Axis, amount: int, total: real, sizes: seq<real>)
    requires index < |siblings| == |sizes|
    reads siblings`widthFraction, siblings`heightFraction
  {
    && total > 0.0
    && forall j :: 0 <= j < |siblings| ==>
         siblings[j].Fraction(axis) == (sizes[j] + Gain(axis, index, |siblings|, amount, j)) / total
  }

  /** What a tiled resize that is not on a scrolling workspace did to the siblings of `r`. */
  ghost predicate Outcome(siblings: seq<Container>, r: Container, index: nat, axis: Axis, amount: int,
      sizes: seq<real>, resized: bool)
    requires index < |siblings| == |sizes|
    reads siblings
  {
    && siblings[index] == r && Fits(axis, index, |siblings|) && SizesAre(siblings, axis, sizes)
    && (resized <==> r.ChildTotal(axis) > 0.0 && Allowed(sizes, MoveOf(axis, index, |siblings|, amount), Minimum(axis)))
    && (resized ==> Grown(siblings, index, axis, amount, r.ChildTotal(axis), sizes))
  }

  /** The checks and the writing of new fractions in `container_resize_tiled`, for the container at
      `index` among its siblings. */
  method ResizeSiblings(siblings: seq<Container>, index: nat, axis: Axis, amount: int, ghost total: real,
      ghost sizes: seq<real>, ghost others: seq<real>)
    returns (resized: bool)
    requires SizesAre(siblings, axis, sizes) && OthersAre(siblings, axis, others) && Unique(siblings)
    requires index < |siblings| && SameTotal(siblings, axis, total) && Fits(axis, index, |siblings|)
    modifies siblings`widthFraction, siblings`heightFraction
    ensures var m := MoveOf(axis, index, |siblings|, amount);
      resized <==> total > 0.0 && Allowed(sizes, m, Minimum(axis))
    ensures var m := MoveOf(axis, index, |siblings|, amount);
      resized ==> StandFor(siblings, axis, total, Resized(sizes, m))
    ensures !resized ==> unchanged(siblings)
    ensures OthersAre(siblings, axis, others)
  {
    var m := MoveOf(axis, index, |siblings|, amount);
    resized := MayResize(siblings, m, axis, total, sizes);
    if resized {
      Snap(siblings, axis, total, sizes, others);
      Apply(siblings, m, axis, total, sizes, others);
    }
  }

  lemma NegateFraction(d: real, total: real)
    requires total > 0.0
    ensures -(d / total) == (-d) / total
  {
  }

  /** Conversion to `int`, which truncates toward zero. */
  function Truncate(x: real): int {
    if x >= 0.0 then x.Floor else -(-x).Floor
  }

  /** The new width of a column, in pixels. */
  function ColumnWidth(width: real, amount: int, whole: int): (w: int)
    ensures whole <= MIN_SANE_W ==> w == whole
    ensures whole >= MIN_SANE_W ==>
      var wanted := width + amount as real;
      if wanted < MIN_SANE_W as real then w == MIN_SANE_W
      else if wanted >= whole as real then w == whole
      else w as real <= wanted < w as real + 1.0
  {
    var wanted := Truncate(width + amount as real);
    var atLeast := if wanted < MIN_SANE_W then MIN_SANE_W else wanted;
    if atLeast > whole then whole else atLeast
  }

  /** The fraction of a column stands for its new width. */
  ghost predicate ColumnSet(column: Container, amount: int, whole: int)
    reads column`widthFraction, column`width
  {
    column.widthFraction * whole as real == ColumnWidth(column.width, amount, whole) as real
  }

  /** The branch of `container_resize_tiled` for a scrolling workspace. */
  method ResizeColumn(ws: Workspace, column: Container, amount: int) returns (resized: bool)
    modifies column`widthFraction
    ensures resized <==> ws.width > 0
    ensures resized ==> ColumnSet(column, amount, ws.width)
    ensures !resized ==> unchanged(column)
  {
    if ws.width <= 0 {
      return false;
    }
    column.widthFraction := ColumnWidth(column.width, amount, ws.width) as real / ws.width as real;
    return true;
  }

  /** The container that is found and its siblings share their total, as they do once their parent was
      arranged along the axis. */
  ghost predicate Arranged(ws: Workspace, con: Container, axis: Axis)
    requires ws.Valid() && con in ws.nodes
    reads ws, ws.nodes
  {
    var r := ws.ResizeParent(con, axis);
    r != null && !ws.Scrolls(axis) ==> r in ws.nodes && SharedTotal(r, axis)
  }

  ghost predicate SharedTotal(r: Container, axis: Axis)
    requires r.workspace != null
    reads r, r.workspace, ParentOf(r), Siblings(r)
  {
    SameTotal(Siblings(r), axis, r.ChildTotal(axis))
  }

  lemma SiblingsInTree(ws: Workspace, c: Container)
    requires ws.Valid() && c in ws.nodes
    ensures forall x :: x in Siblings(c) ==> x in ws.nodes && Siblings(x) == Siblings(c)
  {
    assert ws.InPlace(c);
    if c.parent != null {
      assert ws.InPlace(c.parent);
    }
  }

  ghost function SizesOf(siblings: seq<Container>, axis: Axis): (sizes: seq<real>)
    reads siblings`width, siblings`height
    ensures SizesAre(siblings, axis, sizes)
  {
    if siblings == [] then [] else [siblings[0].Size(axis)] + SizesOf(siblings[1..], axis)
  }

  ghost function OthersOf(siblings: seq<Container>, axis: Axis): (others: seq<real>)
    reads siblings`widthFraction, siblings`heightFraction
    ensures OthersAre(siblings, axis, others)
  {
    if siblings == [] then []
    else [siblings[0].Across(axis)] + OthersOf(siblings[1..], axis)
  }

  method ResizeAt(siblings: seq<Container>, i: nat, axis: Axis, amount: int, ghost sizes: seq<real>,
      ghost others: seq<real>)
    returns (resized: bool)
    requires Unique(siblings) && i < |siblings| && SizesAre(siblings, axis, sizes) && OthersAre(siblings, axis, others)
    requires SameTotal(siblings, axis, siblings[i].ChildTotal(axis)) && Fits(axis, i, |siblings|)
    modifies siblings`widthFraction, siblings`heightFraction
    ensures Outcome(siblings, siblings[i], i, axis, amount, sizes, resized)
    ensures !resized ==> unchanged(siblings)
    ensures OthersAre(siblings, axis, others)
  {
    ghost var total := siblings[i].ChildTotal(axis);
    resized := ResizeSiblings(siblings, i, axis, amount, total, sizes, others);
    OutcomeIs(siblings, i, axis, amount, total, sizes, resized);
  }

  lemma OutcomeIs(siblings: seq<Container>, i: nat, axis: Axis, amount: int, total: real, sizes: seq<real>,
      resized: bool)
    requires i < |siblings| && Fits(axis, i, |siblings|)
    requires SizesAre(siblings, axis, sizes) && siblings[i].ChildTotal(axis) == total
    requires resized <==> total > 0.0 && Allowed(sizes, MoveOf(axis, i, |siblings|, amount), Minimum(axis))
    requires resized ==> StandFor(siblings, axis, total, Resized(sizes, MoveOf(axis, i, |siblings|, amount)))
    ensures Outcome(siblings, siblings[i], i, axis, amount, sizes, resized)
  {
    hide Gain, MoveOf, Resized, Allowed;
    GainOf(sizes, axis, i, amount);
  }

  /** `container_sibling_index`, for a container that can be resized. */
  method Place(ws: Workspace, r: Container, axis: Axis) returns (i: nat)
    requires ws.Valid() && r in ws.nodes && ws.CanResize(r, axis) && SharedTotal(r, axis)
    ensures i < |Siblings(r)| && Siblings(r)[i] == r && Fits(axis, i, |Siblings(r)|) && Unique(Siblings(r))
    ensures SameTotal(Siblings(r), axis, r.ChildTotal(axis))
  {
    ListedOnce(ws, r);
    i := IndexOf(r, Siblings(r));
  }

  /** `container_resize_tiled` on one container's siblings. */
  method ResizeAmongSiblings(ws: Workspace, r: Container, siblings: seq<Container>, axis: Axis, amount: int)
    returns (resized: bool, ghost index: nat, ghost sizes: seq<real>)
    requires ws.Valid() && r in ws.nodes && ws.CanResize(r, axis) && SharedTotal(r, axis) && siblings == Siblings(r)
    modifies siblings`widthFraction, siblings`heightFraction
    ensures index < |siblings| == |sizes| && Outcome(siblings, r, index, axis, amount, sizes, resized)
    ensures !resized ==> unchanged(siblings)
    ensures forall x :: x in siblings ==> x.Across(axis) == old(x.Across(axis))
  {
    var i := Place(ws, r, axis);
    ghost var others := OthersOf(siblings, axis);
    index, sizes := i, SizesOf(siblings, axis);
    resized := ResizeAt(siblings, i, axis, amount, sizes, others);
  }

  /** What a resize did to the container that was found for it, or to its siblings. */
  ghost predicate Done(ws: Workspace, r: Container, axis: Axis, amount: int, resized: bool, index: nat,
      sizes: seq<real>)
    requires r.workspace == ws
    reads ws, r, r.parent, Siblings(r)
  {
    if ws.Scrolls(axis) then
      (resized <==> ws.width > 0) && (resized ==> ColumnSet(r, amount, ws.width))
    else
      && index < |Siblings(r)| == |sizes| && Outcome(Siblings(r), r, index, axis, amount, sizes, resized)
  }

  /** The containers a resize may write to: the siblings of the container that was found, or, on a
      scrolling workspace, just that column. */
  ghost function Touched(ws: Workspace, r: Container, axis: Axis): set<Container>
    requires r.workspace == ws
    reads ws, r`parent, r`workspace, ParentOf(r)`children, ParentOf(r)`layout
  {
    if ws.Scrolls(axis) then {r} else set x | x in Siblings(r)
  }

  /** The part of `container_resize_tiled` after the search. */
  method ResizeFound(ws: Workspace, r: Container, axis: Axis, amount: int, ghost touched: set<Container>)
    returns (resized: bool, ghost index: nat, ghost sizes: seq<real>)
    requires ws.Valid() && r in ws.nodes && touched == Touched(ws, r, axis)
    requires if ws.Scrolls(axis) then r.parent == null else ws.CanResize(r, axis) && SharedTotal(r, axis)
    modifies touched`widthFraction, touched`heightFraction
    ensures Done(ws, r, axis, amount, resized, index, sizes)
    ensures !resized ==> unchanged(touched)
    ensures forall x :: x in touched ==> x.Across(axis) == old(x.Across(axis))
  {
    if IsHorizontal(axis) && r.parent == null && ws.layout == ScrollH {
      resized := ResizeColumn(ws, r, amount);
      index, sizes := 0, [];
    } else {
      resized, index, sizes := ResizeAmongSiblings(ws, r, Siblings(r), axis, amount);
    }
  }

  lemma TouchedInTree(ws: Workspace, r: Container, axis: Axis)
    requires ws.Valid() && r in ws.nodes
    ensures Touched(ws, r, axis) <= ws.nodes
  {
    SiblingsInTree(ws, r);
  }

  /** The frame of a resize: only the containers touched change, only along the axis, and nothing does if
      the resize is refused. */
  twostate predicate Framed(ws: Workspace, axis: Axis, resized: bool, new touched: set<Container>)
    reads ws, ws.nodes
  {
    && (forall x :: x in ws.nodes ==> old(allocated(x)) && x.Across(axis) == old(x.Across(axis)))
    && forall x :: x in ws.nodes && (x !in touched || !resized) ==> x.Fraction(axis) == old(x.Fraction(axis))
  }

  /** What a resize did, and the containers that are its business. */
  ghost predicate DoneTo(ws: Workspace, r: Container, axis: Axis, amount: int, resized: bool, index: nat,
      sizes: seq<real>, touched: set<Container>)
    reads ws, r, r.parent, r.workspace, if r.workspace == ws then Siblings(r) else []
  {
    r.workspace == ws && touched == Touched(ws, r, axis) && Done(ws, r, axis, amount, resized, index, sizes)
  }

  method ResizeFramed(ws: Workspace, r: Container, axis: Axis, amount: int)
    returns (resized: bool, ghost index: nat, ghost sizes: seq<real>, ghost touched: set<Container>)
    requires ws.Valid() && r in ws.nodes
    requires if ws.Scrolls(axis) then r.parent == null else ws.CanResize(r, axis) && SharedTotal(r, axis)
    modifies ws.nodes`widthFraction, ws.nodes`heightFraction
    ensures DoneTo(ws, r, axis, amount, resized, index, sizes, touched) && Framed(ws, axis, resized, touched)
  {
    TouchedInTree(ws, r, axis);
    touched := Touched(ws, r, axis);
    resized, index, sizes := ResizeFound(ws, r, axis, amount, touched);
  }

  lemma FoundCanResize(ws: Workspace, con: Container, axis: Axis)
    requires ws.Valid() && con in ws.nodes && Arranged(ws, con, axis)
    ensures var r := ws.ResizeParent(con, axis);
      && (r != null ==> r in ws.nodes && (ws.Scrolls(axis) ==> r.parent == null))
      && (r != null && !ws.Scrolls(axis) ==> ws.CanResize(r, axis) && SharedTotal(r, axis))
  {
    ResizeParentIs(ws, con, axis);
  }

  /** `container_resize_tiled`. */
  method ResizeTiled(ws: Workspace, con: Container, axis: Axis, amount: int)
    returns (r: Container?, resized: bool, ghost index: nat, ghost sizes: seq<real>, ghost touched: set<Container>)
    requires ws.Valid() && con in ws.nodes && Arranged(ws, con, axis)
    modifies ws.nodes`widthFraction, ws.nodes`heightFraction
    ensures r == old(ws.ResizeParent(con, axis))
    ensures if r == null then !resized && touched == {} else DoneTo(ws, r, axis, amount, resized, index, sizes, touched)
    ensures Framed(ws, axis, resized, touched)
  {
    r := FindResizeParent(ws, con, axis);
    FoundCanResize(ws, con, axis);
    resized, index, sizes, touched := false, 0, [], {};
    if r != null {
      resized, index, sizes, touched := ResizeFramed(ws, r, axis, amount);
    }
  }

  // ---- what that means in widths and heights ----

  const SIDEWAYS := {Left, Right, Horizontal}

  /** The container found stands among others in a row or a column, next to one that can pay; only on a scrolling
      workspace a column is resized, in its width. */
  lemma FoundMeans(ws: Workspace, con: Container, axis: Axis)
    requires ws.Valid() && con in ws.nodes
    ensures ws.Scrolls(axis) <==> axis in SIDEWAYS && ws.layout == ScrollH
    ensures var r := ws.ResizeParent(con, axis);
      r != null && !ws.Scrolls(axis) ==>
        && r in ws.nodes && ParentLayout(r) == (if axis in SIDEWAYS then Horiz else Vert)
        && exists i, j :: 0 <= i < |Siblings(r)| && Siblings(r)[i] == r && Pays(axis, i, |Siblings(r)|, j)
  {
    ResizeParentIs(ws, con, axis);
    var r := ws.ResizeParent(con, axis);
    if r != null && !ws.Scrolls(axis) {
      var i :| 0 <= i < |Siblings(r)| && Siblings(r)[i] == r && Fits(axis, i, |Siblings(r)|);
      FitsIff(axis, i, |Siblings(r)|);
    }
  }

  /** No resize changes a fraction across its direction. */
  twostate lemma FramedMeans(ws: Workspace, axis: Axis, resized: bool, new touched: set<Container>)
    requires Framed(ws, axis, resized, touched)
    ensures axis in SIDEWAYS ==> forall x :: x in ws.nodes ==> x.heightFraction == old(x.heightFraction)
    ensures axis !in SIDEWAYS ==> forall x :: x in ws.nodes ==> x.widthFraction == old(x.widthFraction)
  {
  }

  /** Sideways a resize changes widths and leaves what changes at least 100 pixels wide; it is not refused if that
      leaves half a pixel more. */
  lemma SidewaysOutcome(siblings: seq<Container>, r: Container, index: nat, axis: Axis, amount: int, sizes: seq<real>,
      resized: bool)
    requires index < |siblings| == |sizes| && axis in SIDEWAYS
    requires Outcome(siblings, r, index, axis, amount, sizes, resized)
    ensures forall j :: 0 <= j < |siblings| ==> sizes[j] == siblings[j].width
    ensures resized ==> BigEnough(sizes, axis, index, amount, 100.0)
    ensures !resized && r.childTotalWidth > 0.0 ==> !BigEnough(sizes, axis, index, amount, 100.5)
    ensures resized ==> forall j :: 0 <= j < |siblings| ==>
      siblings[j].widthFraction == (siblings[j].width + Gain(axis, index, |siblings|, amount, j)) / r.childTotalWidth
  {
    hide Gain, BigEnough, MoveOf, Allowed;
    AllowedMeans(sizes, axis, index, amount, 100.0);
  }

  /** Up and down it changes heights and leaves at least 60 pixels. */
  lemma UpDownOutcome(siblings: seq<Container>, r: Container, index: nat, axis: Axis, amount: int, sizes: seq<real>,
      resized: bool)
    requires index < |siblings| == |sizes| && axis !in SIDEWAYS
    requires Outcome(siblings, r, index, axis, amount, sizes, resized)
    ensures forall j :: 0 <= j < |siblings| ==> sizes[j] == siblings[j].height
    ensures resized ==> BigEnough(sizes, axis, index, amount, 60.0)
    ensures !resized && r.childTotalHeight > 0.0 ==> !BigEnough(sizes, axis, index, amount, 60.5)
    ensures resized ==> forall j :: 0 <= j < |siblings| ==>
      siblings[j].heightFraction == (siblings[j].height + Gain(axis, index, |siblings|, amount, j)) / r.childTotalHeight
  {
    hide Gain, BigEnough, MoveOf, Allowed;
    AllowedMeans(sizes, axis, index, amount, 60.0);
  }
}
