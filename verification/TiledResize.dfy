/** The arithmetic of a tiled resize: which siblings a resize touches, by how much, and what it
    keeps. Sizes are pixels along the axis of the resize. */
module TiledResize {
  import opened Options

  /** `Horizontal` and `Vertical` grow in both directions, the others move one edge. */
  datatype Axis = Horizontal | Vertical | Left | Right | Top | Bottom

  predicate IsHorizontal(axis: Axis) {
    axis in {Horizontal, Left, Right}
  }

  predicate AllowFirst(axis: Axis) {
    axis != Top && axis != Left
  }

  predicate AllowLast(axis: Axis) {
    axis != Right && axis != Bottom
  }

  /** The condition on a container's place among its siblings under which it can be resized. */
  predicate Fits(axis: Axis, index: int, length: int) {
    length > 1 && (AllowFirst(axis) || index > 0) && (AllowLast(axis) || index < length - 1)
  }

  /** The container that changes by `amount`, and its neighbours that make up for it. */
  datatype Move = Move(con: nat, next: nat, prev: Option<nat>, amount: int)

  /** The neighbours of the container at `index`; an edge at the top or left is moved by resizing the
      previous sibling the other way. */
  function MoveOf(axis: Axis, index: nat, length: nat, amount: int): (m: Move)
    requires index < length && Fits(axis, index, length)
    ensures m.con < length && m.next < length && m.next == m.con + 1
    ensures m.prev.Some? ==> m.prev.value < length && m.prev.value == m.con - 1
  {
    if axis in {Horizontal, Vertical} && index == 0 then Move(0, 1, None, amount)
    else if axis in {Horizontal, Vertical} && index == length - 1 then Move(index - 1, index, None, -amount)
    else if axis in {Horizontal, Vertical} then Move(index, index + 1, Some(index - 1), amount)
    else if axis in {Top, Left} then Move(index - 1, index, None, -amount)
    else Move(index, index + 1, None, amount)
  }

  /** `ceil(amount / 2.0)`. */
  function HalfUp(amount: int): (half: int)
    ensures amount as real / 2.0 <= half as real < amount as real / 2.0 + 1.0
  {
    (amount + 1) / 2
  }

  function SiblingGuard(m: Move): int {
    if m.prev.Some? then HalfUp(m.amount) else m.amount
  }

  /** The whole pixels the guards allow for, and the exact amount the neighbours lose. */
  function SiblingAmount(m: Move): real {
    if m.prev.Some? then m.amount as real / 2.0 else m.amount as real
  }

  predicate InRange(m: Move, length: nat) {
    m.con < length && m.next < length && m.next != m.con
    && (m.prev.Some? ==> m.prev.value < length && m.prev.value != m.con && m.prev.value != m.next)
  }

  /** None of the changed containers would become too small. */
  predicate Allowed(sizes: seq<real>, m: Move, min: real)
    requires InRange(m, |sizes|)
  {
    && sizes[m.con] + m.amount as real >= min
    && sizes[m.next] - SiblingGuard(m) as real >= min
    && (m.prev.Some? ==> sizes[m.prev.value] - SiblingGuard(m) as real >= min)
  }

  /** The sizes the new fractions stand for. */
  function Resized(sizes: seq<real>, m: Move): (r: seq<real>)
    requires InRange(m, |sizes|)
    ensures |r| == |sizes|
  {
    var two := Change(Change(sizes, m.con, m.amount as real), m.next, -SiblingAmount(m));
    if m.prev.Some? then Change(two, m.prev.value, -SiblingAmount(m)) else two
  }

  function Change(s: seq<real>, i: nat, d: real): (r: seq<real>)
    requires i < |s|
    ensures |r| == |s|
  {
    s[i := s[i] + d]
  }

  function SumTo(s: seq<real>): real {
    if s == [] then 0.0 else SumTo(s[..|s| - 1]) + s[|s| - 1]
  }

  function Sum(s: seq<real>): real {
    SumTo(s)
  }

  lemma {:induction false} SumChange(s: seq<real>, i: nat, d: real)
    requires i < |s|
    ensures Sum(Change(s, i, d)) == Sum(s) + d
  {
    var n := |s| - 1;
    if i == n {
      assert Change(s, i, d)[..n] == s[..n];
    } else {
      assert Change(s, i, d)[..n] == Change(s[..n], i, d);
      SumChange(s[..n], i, d);
    }
  }

  /** A resize takes from the neighbours exactly what it gives. */
  lemma SpaceConserved(sizes: seq<real>, m: Move)
    requires InRange(m, |sizes|)
    ensures Sum(Resized(sizes, m)) == Sum(sizes)
  {
    var one := Change(sizes, m.con, m.amount as real);
    var two := Change(one, m.next, -SiblingAmount(m));
    SumChange(sizes, m.con, m.amount as real);
    SumChange(one, m.next, -SiblingAmount(m));
    if m.prev.Some? {
      SumChange(two, m.prev.value, -SiblingAmount(m));
      Halves(m.amount);
    }
  }

  lemma Halves(amount: int)
    ensures amount as real - amount as real / 2.0 - amount as real / 2.0 == 0.0
  {
  }

  /** Although the guards test whole pixels and the neighbours lose exact halves, a resize that is
      allowed leaves all three changed containers at or above the minimum; the others stay. */
  lemma MinimumKept(sizes: seq<real>, m: Move, min: real)
    requires InRange(m, |sizes|) && Allowed(sizes, m, min)
    ensures forall i :: 0 <= i < |sizes| ==> Resized(sizes, m)[i] == sizes[i] || Resized(sizes, m)[i] >= min
    ensures forall i :: 0 <= i < |sizes| && i != m.con && i != m.next && m.prev != Some(i) ==>
      Resized(sizes, m)[i] == sizes[i]
    ensures Resized(sizes, m)[m.con] == sizes[m.con] + m.amount as real
  {
    assert SiblingAmount(m) <= SiblingGuard(m) as real;
  }

  /** Resizing back undoes a resize. */
  lemma ResizeBack(sizes: seq<real>, m: Move)
    requires InRange(m, |sizes|)
    ensures Resized(Resized(sizes, m), m.(amount := -m.amount)) == sizes
  {
    assert SiblingAmount(m.(amount := -m.amount)) == -SiblingAmount(m);
  }

  // ---- what that means for each sibling ----

  /** The neighbours at whose cost the container at `index` grows: the one at the edge that moves, or, when it
      grows in both directions, those on both sides. */
  predicate Pays(axis: Axis, index: int, length: int, j: int) {
    && 0 <= j < length
    && match axis
       case Left => j == index - 1
       case Top => j == index - 1
       case Right => j == index + 1
       case Bottom => j == index + 1
       case Horizontal => j == index - 1 || j == index + 1
       case Vertical => j == index - 1 || j == index + 1
  }

  /** What the sibling at `j` gains when the container at `index` grows: two neighbours pay half each, a single
      one pays all. */
  function Gain(axis: Axis, index: int, length: int, amount: int, j: int): real {
    if j == index then amount as real
    else if !Pays(axis, index, length, j) then 0.0
    else if Pays(axis, index, length, index - 1) && Pays(axis, index, length, index + 1) then -(amount as real) / 2.0
    else -(amount as real)
  }

  /** For every axis and place: the container changes by the amount, its neighbours pay for it, the other
      siblings stay. */
  lemma GainOf(sizes: seq<real>, axis: Axis, index: nat, amount: int)
    requires index < |sizes| && Fits(axis, index, |sizes|)
    ensures var r := Resized(sizes, MoveOf(axis, index, |sizes|, amount));
      forall j :: 0 <= j < |sizes| ==> r[j] == sizes[j] + Gain(axis, index, |sizes|, amount, j)
  {
  }

  /** A container can be resized along the axis exactly if there is a neighbour to pay for it. */
  lemma FitsIff(axis: Axis, index: int, length: int)
    requires 0 <= index < length
    ensures Fits(axis, index, length) <==> exists j :: Pays(axis, index, length, j)
  {
    if Fits(axis, index, length) {
      assert Pays(axis, index, length, index - 1) || Pays(axis, index, length, index + 1);
    }
  }

  predicate Whole(x: real) {
    x.Floor as real == x
  }

  predicate Changes(axis: Axis, index: int, length: int, j: int) {
    0 <= j < length && (j == index || Pays(axis, index, length, j))
  }

  ghost predicate BigEnough(sizes: seq<real>, axis: Axis, index: int, amount: int, min: real) {
    forall j :: 0 <= j < |sizes| && Changes(axis, index, |sizes|, j) ==>
      sizes[j] + Gain(axis, index, |sizes|, amount, j) >= min
  }

  /** The gain as the checks have it, in whole pixels. */
  function GuardGain(axis: Axis, index: int, length: int, amount: int, j: int): int {
    if j == index then amount
    else if Pays(axis, index, length, index - 1) && Pays(axis, index, length, index + 1) then -HalfUp(amount)
    else -amount
  }

  lemma GuardsAre(sizes: seq<real>, axis: Axis, index: nat, amount: int, min: real)
    requires index < |sizes| && Fits(axis, index, |sizes|)
    ensures Allowed(sizes, MoveOf(axis, index, |sizes|, amount), min)
       <==> forall j :: 0 <= j < |sizes| && Changes(axis, index, |sizes|, j) ==>
         sizes[j] + GuardGain(axis, index, |sizes|, amount, j) as real >= min
  {
    var m := MoveOf(axis, index, |sizes|, amount);
    assert Changes(axis, index, |sizes|, m.con) && Changes(axis, index, |sizes|, m.next);
    assert m.prev.Some? ==> Changes(axis, index, |sizes|, m.prev.value);
  }

  lemma GuardOf(size: real, axis: Axis, index: int, length: int, amount: int, j: int, min: real)
    requires Changes(axis, index, length, j)
    ensures var guard, gain := GuardGain(axis, index, length, amount, j) as real, Gain(axis, index, length, amount, j);
      && guard <= gain <= guard + 0.5
      && (Whole(size) && Whole(min) ==> (size + guard >= min <==> size + gain >= min))
  {
    hide Pays;
    HalfBounds(amount);
    if Whole(size) && Whole(min) {
      HalfOfWhole(size, min, size.Floor - min.Floor, amount);
    }
  }

  lemma HalfBounds(amount: int)
    ensures amount as real / 2.0 <= HalfUp(amount) as real <= amount as real / 2.0 + 0.5
  {
  }

  lemma HalfOfWhole(size: real, min: real, k: int, amount: int)
    requires size - min == k as real
    ensures size - HalfUp(amount) as real >= min <==> size - amount as real / 2.0 >= min
  {
    assert k >= HalfUp(amount) <==> 2 * k >= amount;
  }

  /** What the checks mean: a resize that is allowed leaves what changes big enough, one that leaves it half a
      pixel bigger is allowed, and for whole pixels exactly those are allowed that leave it big enough. */
  lemma AllowedMeans(sizes: seq<real>, axis: Axis, index: nat, amount: int, min: real)
    requires index < |sizes| && Fits(axis, index, |sizes|)
    ensures var allowed := Allowed(sizes, MoveOf(axis, index, |sizes|, amount), min);
      && (allowed ==> BigEnough(sizes, axis, index, amount, min))
      && (BigEnough(sizes, axis, index, amount, min + 0.5) ==> allowed)
      && (Whole(min) && (forall j :: 0 <= j < |sizes| ==> Whole(sizes[j])) ==>
        (allowed <==> BigEnough(sizes, axis, index, amount, min)))
  {
    hide Allowed, MoveOf, Changes, Gain, GuardGain, Fits;
    GuardsAre(sizes, axis, index, amount, min);
    forall j | 0 <= j < |sizes| && Changes(axis, index, |sizes|, j)
      ensures var guard := GuardGain(axis, index, |sizes|, amount, j) as real;
        && guard <= Gain(axis, index, |sizes|, amount, j) <= guard + 0.5
        && (Whole(sizes[j]) && Whole(min) ==>
          (sizes[j] + guard >= min <==> sizes[j] + Gain(axis, index, |sizes|, amount, j) >= min))
    {
      GuardOf(sizes[j], axis, index, |sizes|, amount, j, min);
    }
  }

  /** Moving the left edge of a container is moving the right edge of the one before it. */
  lemma LeftIsRightOfPrevious(axis: Axis, index: nat, length: nat, amount: int)
    requires axis in {Left, Top} && index < length && Fits(axis, index, length)
    ensures var back := if axis == Left then Right else Bottom;
      Fits(back, index - 1, length) && MoveOf(axis, index, length, amount) == MoveOf(back, index - 1, length, -amount)
  {
  }

  lemma {:induction false} SumFractions(f: seq<real>, sizes: seq<real>, total: real)
    requires total > 0.0 && |f| == |sizes| && forall i :: 0 <= i < |f| ==> f[i] == sizes[i] / total
    ensures Sum(f) == Sum(sizes) / total
  {
    if f != [] {
      SumFractions(f[..|f| - 1], sizes[..|f| - 1], total);
    }
  }

  /** The fractions after a resize still add up to the space the siblings had. */
  lemma FractionsConserved(f: seq<real>, sizes: seq<real>, m: Move, total: real)
    requires InRange(m, |sizes|) && total > 0.0 && |f| == |sizes|
    requires forall i :: 0 <= i < |f| ==> f[i] == Resized(sizes, m)[i] / total
    ensures Sum(f) == Sum(sizes) / total
  {
    SumFractions(f, Resized(sizes, m), total);
    SpaceConserved(sizes, m);
  }
}
