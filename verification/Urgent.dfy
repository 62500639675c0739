/** The urgent branch of `criteria_matches_view`: it sorts the urgent views in place and picks an end. */
module Urgent {
  import opened StableSort
  import opened Lists

  /** A view; `sec`/`nsec` is the moment it became urgent, meaningful while `urgent` is set. */
  datatype View = View(id: nat, urgent: bool, sec: int, nsec: int)

  datatype UrgentCriterion = Oldest | Latest

  function CmpUrgent(a: View, b: View): int {
    if a.sec < b.sec then -1
    else if a.sec > b.sec then 1
    else if a.nsec < b.nsec then -1
    else if a.nsec > b.nsec then 1
    else 0
  }

  lemma CmpUrgentIsPreorder()
    ensures TotalPreorder(CmpUrgent)
  {
  }

  /** The moment a view became urgent, in nanoseconds. */
  function Moment(v: View): int {
    v.sec * 1_000_000_000 + v.nsec
  }

  predicate Timed(v: View) {
    0 <= v.nsec < 1_000_000_000
  }

  /** The comparison puts the earlier moment first. */
  lemma ComparesMoments(a: View, b: View)
    requires Timed(a) && Timed(b)
    ensures CmpUrgent(a, b) < 0 <==> Moment(a) < Moment(b)
    ensures CmpUrgent(a, b) == 0 <==> Moment(a) == Moment(b)
  {
  }

  /** The urgent views, in traversal order. */
  function UrgentViews(views: seq<View>): seq<View> {
    if views == [] then []
    else UrgentViews(views[..|views| - 1]) + if views[|views| - 1].urgent then [views[|views| - 1]] else []
  }

  lemma {:induction false} UrgentMembers(views: seq<View>, v: View)
    ensures v in UrgentViews(views) <==> v in views && v.urgent
  {
    if views != [] {
      UrgentMembers(views[..|views| - 1], v);
      assert views == views[..|views| - 1] + [views[|views| - 1]];
    }
  }

  /** They keep their order, and none is left out or added. */
  lemma {:induction false} UrgentInOrder(a: seq<View>, b: seq<View>)
    ensures UrgentViews(a + b) == UrgentViews(a) + UrgentViews(b)
  {
    if b == [] {
      assert a + b == a;
    } else {
      var init, last := b[..|b| - 1], b[|b| - 1];
      UrgentInOrder(a, init);
      assert (a + b)[..|a + b| - 1] == a + init && (a + b)[|a + b| - 1] == last;
    }
  }

  /** The position among the urgent views that a criterion stands for: the first of the oldest or
      the last of the latest, in traversal order. */
  ghost predicate Chosen(views: seq<View>, which: UrgentCriterion, i: int) {
    match which
    case Oldest => FirstMin(CmpUrgent, UrgentViews(views), i)
    case Latest => LastMax(CmpUrgent, UrgentViews(views), i)
  }

  /** As soon as one view is urgent, `urgent=oldest` and `urgent=latest` each choose exactly one
      position: the end of the stably sorted list that the code looks at. */
  lemma ChosenIsSortedEnd(views: seq<View>, which: UrgentCriterion) returns (i: nat)
    requires UrgentViews(views) != []
    ensures forall j :: Chosen(views, which, j) <==> j == i
    ensures var u := UrgentViews(views);
      |MergeSort(CmpUrgent, u)| == |u| && i < |u|
      && MergeSort(CmpUrgent, u)[if which == Oldest then 0 else |u| - 1] == u[i]
  {
    var u := UrgentViews(views);
    CmpUrgentIsPreorder();
    if which == Oldest {
      i := SortedHead(CmpUrgent, u);
      forall j | Chosen(views, which, j)
        ensures j == i
      {
        assert Leq(CmpUrgent, u[i], u[j]) && Leq(CmpUrgent, u[j], u[i]);
      }
    } else {
      i := SortedTail(CmpUrgent, u);
      forall j | Chosen(views, which, j)
        ensures j == i
      {
        assert Leq(CmpUrgent, u[i], u[j]) && Leq(CmpUrgent, u[j], u[i]);
      }
    }
  }

  /** In terms of moments: no urgent view is older than the oldest and none in front of it as old; none is later than
      the latest and none behind it as late. */
  lemma ChosenMeans(views: seq<View>, which: UrgentCriterion, i: int)
    requires forall v :: v in views && v.urgent ==> Timed(v)
    ensures var u := UrgentViews(views);
      Chosen(views, which, i) <==> 0 <= i < |u| && forall j :: 0 <= j < |u| && j != i ==>
        if which == Oldest then Moment(u[i]) < Moment(u[j]) || (j > i && Moment(u[i]) == Moment(u[j]))
        else Moment(u[i]) > Moment(u[j]) || (j < i && Moment(u[i]) == Moment(u[j]))
  {
    hide CmpUrgent, Moment;
    var u := UrgentViews(views);
    forall j | 0 <= j < |u|
      ensures Timed(u[j])
    {
      UrgentMembers(views, u[j]);
    }
    forall j, k | 0 <= j < |u| && 0 <= k < |u|
      ensures CmpUrgent(u[j], u[k]) < 0 <==> Moment(u[j]) < Moment(u[k])
      ensures CmpUrgent(u[j], u[k]) == 0 <==> Moment(u[j]) == Moment(u[k])
    {
      ComparesMoments(u[j], u[k]);
    }
  }

  /** `find_urgent_iterator` over the whole traversal. */
  method CollectUrgent(views: seq<View>) returns (list: List<View>)
    ensures list.Valid() && fresh(list) && fresh(list.items) && list.Contents() == UrgentViews(views)
  {
    list := new List<View>();
    var n := 0;
    while n < |views|
      invariant 0 <= n <= |views| && list.Valid() && fresh(list) && fresh(list.items)
      invariant list.Contents() == UrgentViews(views[..n])
    {
      assert views[..n + 1][..n] == views[..n];
      if views[n].urgent {
        list.Add(views[n]);
      }
      n := n + 1;
    }
    assert views[..n] == views;
  }

  /** The urgent branch, for a view that is somewhere in the traversal. */
  method MatchesUrgent(views: seq<View>, view: View, which: UrgentCriterion) returns (matches: bool)
    requires view in views
    ensures matches <==> exists i :: Chosen(views, which, i) && UrgentViews(views)[i] == view
  {
    UrgentMembers(views, view);
    if !view.urgent {
      return false;
    }
    var list := CollectUrgent(views);
    CmpUrgentIsPreorder();
    list.StableSort(CmpUrgent);
    ghost var i := ChosenIsSortedEnd(views, which);
    ghost var sorted := list.Contents();
    assert list.length == |sorted|;
    var target := if which == Oldest then list.items[0] else list.items[list.length - 1];
    assert target == sorted[if which == Oldest then 0 else list.length - 1];
    matches := view == target;
  }
}
