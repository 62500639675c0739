/** What `list_stable_sort` computes, as functions on sequences, and why that is a stable sort. */
module StableSort {

  predicate Leq<T>(cmp: (T, T) -> int, a: T, b: T) {
    cmp(a, b) <= 0
  }

  /** The sign conventions a C comparison function promises, for a total preorder. */
  ghost predicate TotalPreorder<T(!new)>(cmp: (T, T) -> int) {
    && (forall a, b {:trigger Leq(cmp, a, b)} :: Leq(cmp, a, b) <==> cmp(b, a) >= 0)
    && (forall a, b, c :: Leq(cmp, a, b) && Leq(cmp, b, c) ==> Leq(cmp, a, c))
  }

  ghost predicate Sorted<T>(cmp: (T, T) -> int, s: seq<T>) {
    forall i, j {:trigger Leq(cmp, s[i], s[j])} :: 0 <= i < j < |s| ==> Leq(cmp, s[i], s[j])
  }

  /** The elements equal to `key` under the comparison, in their order of appearance. */
  function Class<T>(cmp: (T, T) -> int, key: T, s: seq<T>): seq<T> {
    if s == [] then []
    else if cmp(s[0], key) == 0 then [s[0]] + Class(cmp, key, s[1..])
    else Class(cmp, key, s[1..])
  }

  /** Merge of two runs, the left run first among equals. */
  function Merge<T>(cmp: (T, T) -> int, a: seq<T>, b: seq<T>): seq<T>
    decreases |a| + |b|
  {
    if a == [] then b
    else if b == [] then a
    else if cmp(a[0], b[0]) <= 0 then [a[0]] + Merge(cmp, a[1..], b)
    else [b[0]] + Merge(cmp, a, b[1..])
  }

  /** The recursion of `list_inplace_sort`, on values. */
  function MergeSort<T>(cmp: (T, T) -> int, s: seq<T>): seq<T>
    decreases |s|
  {
    if |s| <= 1 then s
    else
      var half := (|s| - 1) / 2 + 1;
      Merge(cmp, MergeSort(cmp, s[..half]), MergeSort(cmp, s[half..]))
  }

  lemma {:induction false} MergePermutes<T>(cmp: (T, T) -> int, a: seq<T>, b: seq<T>)
    ensures multiset(Merge(cmp, a, b)) == multiset(a) + multiset(b)
    decreases |a| + |b|
  {
    if a == [] || b == [] {
    } else if cmp(a[0], b[0]) <= 0 {
      assert a == [a[0]] + a[1..];
      MergePermutes(cmp, a[1..], b);
    } else {
      assert b == [b[0]] + b[1..];
      MergePermutes(cmp, a, b[1..]);
    }
  }

  lemma MergeMembers<T>(cmp: (T, T) -> int, a: seq<T>, b: seq<T>, x: T)
    ensures x in Merge(cmp, a, b) <==> x in a || x in b
  {
    MergePermutes(cmp, a, b);
    assert x in Merge(cmp, a, b) <==> x in multiset(Merge(cmp, a, b));
  }

  lemma SortedCons<T>(cmp: (T, T) -> int, x: T, s: seq<T>)
    requires Sorted(cmp, s) && forall y :: y in s ==> Leq(cmp, x, y)
    ensures Sorted(cmp, [x] + s)
  {
  }

  lemma {:induction false} MergeSorted<T(!new)>(cmp: (T, T) -> int, a: seq<T>, b: seq<T>)
    requires TotalPreorder(cmp) && Sorted(cmp, a) && Sorted(cmp, b)
    ensures Sorted(cmp, Merge(cmp, a, b))
    decreases |a| + |b|
  {
    if a == [] || b == [] {
    } else {
      assert Leq(cmp, a[0], b[0]) || Leq(cmp, b[0], a[0]);
      var (x, a', b') := if Leq(cmp, a[0], b[0]) then (a[0], a[1..], b) else (b[0], a, b[1..]);
      MergeSorted(cmp, a', b');
      forall y | y in Merge(cmp, a', b')
        ensures Leq(cmp, x, y)
      {
        MergeMembers(cmp, a', b', y);
        assert Leq(cmp, y, y);
        if y in a { assert y == a[0] || Leq(cmp, a[0], y); }
        if y in b { assert y == b[0] || Leq(cmp, b[0], y); }
      }
      SortedCons(cmp, x, Merge(cmp, a', b'));
    }
  }

  lemma {:induction false} ClassAppend<T>(cmp: (T, T) -> int, key: T, a: seq<T>, b: seq<T>)
    ensures Class(cmp, key, a + b) == Class(cmp, key, a) + Class(cmp, key, b)
  {
    if a == [] {
      assert a + b == b;
    } else {
      assert (a + b)[1..] == a[1..] + b;
      ClassAppend(cmp, key, a[1..], b);
    }
  }

  lemma {:induction false} ClassMembers<T>(cmp: (T, T) -> int, key: T, s: seq<T>, x: T)
    ensures x in Class(cmp, key, s) <==> x in s && cmp(x, key) == 0
  {
    if s != [] {
      assert s == [s[0]] + s[1..];
      ClassMembers(cmp, key, s[1..], x);
    }
  }

  lemma {:induction false} ClassEmpty<T>(cmp: (T, T) -> int, key: T, s: seq<T>)
    requires forall x :: x in s ==> cmp(x, key) != 0
    ensures Class(cmp, key, s) == []
  {
    if s != [] {
      ClassEmpty(cmp, key, s[1..]);
    }
  }

  /** Merging keeps the order of equal elements: first those of the left run, then those of the right. */
  lemma {:induction false} MergeStable<T(!new)>(cmp: (T, T) -> int, key: T, a: seq<T>, b: seq<T>)
    requires TotalPreorder(cmp) && Sorted(cmp, a)
    ensures Class(cmp, key, Merge(cmp, a, b)) == Class(cmp, key, a) + Class(cmp, key, b)
    decreases |a| + |b|
  {
    if a == [] || b == [] {
      ClassAppend(cmp, key, a, b);
      assert a + b == Merge(cmp, a, b);
    } else if cmp(a[0], b[0]) <= 0 {
      MergeStable(cmp, key, a[1..], b);
      var m := Merge(cmp, a[1..], b);
      assert ([a[0]] + m)[1..] == m;
    } else {
      MergeStable(cmp, key, a, b[1..]);
      var m := Merge(cmp, a, b[1..]);
      assert ([b[0]] + m)[1..] == m;
      if cmp(b[0], key) == 0 {
        // every element of `a` is strictly above `b[0]`, hence outside the class
        forall x | x in a
          ensures cmp(x, key) != 0
        {
          assert x == a[0] || Leq(cmp, a[0], x);
          assert Leq(cmp, x, key) ==> Leq(cmp, x, b[0]) by { assert Leq(cmp, b[0], key) && Leq(cmp, key, b[0]); }
          assert !Leq(cmp, a[0], b[0]);
        }
        ClassEmpty(cmp, key, a);
      }
    }
  }

  /** `list_stable_sort` under a total preorder: a sorted permutation in which no class of
      equal elements is reordered. */
  lemma {:induction false} MergeSortStable<T(!new)>(cmp: (T, T) -> int, s: seq<T>)
    requires TotalPreorder(cmp)
    ensures Sorted(cmp, MergeSort(cmp, s))
    ensures multiset(MergeSort(cmp, s)) == multiset(s)
    ensures |MergeSort(cmp, s)| == |s|
    ensures forall key :: Class(cmp, key, MergeSort(cmp, s)) == Class(cmp, key, s)
    decreases |s|
  {
    if |s| > 1 {
      var half := (|s| - 1) / 2 + 1;
      var a, b := MergeSort(cmp, s[..half]), MergeSort(cmp, s[half..]);
      MergeSortStable(cmp, s[..half]);
      MergeSortStable(cmp, s[half..]);
      assert s == s[..half] + s[half..];
      MergePermutes(cmp, a, b);
      assert |MergeSort(cmp, s)| == |multiset(MergeSort(cmp, s))|;
      MergeSorted(cmp, a, b);
      forall key
        ensures Class(cmp, key, MergeSort(cmp, s)) == Class(cmp, key, s)
      {
        MergeStable(cmp, key, a, b);
        ClassAppend(cmp, key, s[..half], s[half..]);
      }
    }
  }

  lemma InOwnClass<T(!new)>(cmp: (T, T) -> int, s: seq<T>)
    requires TotalPreorder(cmp) && s != []
    ensures s[0] in Class(cmp, s[0], s) && Class(cmp, s[0], s)[0] == s[0]
  {
    assert Leq(cmp, s[0], s[0]);
  }

  /** Sortedness and stability leave no freedom: they determine the result. */
  lemma {:induction false} StableSortUnique<T(!new)>(cmp: (T, T) -> int, s: seq<T>, t: seq<T>)
    requires TotalPreorder(cmp) && Sorted(cmp, s) && Sorted(cmp, t)
    requires forall key :: Class(cmp, key, s) == Class(cmp, key, t)
    ensures s == t
    decreases |s|
  {
    if s != [] { InOwnClass(cmp, s); }
    if t != [] { InOwnClass(cmp, t); }
    if s == [] || t == [] {
    } else {
      var x, y := s[0], t[0];
      ClassMembers(cmp, x, t, x);
      ClassMembers(cmp, y, s, y);
      assert Leq(cmp, x, y) && Leq(cmp, y, x);
      assert Class(cmp, x, s)[0] == x && Class(cmp, x, t)[0] == y;
      forall key
        ensures Class(cmp, key, s[1..]) == Class(cmp, key, t[1..])
      {
        assert Class(cmp, key, s) == Class(cmp, key, t);
        if cmp(x, key) == 0 {
          assert Class(cmp, key, s)[1..] == Class(cmp, key, t)[1..];
        }
      }
      StableSortUnique(cmp, s[1..], t[1..]);
      assert s == [x] + s[1..] && t == [y] + t[1..];
    }
  }

  /** Runs that are already in order across their border merge to their concatenation. */
  lemma {:induction false} MergeInOrder<T(!new)>(cmp: (T, T) -> int, a: seq<T>, b: seq<T>)
    requires TotalPreorder(cmp) && Sorted(cmp, a)
    requires a == [] || b == [] || cmp(a[|a| - 1], b[0]) <= 0
    ensures Merge(cmp, a, b) == a + b
    decreases |a|
  {
    if a == [] || b == [] {
    } else {
      assert |a| == 1 || Leq(cmp, a[0], a[|a| - 1]);
      assert Leq(cmp, a[|a| - 1], b[0]) && Leq(cmp, a[0], b[0]);
      MergeInOrder(cmp, a[1..], b);
      assert a + b == [a[0]] + (a[1..] + b);
    }
  }

  /** Position `i` holds a minimum, and nothing equal comes before it. */
  ghost predicate FirstMin<T>(cmp: (T, T) -> int, s: seq<T>, i: int) {
    && 0 <= i < |s|
    && (forall j :: 0 <= j < |s| ==> Leq(cmp, s[i], s[j]))
    && (forall j :: 0 <= j < i ==> cmp(s[j], s[i]) != 0)
  }

  /** Position `i` holds a maximum, and nothing equal comes after it. */
  ghost predicate LastMax<T>(cmp: (T, T) -> int, s: seq<T>, i: int) {
    && 0 <= i < |s|
    && (forall j :: 0 <= j < |s| ==> Leq(cmp, s[j], s[i]))
    && (forall j :: i < j < |s| ==> cmp(s[j], s[i]) != 0)
  }

  lemma {:induction false} ClassFirst<T>(cmp: (T, T) -> int, key: T, s: seq<T>) returns (i: nat)
    requires Class(cmp, key, s) != []
    ensures i < |s| && s[i] == Class(cmp, key, s)[0]
    ensures forall j :: 0 <= j < i ==> cmp(s[j], key) != 0
  {
    if cmp(s[0], key) == 0 {
      i := 0;
    } else {
      i := ClassFirst(cmp, key, s[1..]);
      i := i + 1;
    }
  }

  lemma {:induction false} ClassLast<T>(cmp: (T, T) -> int, key: T, s: seq<T>) returns (i: nat)
    requires Class(cmp, key, s) != []
    ensures i < |s| && s[i] == Class(cmp, key, s)[|Class(cmp, key, s)| - 1]
    ensures forall j :: i < j < |s| ==> cmp(s[j], key) != 0
  {
    if Class(cmp, key, s[1..]) == [] {
      i := 0;
      forall j | 0 < j < |s|
        ensures cmp(s[j], key) != 0
      {
        ClassMembers(cmp, key, s[1..], s[1..][j - 1]);
      }
    } else {
      i := ClassLast(cmp, key, s[1..]);
      i := i + 1;
    }
  }

  /** The first item of the sorted list is the first minimum of the original. */
  lemma SortedHead<T(!new)>(cmp: (T, T) -> int, s: seq<T>) returns (i: nat)
    requires TotalPreorder(cmp) && s != []
    ensures FirstMin(cmp, s, i) && |MergeSort(cmp, s)| == |s| && MergeSort(cmp, s)[0] == s[i]
  {
    var t := MergeSort(cmp, s);
    MergeSortStable(cmp, s);
    InOwnClass(cmp, t);
    assert Class(cmp, t[0], t) == Class(cmp, t[0], s);
    i := ClassFirst(cmp, t[0], s);
    forall j | 0 <= j < |s|
      ensures Leq(cmp, s[i], s[j])
    {
      assert s[j] in multiset(t);
      assert s[j] == t[0] || exists k :: 0 < k < |t| && t[k] == s[j] && Leq(cmp, t[0], t[k]);
      assert Leq(cmp, t[0], t[0]);
    }
  }

  /** The last item of the sorted list is the last maximum of the original. */
  lemma SortedTail<T(!new)>(cmp: (T, T) -> int, s: seq<T>) returns (i: nat)
    requires TotalPreorder(cmp) && s != []
    ensures LastMax(cmp, s, i) && |MergeSort(cmp, s)| == |s| && MergeSort(cmp, s)[|s| - 1] == s[i]
  {
    hide MergeSort;
    var t, n := MergeSort(cmp, s), |s| - 1;
    MergeSortStable(cmp, s);
    InOwnClass(cmp, [t[n]]);
    ClassAppend(cmp, t[n], t[..n], [t[n]]);
    assert t == t[..n] + [t[n]];
    assert Class(cmp, t[n], t) == Class(cmp, t[n], s);
    i := ClassLast(cmp, t[n], s);
    assert Class(cmp, t[n], [t[n]]) == [t[n]];
    forall j | 0 <= j < |s|
      ensures Leq(cmp, s[j], s[i])
    {
      assert s[j] in multiset(t);
      assert s[j] == t[n] || exists k :: 0 <= k < n && t[k] == s[j] && Leq(cmp, t[k], t[n]);
      assert Leq(cmp, t[n], t[n]);
    }
  }
}
