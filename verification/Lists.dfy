/** The growable array `list_t` and its in-place stable sort. */
module Lists {
  import opened StableSort

  class List<T(0,!new)> {
    var capacity: nat
    var length: nat
    var items: array<T>

    ghost predicate Valid()
      reads this
    {
      length <= capacity == items.Length && capacity > 0
    }

    ghost function Contents(): seq<T>
      reads this, items
      requires Valid()
    {
      items[..length]
    }

    constructor ()
      ensures Valid() && fresh(items) && Contents() == []
    {
      capacity := 10;
      length := 0;
      items := new T[10];
    }

    /** `list_resize`: makes room for one more item by doubling a full buffer. */
    method Resize()
      requires Valid()
      modifies this`capacity, this`items
      ensures Valid() && length < capacity && Contents() == old(Contents())
      ensures items == old(items) || fresh(items)
      ensures capacity == if length == old(capacity) then 2 * old(capacity) else old(capacity)
    {
      if length == capacity {
        capacity := capacity * 2;
        var grown := new T[capacity];
        forall i | 0 <= i < length {
          grown[i] := items[i];
        }
        items := grown;
      }
    }

    method Add(item: T)
      requires Valid()
      modifies this, items
      ensures Valid() && (items == old(items) || fresh(items))
      ensures Contents() == old(Contents()) + [item]
    {
      Resize();
      items[length] := item;
      length := length + 1;
    }

    method Insert(index: nat, item: T)
      requires Valid() && index <= length
      modifies this, items
      ensures Valid() && (items == old(items) || fresh(items))
      ensures Contents() == old(Contents())[..index] + [item] + old(Contents())[index..]
    {
      Resize();
      // memmove of the tail, one slot up
      forall i | index <= i < length {
        items[i + 1] := items[i];
      }
      length := length + 1;
      items[index] := item;
    }

    method Del(index: nat)
      requires Valid() && index < length
      modifies this`length, items
      ensures Valid()
      ensures Contents() == old(Contents())[..index] + old(Contents())[index + 1..]
    {
      length := length - 1;
      forall i | index <= i < length {
        items[i] := items[i + 1];
      }
    }

    /** `list_rotate`: moves the item at `to` down to `from`, shifting those between up by one. */
    method Rotate(from: nat, to: nat)
      requires Valid() && from <= to < length
      modifies items
      ensures Rotated(old(items[..]), items[..], from, to)
    {
      var tmp := items[to];
      var k := to;
      while k > from
        invariant from <= k <= to
        invariant forall i :: 0 <= i < items.Length && !(k < i <= to) ==> items[i] == old(items[i])
        invariant forall i :: k < i <= to ==> items[i] == old(items[i - 1])
      {
        items[k] := items[k - 1];
        k := k - 1;
      }
      items[from] := tmp;
    }

    /** `list_inplace_merge`: turns two adjacent sorted runs into their stable merge by rotations. */
    method InplaceMerge(first: nat, last: nat, middle: nat, cmp: (T, T) -> int)
      requires Valid() && first <= middle < last < length && TotalPreorder(cmp)
      requires Sorted(cmp, items[..][first..middle + 1])
      modifies items
      ensures Replaced(old(items[..]), items[..], first, last + 1,
                       Merged(cmp, old(items[..]), first, middle + 1, last + 1))
    {
      hide Merging, Replaced, Merged, Sorted;
      var left, mid, right := first, middle, middle + 1;
      ghost var was := items[..];
      if cmp(items[mid], items[right]) <= 0 {
        RunsInOrder(cmp, was, first, right, last + 1);
        return;
      }
      ghost var m := MergeStart(cmp, was, first, right, last + 1);
      while left <= mid && right <= last
        invariant first <= left <= mid + 1 == right <= last + 1
        invariant Merging(cmp, was, items[..], first, left, right, last + 1, m)
      {
        var taken := MergeOne(first, left, right, last, cmp, was, m);
        left := left + 1;
        if taken {
          mid := mid + 1;
          right := right + 1;
        }
      }
      MergeDone(cmp, was, items[..], first, left, right, last + 1, m);
    }

    /** The body of the loop: the smaller of the two first items comes next; was it the right one? */
    method MergeOne(ghost first: nat, left: nat, right: nat, ghost last: nat, cmp: (T, T) -> int,
        ghost was: seq<T>, ghost m: seq<T>) returns (taken: bool)
      requires Valid() && first <= left < right <= last < length && TotalPreorder(cmp)
      requires Merging(cmp, was, items[..], first, left, right, last + 1, m)
      modifies items
      ensures Merging(cmp, was, items[..], first, left + 1, if taken then right + 1 else right, last + 1, m)
    {
      ghost var now := items[..];
      taken := cmp(items[left], items[right]) > 0;
      if taken {
        Rotate(left, right);
        TakeRight(cmp, was, now, items[..], first, left, right, last + 1, m);
      } else {
        KeepLeft(cmp, was, now, first, left, right, last + 1, m);
      }
    }

    method Swap(src: nat, dest: nat)
      requires Valid() && src < length && dest < length
      modifies items
      ensures items[..] == old(items[..])[src := old(items[dest])][dest := old(items[src])]
    {
      var tmp := items[src];
      items[src] := items[dest];
      items[dest] := tmp;
    }

    /** `list_inplace_sort`: sorts the inclusive range first..last. */
    method InplaceSort(first: nat, last: nat, cmp: (T, T) -> int)
      requires Valid() && first <= last < length && TotalPreorder(cmp)
      modifies items
      ensures Replaced(old(items[..]), items[..], first, last + 1,
                       SortedRange(cmp, old(items[..]), first, last + 1))
      decreases last - first
    {
      hide Sorted, TotalPreorder, Merged;
      ghost var was := items[..];
      if first >= last {
      } else if last - first == 1 {
        MergeSortPair(cmp, was[first..last + 1]);
        if cmp(items[first], items[last]) > 0 {
          Swap(first, last);
        }
      } else {
        var mid := (last + first) / 2;
        InplaceSort(first, mid, cmp);
        ghost var sortedLeft := items[..];
        InplaceSort(mid + 1, last, cmp);
        SortedHalves(cmp, was, sortedLeft, items[..], first, mid + 1, last + 1);
        InplaceMerge(first, last, mid, cmp);
      }
    }

    method StableSort(cmp: (T, T) -> int)
      requires Valid() && TotalPreorder(cmp)
      modifies items
      ensures Valid() && Contents() == MergeSort(cmp, old(Contents()))
    {
      if length > 1 {
        InplaceSort(0, length - 1, cmp);
        assert old(items[..])[0..length] == old(Contents());
      }
    }
  }

  /** What `list_rotate` does to the buffer. */
  ghost predicate Rotated<T>(s: seq<T>, t: seq<T>, from: nat, to: nat)
    requires from <= to < |s|
  {
    && |t| == |s| && t[from] == s[to]
    && (forall i :: 0 <= i < |s| && !(from <= i <= to) ==> t[i] == s[i])
    && (forall i :: from < i <= to ==> t[i] == s[i - 1])
  }

  /** `t` is `s` with the range lo..hi replaced by `m`. */
  ghost predicate Replaced<T>(s: seq<T>, t: seq<T>, lo: nat, hi: nat, m: seq<T>) {
    && lo <= hi <= |s| == |t| && |m| == hi - lo
    && (forall i :: 0 <= i < lo || hi <= i < |s| ==> t[i] == s[i])
    && (forall i :: lo <= i < hi ==> t[i] == m[i - lo])
  }

  ghost function SortedRange<T>(cmp: (T, T) -> int, s: seq<T>, lo: nat, hi: nat): seq<T>
    requires lo <= hi <= |s|
  {
    MergeSort(cmp, s[lo..hi])
  }

  /** The merge of the adjacent runs left..right and right..end. */
  ghost function Merged<T>(cmp: (T, T) -> int, s: seq<T>, left: nat, right: nat, end: nat): seq<T>
    requires left <= right <= end <= |s|
  {
    Merge(cmp, s[left..right], s[right..end])
  }

  /** `s` is `was` with the range first..end part-way through being overwritten by `m`: done up to
      `left`, and the merge of what is left of the two runs is what is left of `m`. */
  ghost predicate Merging<T>(cmp: (T, T) -> int, was: seq<T>, s: seq<T>,
                             first: nat, left: nat, right: nat, end: nat, m: seq<T>)
  {
    && first <= left <= right <= end <= |s| == |was| && |m| == end - first
    && Merged(cmp, s, left, right, end) == m[left - first..]
    && (forall i :: first <= i < left ==> s[i] == m[i - first])
    && (forall i :: 0 <= i < first || end <= i < |s| ==> s[i] == was[i])
  }

  lemma MergeStart<T>(cmp: (T, T) -> int, s: seq<T>, first: nat, right: nat, end: nat) returns (m: seq<T>)
    requires first <= right <= end <= |s|
    ensures m == Merged(cmp, s, first, right, end) && Merging(cmp, s, s, first, first, right, end, m)
  {
    m := Merged(cmp, s, first, right, end);
    MergePermutes(cmp, s[first..right], s[right..end]);
    assert |m| == |multiset(m)|;
  }

  lemma KeepLeft<T>(cmp: (T, T) -> int, was: seq<T>, s: seq<T>, first: nat, left: nat, right: nat, end: nat, m: seq<T>)
    requires left < right < end
    requires Merging(cmp, was, s, first, left, right, end, m) && cmp(s[left], s[right]) <= 0
    ensures Merging(cmp, was, s, first, left + 1, right, end, m)
  {
    assert s[left..right][1..] == s[left + 1..right];
    assert Merged(cmp, s, left, right, end)[1..] == Merged(cmp, s, left + 1, right, end);
    assert s[left] == m[left - first..][0];
  }

  lemma TakeRight<T>(cmp: (T, T) -> int, was: seq<T>, s: seq<T>, t: seq<T>,
                     first: nat, left: nat, right: nat, end: nat, m: seq<T>)
    requires left < right < end
    requires Merging(cmp, was, s, first, left, right, end, m) && cmp(s[left], s[right]) > 0
    requires Rotated(s, t, left, right)
    ensures Merging(cmp, was, t, first, left + 1, right + 1, end, m)
  {
    assert s[right..end][1..] == s[right + 1..end];
    assert t[left + 1..right + 1] == s[left..right] && t[right + 1..end] == s[right + 1..end];
    assert Merged(cmp, s, left, right, end)[1..] == Merged(cmp, t, left + 1, right + 1, end);
    assert t[left] == s[right] == m[left - first..][0];
  }

  lemma MergeDone<T>(cmp: (T, T) -> int, was: seq<T>, s: seq<T>, first: nat, left: nat, right: nat, end: nat, m: seq<T>)
    requires Merging(cmp, was, s, first, left, right, end, m) && (left == right || right == end)
    ensures Replaced(was, s, first, end, m)
  {
    assert Merged(cmp, s, left, right, end) == s[left..end];
    forall i | left <= i < end
      ensures s[i] == m[i - first]
    {
      assert s[i] == s[left..end][i - left];
    }
  }

  lemma RunsInOrder<T(!new)>(cmp: (T, T) -> int, s: seq<T>, first: nat, right: nat, end: nat)
    requires first < right < end <= |s| && TotalPreorder(cmp)
    requires Sorted(cmp, s[first..right]) && cmp(s[right - 1], s[right]) <= 0
    ensures Replaced(s, s, first, end, Merged(cmp, s, first, right, end))
  {
    hide Sorted, TotalPreorder, Merge;
    MergeInOrder(cmp, s[first..right], s[right..end]);
  }

  /** After both recursive calls each half of the range holds its own sorted items, so that
      merging them sorts the range. */
  lemma SortedHalves<T(!new)>(cmp: (T, T) -> int, s: seq<T>, t: seq<T>, u: seq<T>, first: nat, mid: nat, end: nat)
    requires first + 2 < end <= |s| && mid == first + (end - first - 1) / 2 + 1 && TotalPreorder(cmp)
    requires Replaced(s, t, first, mid, SortedRange(cmp, s, first, mid))
    requires Replaced(t, u, mid, end, SortedRange(cmp, t, mid, end))
    ensures Sorted(cmp, u[first..mid])
    ensures forall v :: Replaced(u, v, first, end, Merged(cmp, u, first, mid, end))
                    ==> Replaced(s, v, first, end, SortedRange(cmp, s, first, end))
  {
    BothReplaced(s, t, u, first, mid, end, SortedRange(cmp, s, first, mid), SortedRange(cmp, t, mid, end));
    MergeSortStable(cmp, s[first..mid]);
    SortedRangeSplits(cmp, s, first, mid, end);
  }

  lemma BothReplaced<T>(s: seq<T>, t: seq<T>, u: seq<T>, first: nat, mid: nat, end: nat, a: seq<T>, b: seq<T>)
    requires Replaced(s, t, first, mid, a) && Replaced(t, u, mid, end, b)
    ensures t[mid..end] == s[mid..end] && u[first..mid] == a && u[mid..end] == b
    ensures forall i :: 0 <= i < first || end <= i < |s| ==> u[i] == s[i]
  {
    forall i | 0 <= i < mid - first
      ensures u[first..mid][i] == a[i]
    {
      assert u[first + i] == t[first + i];
    }
    assert forall i :: mid <= i < |s| ==> t[i] == s[i];
  }

  lemma SortedRangeSplits<T>(cmp: (T, T) -> int, s: seq<T>, first: nat, mid: nat, end: nat)
    requires first + 2 < end <= |s| && mid == first + (end - first - 1) / 2 + 1
    ensures SortedRange(cmp, s, first, end)
         == Merge(cmp, SortedRange(cmp, s, first, mid), SortedRange(cmp, s, mid, end))
  {
    assert s[first..mid] == s[first..end][..mid - first] && s[mid..end] == s[first..end][mid - first..];
  }

  /** On two items the merge sort is one comparison and a swap. */
  lemma MergeSortPair<T>(cmp: (T, T) -> int, s: seq<T>)
    requires |s| == 2
    ensures MergeSort(cmp, s) == if cmp(s[0], s[1]) > 0 then [s[1], s[0]] else s
  {
    assert s[..1] == [s[0]] && s[1..] == [s[1]] && s == [s[0]] + [s[1]];
    assert MergeSort(cmp, s[..1]) == [s[0]] && MergeSort(cmp, s[1..]) == [s[1]];
    assert Merge(cmp, [s[0]], [s[1]]) == if cmp(s[0], s[1]) > 0 then [s[1]] + [s[0]] else [s[0]] + [s[1]];
  }
}
