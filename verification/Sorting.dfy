/** The user programs' sorts: quicksort in place with the pivot first, and merge sort through two
    buffers with positions counted from 1. */
module Sorting {
  predicate Sorted(s: seq<int>) {
    forall i, j | 0 <= i < j < |s| :: s[i] <= s[j]
  }

  /** `t` is `s` with only the positions of [lo, hi) permuted. */
  ghost predicate Permuted(s: seq<int>, t: seq<int>, lo: nat, hi: nat) {
    && lo <= hi <= |s| == |t|
    && s[..lo] == t[..lo] && s[hi..] == t[hi..] && multiset(s[lo..hi]) == multiset(t[lo..hi])
  }

  lemma InSlice(s: seq<int>, lo: nat, hi: nat, k: nat)
    requires lo <= k < hi <= |s|
    ensures s[lo..hi][k - lo] == s[k]
  {
  }

  lemma PermutedRefl(s: seq<int>, lo: nat, hi: nat)
    requires lo <= hi <= |s|
    ensures Permuted(s, s, lo, hi)
  {
  }

  lemma PermutedTrans(s: seq<int>, t: seq<int>, u: seq<int>, lo: nat, hi: nat)
    requires Permuted(s, t, lo, hi) && Permuted(t, u, lo, hi)
    ensures Permuted(s, u, lo, hi)
  {
  }

  lemma PermutedWider(s: seq<int>, t: seq<int>, lo: nat, hi: nat, lo': nat, hi': nat)
    requires lo' <= lo && hi <= hi' <= |s| && Permuted(s, t, lo, hi)
    ensures Permuted(s, t, lo', hi')
  {
    assert s[lo'..hi'] == s[lo'..lo] + s[lo..hi] + s[hi..hi'];
    assert t[lo'..hi'] == t[lo'..lo] + t[lo..hi] + t[hi..hi'];
    assert s[..lo'] == s[..lo][..lo'] && t[..lo'] == t[..lo][..lo'];
    assert s[lo'..lo] == s[..lo][lo'..] && t[lo'..lo] == t[..lo][lo'..];
    assert s[hi..hi'] == s[hi..][..hi' - hi] && t[hi..hi'] == t[hi..][..hi' - hi];
    assert s[hi'..] == s[hi..][hi' - hi..] && t[hi'..] == t[hi..][hi' - hi..];
  }

  /** Exchanging two positions of a range permutes it. */
  lemma PermutedSwap(s: seq<int>, t: seq<int>, lo: nat, hi: nat, i: nat, j: nat)
    requires lo <= i < hi <= |s| == |t| && lo <= j < hi
    requires t == s[i := s[j]][j := s[i]]
    ensures Permuted(s, t, lo, hi)
  {
    assert t[lo..hi] == s[lo..hi][i - lo := s[j]][j - lo := s[i]];
  }

  /** Permuting a range keeps what is true of each of its values. */
  lemma PermutedValues(s: seq<int>, t: seq<int>, lo: nat, hi: nat, k: nat) returns (k': nat)
    requires Permuted(s, t, lo, hi) && lo <= k < hi
    ensures lo <= k' < hi && s[k'] == t[k]
  {
    assert t[k] == t[lo..hi][k - lo];
    assert t[k] in multiset(s[lo..hi]);
    var d :| 0 <= d < hi - lo && s[lo..hi][d] == t[k];
    k' := lo + d;
  }

  lemma PermutedOutside(s: seq<int>, t: seq<int>, lo: nat, hi: nat, x: nat, y: nat)
    requires Permuted(s, t, lo, hi) && x <= y <= |s| && (y <= lo || hi <= x)
    ensures s[x..y] == t[x..y]
  {
    forall k | x <= k < y
      ensures s[k] == t[k]
    {
      if y <= lo {
        assert s[..lo][k] == t[..lo][k];
      } else {
        assert s[hi..][k - hi] == t[hi..][k - hi];
      }
    }
  }

  lemma PermutedByRange(t: seq<int>, m: seq<int>, u: seq<int>, lo: nat, hi: nat)
    requires lo <= hi <= |t| && |m| == hi - lo && multiset(m) == multiset(t[lo..hi])
    requires u == t[..lo] + m + t[hi..]
    ensures Permuted(t, u, lo, hi) && u[lo..hi] == m
  {
    assert u[lo..hi] == m && u[..lo] == t[..lo] && u[hi..] == t[hi..];
  }

  predicate AtLeast(s: seq<int>, v: int) {
    forall k | 0 <= k < |s| :: v <= s[k]
  }

  lemma SortedTail(s: seq<int>)
    requires Sorted(s) && s != []
    ensures Sorted(s[1..]) && AtLeast(s, s[0]) && AtLeast(s[1..], s[0])
  {
  }

  lemma AtLeastEqual(s: seq<int>, t: seq<int>, v: int)
    requires AtLeast(s, v) && multiset(t) <= multiset(s)
    ensures AtLeast(t, v)
  {
    forall k | 0 <= k < |t|
      ensures v <= t[k]
    {
      assert t[k] in multiset(t);
      assert t[k] in multiset(s);
      assert t[k] in s;
    }
  }

  /** A sorted arrangement of given values is unique. */
  lemma {:induction false} SortedUnique(s: seq<int>, t: seq<int>)
    requires Sorted(s) && Sorted(t) && multiset(s) == multiset(t)
    ensures s == t
  {
    hide Sorted;
    assert |s| == |multiset(s)| == |multiset(t)| == |t|;
    if s != [] {
      HeadsEqual(s, t);
      TailMultiset(s);
      TailMultiset(t);
      SortedTail(s);
      SortedTail(t);
      SortedUnique(s[1..], t[1..]);
      assert s == [s[0]] + s[1..] && t == [t[0]] + t[1..];
    }
  }

  lemma HeadsEqual(s: seq<int>, t: seq<int>)
    requires Sorted(s) && Sorted(t) && multiset(s) == multiset(t) && s != [] && t != []
    ensures s[0] == t[0]
  {
    hide Sorted;
    SortedTail(s);
    SortedTail(t);
    AtLeastEqual(s, t, s[0]);
    AtLeastEqual(t, s, t[0]);
  }

  lemma TailMultiset(s: seq<int>)
    requires s != []
    ensures multiset(s[1..]) == multiset(s) - multiset{s[0]}
  {
    assert s == [s[0]] + s[1..];
  }

  // ---- quicksort ----

  method Swap(a: array<int>, first: nat, second: nat, ghost was: seq<int>, ghost lo: nat, ghost hi: nat)
    requires lo <= first < hi <= a.Length && lo <= second < hi && Permuted(was, a[..], lo, hi)
    modifies a
    ensures a[first] == old(a[second]) && a[second] == old(a[first])
    ensures forall k | 0 <= k < a.Length && k != first && k != second :: a[k] == old(a[k])
    ensures Permuted(was, a[..], lo, hi)
  {
    hide Permuted;
    var tmp := a[first];
    a[first] := a[second];
    a[second] := tmp;
    PermutedSwap(old(a[..]), a[..], lo, hi, first, second);
    PermutedTrans(was, old(a[..]), a[..], lo, hi);
  }

  /** `j` is the pivot's place and everything from `j` to before `i` equals it. */
  ghost predicate Partitioned(s: seq<int>, lo: nat, hi: nat, j: nat, i: nat) {
    && lo <= j < i <= hi <= |s|
    && (forall k | lo <= k < j :: s[k] <= s[j])
    && (forall k | j < k < i :: s[k] == s[j])
    && (forall k | i <= k < hi :: s[j] <= s[k])
  }

  method Partition(a: array<int>, startIndex: nat, finalIndex: nat) returns (j: nat, i: nat)
    requires startIndex < finalIndex < a.Length
    modifies a
    ensures Permuted(old(a[..]), a[..], startIndex, finalIndex + 1)
    ensures Partitioned(a[..], startIndex, finalIndex + 1, j, i)
  {
    hide Permuted;
    ghost var was := a[..];
    PermutedRefl(was, startIndex, finalIndex + 1);
    ghost var pivot := a[startIndex];
    i, j := startIndex + 1, finalIndex;
    while i <= j
      invariant startIndex < i <= finalIndex + 1 && startIndex <= j <= finalIndex && a[startIndex] == pivot
      invariant forall k | startIndex < k < i :: a[k] <= pivot
      invariant forall k | j < k <= finalIndex :: pivot <= a[k]
      invariant Permuted(was, a[..], startIndex, finalIndex + 1)
      decreases j - i, if i <= j && a[i] > pivot then 1 else 0
    {
      while i <= finalIndex && a[startIndex] >= a[i]
        modifies {}
        invariant startIndex < i <= finalIndex + 1
        invariant forall k | startIndex < k < i :: a[k] <= pivot
      {
        i := i + 1;
      }
      while j > startIndex && a[startIndex] <= a[j]
        modifies {}
        invariant startIndex <= j <= finalIndex
        invariant forall k | j < k <= finalIndex :: pivot <= a[k]
      {
        j := j - 1;
      }
      if i <= j {
        Swap(a, i, j, was, startIndex, finalIndex + 1);
      }
    }
    Swap(a, startIndex, j, was, startIndex, finalIndex + 1);
  }

  /** Sorting both sides of a partitioned range sorts the range, the band between them included. */
  lemma SidesSorted(s: seq<int>, t: seq<int>, u: seq<int>, lo: nat, hi: nat, j: nat, i: nat)
    requires Partitioned(s, lo, hi, j, i)
    requires Permuted(s, t, lo, j) && Sorted(t[lo..j])
    requires Permuted(t, u, i, hi) && Sorted(u[i..hi])
    ensures Permuted(s, u, lo, hi) && Sorted(u[lo..hi])
  {
    PermutedWider(s, t, lo, j, lo, hi);
    PermutedWider(t, u, i, hi, lo, hi);
    PermutedTrans(s, t, u, lo, hi);
    assert forall k | lo <= k < j :: u[k] == t[lo..j][k - lo] by {
      assert forall k | lo <= k < j :: u[..i][k] == t[..i][k];
    }
    assert forall k | j <= k < i :: u[k] == s[k] by {
      assert forall k | j <= k < i :: u[..i][k] == t[..i][k] && t[j..][k - j] == s[j..][k - j];
    }
    forall k | lo <= k < j
      ensures u[k] <= s[j]
    {
      assert u[k] == t[k];
      var k' := PermutedValues(s, t, lo, j, k);
    }
    forall k | i <= k < hi
      ensures s[j] <= u[k]
    {
      var k' := PermutedValues(t, u, i, hi, k);
      assert t[j..][k' - j] == s[j..][k' - j];
    }
    forall x, y | lo <= x < y < hi
      ensures u[x] <= u[y]
    {
      if y < j {
        InSlice(t, lo, j, x);
        InSlice(t, lo, j, y);
      } else if i <= x {
        InSlice(u, i, hi, x);
        InSlice(u, i, hi, y);
      }
    }
  }

  method QSort(a: array<int>, startIndex: nat, finalIndex: int)
    requires startIndex <= finalIndex + 1 <= a.Length
    modifies a
    ensures Permuted(old(a[..]), a[..], startIndex, finalIndex + 1)
    ensures Sorted(a[startIndex..finalIndex + 1])
    decreases finalIndex + 1 - startIndex
  {
    if startIndex >= finalIndex {
      return;
    }
    ghost var was := a[..];
    var j, i := Partition(a, startIndex, finalIndex);
    ghost var s := a[..];
    QSort(a, startIndex, (j as int) - 1);
    ghost var t := a[..];
    QSort(a, i, finalIndex);
    SidesSorted(s, t, a[..], startIndex, finalIndex + 1, j, i);
    PermutedTrans(was, s, a[..], startIndex, finalIndex + 1);
  }

  method QuickSort(a: array<int>)
    modifies a
    ensures Sorted(a[..]) && multiset(a[..]) == multiset(old(a[..]))
  {
    QSort(a, 0, a.Length - 1);
    assert a[0..a.Length] == a[..] && old(a[..])[0..a.Length] == old(a[..]);
  }

  // ---- merge sort ----

  /** The merge of two lists; the right one goes first on a tie. */
  function Merged(l: seq<int>, r: seq<int>): seq<int>
    decreases |l| + |r|
  {
    if l == [] then r
    else if r == [] then l
    else if l[0] < r[0] then [l[0]] + Merged(l[1..], r)
    else [r[0]] + Merged(l, r[1..])
  }

  lemma {:induction false} MergedPermutes(l: seq<int>, r: seq<int>)
    ensures multiset(Merged(l, r)) == multiset(l) + multiset(r)
    decreases |l| + |r|
  {
    if l == [] || r == [] {
    } else if l[0] < r[0] {
      MergedPermutes(l[1..], r);
      assert l == [l[0]] + l[1..];
    } else {
      MergedPermutes(l, r[1..]);
      assert r == [r[0]] + r[1..];
    }
  }

  lemma {:induction false} MergedLength(l: seq<int>, r: seq<int>)
    ensures |Merged(l, r)| == |l| + |r|
  {
    MergedPermutes(l, r);
    assert |Merged(l, r)| == |multiset(Merged(l, r))| == |multiset(l) + multiset(r)| == |l| + |r|;
  }

  lemma {:induction false} MergedAbove(l: seq<int>, r: seq<int>, v: int)
    requires AtLeast(l, v) && AtLeast(r, v)
    ensures AtLeast(Merged(l, r), v)
  {
    MergedPermutes(l, r);
    assert multiset(l + r) == multiset(l) + multiset(r);
    AtLeastEqual(l + r, Merged(l, r), v);
  }

  lemma {:induction false} MergedSorted(l: seq<int>, r: seq<int>)
    requires Sorted(l) && Sorted(r)
    ensures Sorted(Merged(l, r))
    decreases |l| + |r|
  {
    hide Sorted, AtLeast;
    if l == [] || r == [] {
    } else {
      SortedTail(l);
      SortedTail(r);
      if l[0] < r[0] {
        MergedSorted(l[1..], r);
        AtLeastLess(r, r[0], l[0]);
        MergedAbove(l[1..], r, l[0]);
        SortedCons(l[0], Merged(l[1..], r));
      } else {
        MergedSorted(l, r[1..]);
        AtLeastLess(l, l[0], r[0]);
        MergedAbove(l, r[1..], r[0]);
        SortedCons(r[0], Merged(l, r[1..]));
      }
    }
  }

  lemma SortedCons(v: int, s: seq<int>)
    requires Sorted(s) && AtLeast(s, v)
    ensures Sorted([v] + s)
  {
  }

  lemma AtLeastLess(s: seq<int>, v: int, v': int)
    requires AtLeast(s, v) && v' <= v
    ensures AtLeast(s, v')
  {
  }

  /** The value that the merge loop takes next, and the rest of the merge. */
  lemma MergeStep(l: seq<int>, r: seq<int>, i: nat, j: nat, all: seq<int>)
    requires i <= |l| && j <= |r| && i + j < |l| + |r| == |all|
    requires Merged(l[i..], r[j..]) == all[i + j..]
    ensures if i < |l| && (j == |r| || l[i] < r[j])
            then all[i + j] == l[i] && Merged(l[i + 1..], r[j..]) == all[i + j + 1..]
            else all[i + j] == r[j] && Merged(l[i..], r[j + 1..]) == all[i + j + 1..]
  {
    assert all[i + j] == all[i + j..][0] && all[i + j + 1..] == all[i + j..][1..];
    if i < |l| {
      assert l[i..][1..] == l[i + 1..];
    }
    if j < |r| {
      assert r[j..][1..] == r[j + 1..];
    }
  }

  method Copy(a: array<int>, from: nat, capacity: nat) returns (buffer: array<int>)
    requires from + capacity <= a.Length
    ensures fresh(buffer) && buffer[..] == a[from..from + capacity]
  {
    buffer := new int[capacity];
    for i := 0 to capacity
      invariant forall x | 0 <= x < i :: buffer[x] == a[from + x]
    {
      buffer[i] := a[from + i];
    }
  }

  /** `t` is `s` with the ranges [lo, mid) and [mid, hi) merged. */
  predicate MergedHalves(s: seq<int>, t: seq<int>, lo: nat, mid: nat, hi: nat) {
    && lo <= mid <= hi <= |s|
    && t == s[..lo] + Merged(s[lo..mid], s[mid..hi]) + s[hi..]
  }

  lemma MergedHalvesAt(s: seq<int>, t: seq<int>, lo: nat, mid: nat, hi: nat)
    requires lo <= mid <= hi <= |s| == |t| && |Merged(s[lo..mid], s[mid..hi])| == hi - lo
    requires forall x | 0 <= x < hi - lo :: t[lo + x] == Merged(s[lo..mid], s[mid..hi])[x]
    requires forall x | 0 <= x < |s| && (x < lo || hi <= x) :: t[x] == s[x]
    ensures MergedHalves(s, t, lo, mid, hi)
  {
    hide Merged;
    var m := Merged(s[lo..mid], s[mid..hi]);
    var u := s[..lo] + m + s[hi..];
    forall x | 0 <= x < |t|
      ensures t[x] == u[x]
    {
      if lo <= x < hi {
        assert t[lo + (x - lo)] == m[x - lo];
      }
    }
  }

  /** The merge loop: position by position, the range becomes the merge of the two buffers. */
  method MergeInto(a: array<int>, p: nat, r: nat, left: array<int>, right: array<int>)
    requires 1 <= p <= r <= a.Length && left.Length + right.Length == r - p + 1 && a != left && a != right
    modifies a
    ensures |Merged(left[..], right[..])| == r - p + 1
    ensures forall x | 0 <= x <= r - p :: a[p - 1 + x] == Merged(left[..], right[..])[x]
    ensures forall x | 0 <= x < a.Length && (x < p - 1 || r <= x) :: a[x] == old(a[x])
  {
    hide Merged;
    var leftIndex, rightIndex := 0, 0;
    ghost var l, rr := left[..], right[..];
    ghost var all := Merged(l, rr);
    MergedLength(l, rr);
    for k := p to r + 1
      modifies a
      invariant leftIndex <= left.Length && rightIndex <= right.Length && leftIndex + rightIndex == k - p
      invariant Merged(l[leftIndex..], rr[rightIndex..]) == all[k - p..]
      invariant forall x | 0 <= x < k - p :: a[p - 1 + x] == all[x]
      invariant forall x | 0 <= x < a.Length && (x < p - 1 || r <= x) :: a[x] == old(a[x])
    {
      MergeStep(l, rr, leftIndex, rightIndex, all);
      if leftIndex < left.Length && rightIndex < right.Length {
        if left[leftIndex] < right[rightIndex] {
          a[k - 1] := left[leftIndex];
          leftIndex := leftIndex + 1;
        } else {
          a[k - 1] := right[rightIndex];
          rightIndex := rightIndex + 1;
        }
      } else if leftIndex < left.Length {
        a[k - 1] := left[leftIndex];
        leftIndex := leftIndex + 1;
      } else {
        a[k - 1] := right[rightIndex];
        rightIndex := rightIndex + 1;
      }
    }
  }

  method Merge(a: array<int>, p: nat, q: nat, r: nat)
    requires 1 <= p <= q < r <= a.Length
    modifies a
    ensures MergedHalves(old(a[..]), a[..], p - 1, q, r)
  {
    hide Merged;
    var leftCapacity, rightCapacity := q - p + 1, r - q;
    var left := Copy(a, p - 1, leftCapacity);
    var right := Copy(a, q, rightCapacity);
    ghost var was := a[..];
    assert left[..] == was[p - 1..q] && right[..] == was[q..r];
    MergeInto(a, p, r, left, right);
    MergedHalvesAt(was, a[..], p - 1, q, r);
  }

  method MSort(a: array<int>, p: nat, r: nat)
    requires 1 <= p <= r + 1 <= a.Length + 1
    modifies a
    ensures Permuted(old(a[..]), a[..], p - 1, r) && Sorted(a[p - 1..r])
    decreases r + 1 - p
  {
    if p >= r {
      return;
    }
    hide Permuted, Merged, Sorted, MergedHalves;
    var q := (p + r) / 2;
    ghost var was := a[..];
    MSort(a, p, q);
    ghost var s := a[..];
    MSort(a, q + 1, r);
    ghost var t := a[..];
    Merge(a, p, q, r);
    HalvesMerged(was, s, t, a[..], p - 1, q, r);
  }

  lemma HalvesMerged(was: seq<int>, s: seq<int>, t: seq<int>, u: seq<int>, lo: nat, mid: nat, hi: nat)
    requires Permuted(was, s, lo, mid) && Sorted(s[lo..mid])
    requires Permuted(s, t, mid, hi) && Sorted(t[mid..hi])
    requires MergedHalves(t, u, lo, mid, hi)
    ensures Permuted(was, u, lo, hi) && Sorted(u[lo..hi])
  {
    hide Permuted, Merged, Sorted;
    PermutedInRange(was, s, lo, mid);
    PermutedInRange(s, t, mid, hi);
    PermutedWider(was, s, lo, mid, lo, hi);
    PermutedWider(s, t, mid, hi, lo, hi);
    PermutedTrans(was, s, t, lo, hi);
    PermutedOutside(s, t, mid, hi, lo, mid);
    var m := Merged(t[lo..mid], t[mid..hi]);
    MergedSorted(t[lo..mid], t[mid..hi]);
    MergedPermutes(t[lo..mid], t[mid..hi]);
    MergedLength(t[lo..mid], t[mid..hi]);
    assert t[lo..hi] == t[lo..mid] + t[mid..hi];
    PermutedByRange(t, m, u, lo, hi);
    PermutedTrans(was, t, u, lo, hi);
  }

  lemma PermutedInRange(s: seq<int>, t: seq<int>, lo: nat, hi: nat)
    requires Permuted(s, t, lo, hi)
    ensures lo <= hi <= |s| == |t|
  {
  }

  /** The two sorts agree on every input. */
  method SortBoth(a: array<int>, b: array<int>)
    requires a != b && a[..] == b[..]
    modifies a, b
    ensures a[..] == b[..] && Sorted(a[..]) && multiset(a[..]) == multiset(old(a[..]))
  {
    QuickSort(a);
    MSort(b, 1, b.Length);
    assert b[0..b.Length] == b[..] && old(b[..])[0..b.Length] == old(b[..]);
    SortedUnique(a[..], b[..]);
  }
}
