/** Integer sets as sorted arrays (_int_tool.c): the in-place bubble sort that
    also spots duplicates, the in-place removal of duplicates, and the merge
    loops for containment, overlap and union. */
module IntSets {
  import opened Int32
  import opened IntArrays
  import opened IntRanges

  ghost predicate Sorted(s: seq<int>) {
    forall i, j :: 0 <= i < j < |s| ==> s[i] <= s[j]
  }

  lemma {:induction false} StrictIsSorted(s: seq<int>)
    requires StrictlySorted(s)
    ensures Sorted(s)
  {
  }

  ghost predicate HasDuplicate(s: seq<int>) {
    exists i, j :: 0 <= i < j < |s| && s[i] == s[j]
  }

  // ---------------------------------------------------------------- isort

  /** From m on the array is in its final order. */
  ghost predicate Settled(s: seq<int>, m: int) {
    forall i, j :: 0 <= i < j < |s| && m <= j ==> s[i] <= s[j]
  }

  /** Nothing before k exceeds s[k]. */
  ghost predicate Peak(s: seq<int>, k: int) {
    0 <= k < |s| && forall i :: 0 <= i < k ==> s[i] <= s[k]
  }

  ghost function Swapped(s: seq<int>, i: int): seq<int>
    requires 0 < i < |s|
  {
    s[i - 1 := s[i]][i := s[i - 1]]
  }

  lemma {:induction false} SwapPermutes(s: seq<int>, i: int)
    requires 0 < i < |s|
    ensures multiset(Swapped(s, i)) == multiset(s)
  {
    assert s == s[..i - 1] + [s[i - 1]] + [s[i]] + s[i + 1..];
    assert Swapped(s, i) == s[..i - 1] + [s[i]] + [s[i - 1]] + s[i + 1..];
  }

  lemma {:induction false} DuplicateCounts(s: seq<int>) returns (x: int)
    requires HasDuplicate(s)
    ensures multiset(s)[x] >= 2
  {
    var i, j :| 0 <= i < j < |s| && s[i] == s[j];
    x := s[i];
    assert s == s[..i] + [x] + s[i + 1..j] + [x] + s[j + 1..];
  }

  lemma {:induction false} CountsDuplicate(t: seq<int>, x: int)
    requires multiset(t)[x] >= 2
    ensures HasDuplicate(t)
  {
    var k :| 0 <= k < |t| && t[k] == x;
    assert t == t[..k] + [x] + t[k + 1..];
    if x in t[..k] {
      var l :| 0 <= l < k && t[l] == x;
    } else {
      assert x in t[k + 1..];
      var l :| 0 <= l < |t[k + 1..]| && t[k + 1..][l] == x;
      assert t[k + 1 + l] == x;
    }
  }

  lemma {:induction false} DuplicatePermutes(s: seq<int>, t: seq<int>)
    requires multiset(s) == multiset(t) && HasDuplicate(s)
    ensures HasDuplicate(t)
  {
    hide HasDuplicate;
    var x := DuplicateCounts(s);
    CountsDuplicate(t, x);
  }

  /** What holds between the steps of one pass over s, which had been permuted
      to s from the input; m is where the settled tail begins. */
  ghost predicate Passing(s: seq<int>, cur: int, m: int, index: bool, r: bool) {
    && 1 <= cur <= |s| && 0 <= m <= |s| && Settled(s, m) && Peak(s, cur - 1)
    && (index ==> 2 <= m) && (m <= cur && 0 < m ==> Peak(s, m - 1))
    && (!index ==> forall i :: 0 < i < cur ==> s[i - 1] <= s[i])
    && (!index && !r ==> forall i :: 0 < i < cur ==> s[i - 1] < s[i])
    && (r ==> HasDuplicate(s))
  }

  lemma {:induction false} PassSwap(s: seq<int>, cur: int, m: int, index: bool, r: bool)
    requires Passing(s, cur, m, index, r) && cur < |s| && s[cur - 1] > s[cur]
    ensures Passing(Swapped(s, cur), cur + 1, m, true, r)
  {
    var t := Swapped(s, cur);
    SwapPermutes(s, cur);
    if r { DuplicatePermutes(s, t); }
    assert cur < m;
    assert Settled(t, m);
    assert Peak(t, cur);
  }

  lemma {:induction false} PassKeep(s: seq<int>, cur: int, m: int, index: bool, r: bool)
    requires Passing(s, cur, m, index, r) && cur < |s| && s[cur - 1] <= s[cur]
    ensures Passing(s, cur + 1, m, index, r || s[cur - 1] == s[cur])
  {
    assert Peak(s, cur);
  }

  /** One pass of the bubble sort. */
  method Pass(a: array<int>, was: bool, ghost m: int) returns (r: bool, index: bool)
    requires a.Length >= 2 && 0 <= m <= a.Length && Settled(a[..], m) && (was ==> HasDuplicate(a[..]))
    modifies a
    ensures multiset(a[..]) == multiset(old(a[..])) && Passing(a[..], a.Length, m, index, r)
  {
    hide Passing, Settled, Swapped, HasDuplicate;
    r, index := was, false;
    var cur := 1;
    PassStart(a[..], m, r);
    while cur < a.Length
      invariant 1 <= cur <= a.Length && Passing(a[..], cur, m, index, r)
      invariant multiset(a[..]) == multiset(old(a[..]))
    {
      ghost var s := a[..];
      if a[cur - 1] > a[cur] {
        PassSwap(s, cur, m, index, r);
        SwapPermutes(s, cur);
        Swap(a, cur);
        index := true;
      } else {
        PassKeep(s, cur, m, index, r);
        if !r && a[cur - 1] == a[cur] {
          r := true;
        }
      }
      cur := cur + 1;
    }
  }

  method Swap(a: array<int>, cur: int)
    requires 0 < cur < a.Length
    modifies a
    ensures a[..] == Swapped(old(a[..]), cur)
  {
    var tmp := a[cur - 1];
    a[cur - 1] := a[cur];
    a[cur] := tmp;
  }

  lemma {:induction false} PassStart(s: seq<int>, m: int, r: bool)
    requires |s| >= 2 && 0 <= m <= |s| && Settled(s, m) && (r ==> HasDuplicate(s))
    ensures Passing(s, 1, m, false, r)
  {
  }

  lemma {:induction false} PassEnd(s: seq<int>, m: int, index: bool, r: bool)
    requires Passing(s, |s|, m, index, r)
    ensures index ==> 2 <= m && Settled(s, m - 1)
    ensures !index ==> Sorted(s) && r == HasDuplicate(s)
    ensures r ==> HasDuplicate(s)
  {
    if !index {
      StepsSort(s);
      if !r {
        forall i, j | 0 <= i < j < |s| ensures s[i] < s[j] {
          assert s[j - 1] < s[j] && s[i] <= s[j - 1];
        }
      }
    }
  }

  lemma {:induction false} StepsSort(s: seq<int>)
    requires forall i :: 0 < i < |s| ==> s[i - 1] <= s[i]
    ensures Sorted(s)
  {
    forall i, j | 0 <= i < j < |s| ensures s[i] <= s[j] {
      Climb(s, i, j);
    }
  }

  lemma {:induction false} Climb(s: seq<int>, i: nat, j: nat)
    requires i <= j < |s| && forall k :: 0 < k < |s| ==> s[k - 1] <= s[k]
    ensures s[i] <= s[j]
    decreases j
  {
    if i < j {
      Climb(s, i, j - 1);
      assert s[j - 1] <= s[j];
    }
  }

  /** `isort`: a sorted permutation, and whether any element occurs twice. */
  method Isort(a: array<int>) returns (r: bool)
    requires a.Length >= 2
    modifies a
    ensures Sorted(a[..]) && multiset(a[..]) == multiset(old(a[..]))
    ensures r <==> HasDuplicate(old(a[..]))
  {
    hide Passing, Settled, Sorted, HasDuplicate;
    ghost var was := a[..];
    ghost var m := a.Length;
    r := false;
    var index := true;
    NothingSettled(a[..]);
    while index
      invariant 0 <= m <= a.Length && Settled(a[..], m) && multiset(a[..]) == multiset(was)
      invariant r ==> HasDuplicate(a[..])
      invariant !index ==> Sorted(a[..]) && r == HasDuplicate(a[..])
      decreases m, index
    {
      r, index := Pass(a, r, m);
      PassEnd(a[..], m, index, r);
      PassSettled(a[..], m, index, r);
      if index { m := m - 1; }
    }
    SameDuplicates(a[..], was);
  }

  lemma {:induction false} PassSettled(s: seq<int>, m: int, index: bool, r: bool)
    requires Passing(s, |s|, m, index, r)
    ensures Settled(s, m)
  {
  }

  lemma {:induction false} NothingSettled(s: seq<int>)
    ensures Settled(s, |s|)
  {
  }

  lemma {:induction false} SameDuplicates(s: seq<int>, t: seq<int>)
    requires multiset(s) == multiset(t)
    ensures HasDuplicate(s) <==> HasDuplicate(t)
  {
    if HasDuplicate(s) { DuplicatePermutes(s, t); }
    if HasDuplicate(t) { DuplicatePermutes(t, s); }
  }

  // ------------------------------------------------------- _int_unique

  /** What stands at the front of the array while its first n elements have
      been read: the same set, strictly increasing, ending alike. */
  ghost predicate Uniqued(u: seq<int>, s: seq<int>) {
    u != [] && s != [] && StrictlySorted(u) && Elems(u) == Elems(s) && u[|u| - 1] == s[|s| - 1]
  }

  lemma {:induction false} UniqueStep(u: seq<int>, s: seq<int>, x: int)
    requires Uniqued(u, s) && Sorted(s + [x])
    ensures Uniqued(if x == u[|u| - 1] then u else u + [x], s + [x])
  {
    var t := s + [x];
    assert Elems(t) == Elems(s) + {x};
    assert t[|s| - 1] <= t[|s|];
    if x != u[|u| - 1] {
      forall y | y in Elems(u) ensures y < x {
        var i :| 0 <= i < |u| && u[i] == y;
        assert u[i] <= u[|u| - 1];
      }
      AppendLarger(u, x);
    }
  }

  /** `_int_unique`: keeps one of each element, in place, at the front. */
  method Unique(a: array<int>) returns (n: int)
    requires Sorted(a[..])
    modifies a
    ensures 0 <= n <= a.Length && StrictlySorted(a[..n]) && Elems(a[..n]) == Elems(old(a[..]))
  {
    if a.Length < 2 {
      assert a[..a.Length] == a[..];
      return a.Length;
    }
    hide Elems, StrictlySorted, Uniqued, Sorted;
    ghost var s := a[..];
    var tmp, dr := 0, 0;
    UniqueFirst(s);
    assert a[..1] == s[..1];
    while tmp < a.Length
      invariant 0 <= tmp <= a.Length && 0 <= dr <= tmp && (0 < tmp ==> dr < tmp)
      invariant Uniqued(a[..dr + 1], s[..if tmp == 0 then 1 else tmp]) && a[tmp..] == s[tmp..]
    {
      dr := UniqueOne(a, tmp, dr, s);
      tmp := tmp + 1;
    }
    assert s[..tmp] == s;
    UniquedMeans(a[..dr + 1], s);
    return dr + 1;
  }

  /** One element looked at. */
  method UniqueOne(a: array<int>, tmp: int, dr: int, ghost s: seq<int>) returns (dr': int)
    requires a.Length == |s| && 0 <= dr <= tmp < a.Length && (0 < tmp ==> dr < tmp) && Sorted(s)
    requires Uniqued(a[..dr + 1], s[..if tmp == 0 then 1 else tmp]) && a[tmp..] == s[tmp..]
    modifies a
    ensures 0 <= dr' <= tmp && Uniqued(a[..dr' + 1], s[..tmp + 1]) && a[tmp + 1..] == s[tmp + 1..]
  {
    hide Elems, StrictlySorted, Uniqued, Sorted;
    dr' := dr;
    assert a[tmp] == a[tmp..][0] == s[tmp] && a[..dr + 1][dr] == a[dr];
    if tmp > 0 {
      UniqueNext(a[..dr + 1], s, tmp);
    }
    if a[tmp] != a[dr] {
      dr' := dr + 1;
      Keep(a, dr', tmp);
    }
    DropOne(a[tmp..], s[tmp..], a[..], s, tmp + 1);
  }

  /** The element is copied behind those kept. */
  method Keep(a: array<int>, dr: int, tmp: int)
    requires 0 <= dr <= tmp < a.Length
    modifies a
    ensures a[..dr + 1] == old(a[..dr]) + [old(a[tmp])] && a[tmp..] == old(a[tmp..])
  {
    a[dr] := a[tmp];
  }

  lemma {:induction false} DropOne(t: seq<int>, u: seq<int>, a: seq<int>, s: seq<int>, k: nat)
    requires 0 < k <= |a| == |s| && t == a[k - 1..] && u == s[k - 1..] && t == u
    ensures a[k..] == s[k..]
  {
    assert a[k..] == t[1..] && s[k..] == u[1..];
  }

  lemma {:induction false} UniqueNext(u: seq<int>, s: seq<int>, tmp: nat)
    requires Sorted(s) && 0 < tmp < |s| && Uniqued(u, s[..tmp])
    ensures u != [] && Uniqued(if s[tmp] == u[|u| - 1] then u else u + [s[tmp]], s[..tmp + 1])
  {
    hide Elems, StrictlySorted;
    SortedPrefix(s, tmp + 1);
    assert s[..tmp + 1] == s[..tmp] + [s[tmp]];
    UniqueStep(u, s[..tmp], s[tmp]);
  }

  lemma {:induction false} UniqueFirst(s: seq<int>)
    requires |s| > 0
    ensures Uniqued(s[..1], s[..1])
  {
  }

  lemma {:induction false} SortedPrefix(s: seq<int>, n: nat)
    requires Sorted(s) && n <= |s|
    ensures Sorted(s[..n])
  {
  }

  lemma {:induction false} UniquedMeans(u: seq<int>, s: seq<int>)
    requires Uniqued(u, s)
    ensures StrictlySorted(u) && Elems(u) == Elems(s)
  {
  }

  lemma {:induction false} SameElems(s: seq<int>, t: seq<int>)
    requires multiset(s) == multiset(t)
    ensures Elems(s) == Elems(t)
  {
    assert forall x :: x in s <==> x in multiset(s);
    assert forall x :: x in t <==> x in multiset(t);
  }

  lemma {:induction false} NoDuplicateStrict(s: seq<int>)
    requires Sorted(s) && !HasDuplicate(s)
    ensures StrictlySorted(s)
  {
  }

  /** PREPAREARR: the strictly increasing listing of the elements. */
  method PrepareArr(x: seq<int>) returns (r: seq<int>)
    ensures StrictlySorted(r) && Elems(r) == Elems(x)
  {
    if |x| <= 1 {
      return x;
    }
    hide Elems, StrictlySorted, Sorted, HasDuplicate;
    var a := new int[|x|](i requires 0 <= i < |x| => x[i]);
    assert a[..] == x;
    var duplicates := Isort(a);
    SameElems(a[..], x);
    SameDuplicates(a[..], x);
    if duplicates {
      var n := Unique(a);
      return a[..n];
    }
    NoDuplicateStrict(a[..]);
    return a[..];
  }

  // ------------------------------------------------------- the merge loops

  ghost predicate IsContained(b: seq<int>, a: seq<int>) {
    a != [] && b != [] && Elems(b) <= Elems(a)
  }

  /** `inner_int_contains` */
  method InnerContains(a: seq<int>, b: seq<int>) returns (r: bool)
    requires StrictlySorted(a) && StrictlySorted(b)
    ensures r <==> IsContained(b, a)
  {
    if a == [] || b == [] {
      return false;
    }
    var i, j, n := 0, 0, 0;
    while i < |a| && j < |b|
      invariant 0 <= i <= |a| && 0 <= j <= |b| && n == j
      invariant forall k :: 0 <= k < j ==> b[k] in a
      invariant j < |b| ==> forall k :: 0 <= k < i ==> a[k] < b[j]
    {
      if a[i] < b[j] {
        i := i + 1;
      } else if a[i] == b[j] {
        n, i, j := n + 1, i + 1, j + 1;
      } else {
        break;
      }
    }
    if n < |b| {
      assert b[j] !in a;
      assert b[j] in Elems(b);
    }
    return n == |b|;
  }

  /** `inner_int_overlap` */
  method InnerOverlap(a: seq<int>, b: seq<int>) returns (r: bool)
    requires Sorted(a) && Sorted(b)
    ensures r <==> Elems(a) * Elems(b) != {}
  {
    if a == [] || b == [] {
      return false;
    }
    var i, j := 0, 0;
    while i < |a| && j < |b|
      invariant 0 <= i <= |a| && 0 <= j <= |b|
      invariant forall k :: 0 <= k < i ==> a[k] !in b
      invariant forall k :: 0 <= k < j ==> b[k] !in a
    {
      if a[i] < b[j] {
        forall k | 0 <= k < |b| ensures a[i] != b[k] {
          if k < j { assert b[k] !in a; }
        }
        i := i + 1;
      } else if a[i] == b[j] {
        assert a[i] in Elems(a) * Elems(b);
        return true;
      } else {
        forall k | 0 <= k < |a| ensures b[j] != a[k] {
          if k < i { assert a[k] !in b; }
        }
        j := j + 1;
      }
    }
    return false;
  }

  /** `inner_int_union`: the block is for the elements of both. */
  method InnerUnion(a: seq<int>, b: seq<int>) returns (out: Ending)
    requires Sorted(a) && Sorted(b)
    ensures Allotted(|a| + |b|, out)
    ensures out.Key? ==> StrictlySorted(out.elems) && Elems(out.elems) == Elems(a) + Elems(b)
  {
    hide Granted, Sized, Elems, Sorted, StrictlySorted;
    var cells := Allocate(Wrap(|a| + |b|), |a| + |b|);
    SizedGranted(|a| + |b|);
    if cells.None? {
      return TooBig;
    }
    if cells.value < |a| + |b| {
      return Overrun;
    }
    var r := UnionOf(a, b);
    return Key(r);
  }

  method UnionOf(a: seq<int>, b: seq<int>) returns (r: seq<int>)
    requires Sorted(a) && Sorted(b)
    ensures StrictlySorted(r) && Elems(r) == Elems(a) + Elems(b)
  {
    if a == [] && b == [] {
      return [];
    }
    if a == [] {
      r := b;
    } else if b == [] {
      r := a;
    } else {
      r := UnionMerge(a, b);
    }
    if |r| > 1 {
      hide Elems;
      var arr := new int[|r|](i requires 0 <= i < |r| => r[i]);
      assert arr[..] == r;
      var n := Unique(arr);
      r := arr[..n];
    }
  }

  ghost predicate Merged(r: seq<int>, a: seq<int>, b: seq<int>, i: int, j: int) {
    && 0 <= i <= |a| && 0 <= j <= |b| && Sorted(r) && Elems(r) == Elems(a[..i]) + Elems(b[..j])
    && (i < |a| ==> forall x :: x in Elems(r) ==> x <= a[i])
    && (j < |b| ==> forall x :: x in Elems(r) ==> x <= b[j])
  }

  /** Elements that both have are written once, others as often as they occur. */
  method UnionMerge(a: seq<int>, b: seq<int>) returns (r: seq<int>)
    requires Sorted(a) && Sorted(b)
    ensures Sorted(r) && Elems(r) == Elems(a) + Elems(b)
  {
    hide Elems, Sorted, Merged;
    var i, j := 0, 0;
    r := [];
    MergeNone(a, b);
    while i < |a| && j < |b|
      invariant Merged(r, a, b, i, j) && 0 <= i <= |a| && 0 <= j <= |b|
    {
      MergeOne(r, a, b, i, j);
      if a[i] == b[j] {
        r := r + [a[i]];
        i, j := i + 1, j + 1;
      } else if a[i] < b[j] {
        r := r + [a[i]];
        i := i + 1;
      } else {
        r := r + [b[j]];
        j := j + 1;
      }
    }
    while i < |a|
      invariant Merged(r, a, b, i, j) && 0 <= i <= |a| && 0 <= j <= |b| && (i < |a| ==> j == |b|)
    {
      MergeOne(r, a, b, i, j);
      r := r + [a[i]];
      i := i + 1;
    }
    while j < |b|
      invariant Merged(r, a, b, i, j) && i == |a| && 0 <= j <= |b|
    {
      MergeOne(r, a, b, i, j);
      r := r + [b[j]];
      j := j + 1;
    }
    MergeAll(r, a, b);
  }

  lemma {:induction false} MergeNone(a: seq<int>, b: seq<int>)
    ensures Merged([], a, b, 0, 0)
  {
  }

  lemma {:induction false} MergeAll(r: seq<int>, a: seq<int>, b: seq<int>)
    requires Merged(r, a, b, |a|, |b|)
    ensures Sorted(r) && Elems(r) == Elems(a) + Elems(b)
  {
    assert a[..|a|] == a && b[..|b|] == b;
  }

  lemma {:induction false} MergeOne(r: seq<int>, a: seq<int>, b: seq<int>, i: int, j: int)
    requires Sorted(a) && Sorted(b) && Merged(r, a, b, i, j)
    ensures i < |a| && (j < |b| ==> a[i] < b[j]) ==> Merged(r + [a[i]], a, b, i + 1, j)
    ensures j < |b| && (i < |a| ==> b[j] < a[i]) ==> Merged(r + [b[j]], a, b, i, j + 1)
    ensures i < |a| && j < |b| && a[i] == b[j] ==> Merged(r + [a[i]], a, b, i + 1, j + 1)
  {
    hide Elems;
    if i < |a| && (j < |b| ==> a[i] < b[j]) { MergeFirst(r, a, b, i, j); }
    if j < |b| && (i < |a| ==> b[j] < a[i]) { MergeSecond(r, a, b, i, j); }
    if i < |a| && j < |b| && a[i] == b[j] { MergeBoth(r, a, b, i, j); }
  }

  lemma {:induction false} MergeFirst(r: seq<int>, a: seq<int>, b: seq<int>, i: int, j: int)
    requires Sorted(a) && Merged(r, a, b, i, j) && i < |a| && (j < |b| ==> a[i] < b[j])
    ensures Merged(r + [a[i]], a, b, i + 1, j)
  {
    AppendSorted(r, a[i]);
    TakeOne(a, i);
    hide Elems;
  }

  lemma {:induction false} MergeSecond(r: seq<int>, a: seq<int>, b: seq<int>, i: int, j: int)
    requires Sorted(b) && Merged(r, a, b, i, j) && j < |b| && (i < |a| ==> b[j] < a[i])
    ensures Merged(r + [b[j]], a, b, i, j + 1)
  {
    AppendSorted(r, b[j]);
    TakeOne(b, j);
    hide Elems;
  }

  lemma {:induction false} MergeBoth(r: seq<int>, a: seq<int>, b: seq<int>, i: int, j: int)
    requires Sorted(a) && Sorted(b) && Merged(r, a, b, i, j) && i < |a| && j < |b| && a[i] == b[j]
    ensures Merged(r + [a[i]], a, b, i + 1, j + 1)
  {
    AppendSorted(r, a[i]);
    TakeOne(a, i);
    TakeOne(b, j);
    hide Elems;
  }

  lemma {:induction false} AppendSorted(s: seq<int>, j: int)
    requires Sorted(s) && forall x :: x in Elems(s) ==> x <= j
    ensures Sorted(s + [j]) && Elems(s + [j]) == Elems(s) + {j}
  {
    forall k | 0 <= k < |s| ensures s[k] <= j {
      assert s[k] in Elems(s);
    }
  }

  lemma {:induction false} TakeOne(a: seq<int>, i: nat)
    requires i < |a|
    ensures Elems(a[..i + 1]) == Elems(a[..i]) + {a[i]}
  {
    assert a[..i + 1] == a[..i] + [a[i]];
  }

  // ------------------------------------------------------------- listings

  /** The strictly increasing listing of a set. */
  ghost function Listing(s: set<int>): (a: seq<int>)
    ensures StrictlySorted(a) && Elems(a) == s
  {
    if s == {} then []
    else
      Greatest(s);
      var m :| IsGreatest(m, s);
      ListNext(Listing(s - {m}), m, s);
      Listing(s - {m}) + [m]
  }

  ghost predicate IsGreatest(m: int, s: set<int>) {
    m in s && forall x :: x in s ==> x <= m
  }

  lemma {:induction false} Greatest(s: set<int>)
    requires s != {}
    ensures exists m :: IsGreatest(m, s)
  {
    var x := Pick(s);
    if s - {x} == {} {
      assert s == {x};
      assert IsGreatest(x, s);
    } else {
      Greatest(s - {x});
      var m :| IsGreatest(m, s - {x});
      forall y | y in s ensures y <= if m < x then x else m {
        assert y == x || y in s - {x};
      }
      assert IsGreatest(if m < x then x else m, s);
    }
  }

  lemma {:induction false} ListNext(a: seq<int>, m: int, s: set<int>)
    requires StrictlySorted(a) && Elems(a) == s - {m} && IsGreatest(m, s)
    ensures StrictlySorted(a + [m]) && Elems(a + [m]) == s
  {
    AppendLarger(a, m);
    assert s - {m} + {m} == s;
  }

  /** There is only one. */
  lemma {:induction false} OneListing(a: seq<int>, b: seq<int>)
    requires StrictlySorted(a) && StrictlySorted(b) && Elems(a) == Elems(b)
    ensures a == b
  {
    Nonempty(a, b);
    if a != [] {
      SameLast(a, b);
      var x, y := a[..|a| - 1], b[..|b| - 1];
      AllButLast(a);
      AllButLast(b);
      OneListing(x, y);
      assert a == x + [a[|a| - 1]] && b == y + [b[|b| - 1]];
    }
  }

  lemma {:induction false} Nonempty(a: seq<int>, b: seq<int>)
    requires Elems(a) == Elems(b)
    ensures a == [] <==> b == []
  {
    if a != [] {
      assert a[0] in Elems(b);
    }
    if b != [] {
      assert b[0] in Elems(a);
    }
  }

  lemma {:induction false} SameLast(a: seq<int>, b: seq<int>)
    requires StrictlySorted(a) && StrictlySorted(b) && Elems(a) == Elems(b) && a != [] && b != []
    ensures a[|a| - 1] == b[|b| - 1]
  {
    assert a[|a| - 1] in Elems(b) && b[|b| - 1] in Elems(a);
  }

  lemma {:induction false} AllButLast(a: seq<int>)
    requires StrictlySorted(a) && a != []
    ensures StrictlySorted(a[..|a| - 1]) && Elems(a[..|a| - 1]) == Elems(a) - {a[|a| - 1]}
  {
    var n := |a| - 1;
    forall x | x in Elems(a) && x != a[n] ensures x in Elems(a[..n]) {
      var i :| 0 <= i < |a| && a[i] == x;
      assert a[..n][i] == x;
    }
  }
}
