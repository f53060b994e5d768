/** Internal keys of the intarray GiST index: a strictly increasing array of
    at least 200 integers is squeezed into 100 ranges by merging, again and
    again, the two neighbouring ranges with the smallest gap between them
    (`g_int_compress`), and blown up again by `g_int_decompress`. */
module IntRanges {
  import opened Common
  import opened Int32
  import opened IntArrays

  const MAXNUMRANGE := 100

  ghost predicate StrictlySorted(a: seq<int>) {
    forall i, j :: 0 <= i < j < |a| ==> a[i] < a[j]
  }

  // ---------------------------------------------------------------- ranges

  datatype Range = Range(lo: int, hi: int)

  ghost predicate InRange(r: seq<Range>, k: int, x: int) {
    0 <= k < |r| && r[k].lo <= x <= r[k].hi
  }

  ghost function Interval(lo: int, hi: int): (s: set<int>)
    ensures forall x :: x in s <==> lo <= x <= hi
    ensures lo <= hi + 1 ==> |s| == hi - lo + 1
    decreases hi - lo + 1
  {
    if hi < lo then {} else Interval(lo, hi - 1) + {hi}
  }

  ghost function Covered(r: seq<Range>): set<int> {
    if r == [] then {} else Covered(r[..|r| - 1]) + Interval(r[|r| - 1].lo, r[|r| - 1].hi)
  }

  lemma {:induction false} CoveredIff(r: seq<Range>, x: int)
    ensures x in Covered(r) <==> exists k :: InRange(r, k, x)
  {
    if r != [] {
      var n := |r| - 1;
      CoveredIff(r[..n], x);
      assert forall k :: InRange(r, k, x) <==> InRange(r[..n], k, x) || (k == n && InRange(r, n, x));
      if x in Covered(r) && x !in Covered(r[..n]) { assert InRange(r, n, x); }
    }
  }

  ghost predicate Covers(r: seq<Range>, a: seq<int>) {
    forall i :: 0 <= i < |a| ==> a[i] in Covered(r)
  }

  /** At most 100 ranges that cover a. */
  ghost predicate Candidate(r: seq<Range>, a: seq<int>) {
    |r| <= MAXNUMRANGE && Covers(r, a)
  }

  /** No choice of at most 100 ranges covering a covers fewer integers. */
  ghost predicate Optimal(r: seq<Range>, a: seq<int>) {
    Candidate(r, a) && forall q :: Candidate(q, a) ==> |Covered(r)| <= |Covered(q)|
  }

  /** Ranges that ascend and never touch. */
  ghost predicate Ascending(r: seq<Range>) {
    (forall k :: 0 <= k < |r| ==> r[k].lo <= r[k].hi)
    && forall j, k :: 0 <= j < k < |r| ==> r[j].hi < r[k].lo
  }

  // ------------------------------------------------------- cuts and holes

  /** The distance between neighbours i and i+1 of a. */
  ghost function Gap(a: seq<int>, i: int): int
    requires 0 <= i < |a| - 1
  {
    a[i + 1] - a[i]
  }

  /** No two neighbours are 2^31 or more apart. */
  ghost predicate NoHugeGap(a: seq<int>) {
    forall i :: 0 <= i < |a| - 1 ==> Gap(a, i) <= MAX
  }

  /** How many integers the gaps with index in s leave out, among the first n. */
  ghost function Holes(a: seq<int>, n: nat, s: set<int>): int
    requires n < |a|
  {
    if n == 0 then 0 else Holes(a, n - 1, s) + if n - 1 in s then Gap(a, n - 1) - 1 else 0
  }

  ghost function HoleSet(a: seq<int>, n: nat, s: set<int>): set<int>
    requires n < |a|
  {
    if n == 0 then {} else HoleSet(a, n - 1, s) + if n - 1 in s then Interval(a[n - 1] + 1, a[n] - 1) else {}
  }

  lemma {:induction false} HoleSetIff(a: seq<int>, n: nat, s: set<int>, x: int)
    requires n < |a|
    ensures x in HoleSet(a, n, s) <==> exists i :: 0 <= i < n && i in s && a[i] < x < a[i + 1]
  {
    if n > 0 {
      HoleSetIff(a, n - 1, s, x);
    }
  }

  lemma {:induction false} HoleSetSize(a: seq<int>, n: nat, s: set<int>)
    requires n < |a| && StrictlySorted(a)
    ensures |HoleSet(a, n, s)| == Holes(a, n, s)
    ensures forall x :: x in HoleSet(a, n, s) ==> a[0] < x < a[n]
  {
    hide StrictlySorted, Interval;
    HoleBounds(a, n, s);
    if n > 0 {
      HoleSetSize(a, n - 1, s);
      Apart(HoleSet(a, n - 1, s), a[n - 1], a[n]);
    }
  }

  lemma {:induction false} HoleBounds(a: seq<int>, n: nat, s: set<int>)
    requires n < |a| && StrictlySorted(a)
    ensures forall x :: x in HoleSet(a, n, s) ==> a[0] < x < a[n]
    ensures n > 0 ==> a[0] <= a[n - 1] < a[n]
  {
    hide StrictlySorted, Interval;
    if n > 0 {
      Rising(a, n);
      HoleBounds(a, n - 1, s);
    }
  }

  lemma {:induction false} Rising(a: seq<int>, n: nat)
    requires 0 < n < |a| && StrictlySorted(a)
    ensures a[0] <= a[n - 1] < a[n]
  {
  }

  lemma {:induction false} Apart(below: set<int>, lo: int, hi: int)
    requires lo < hi && forall x :: x in below ==> x < lo
    ensures |below + Interval(lo + 1, hi - 1)| == |below| + hi - lo - 1
  {
    assert below !! Interval(lo + 1, hi - 1);
  }

  lemma {:induction false} HolesAdd(a: seq<int>, n: nat, s: set<int>, y: int)
    requires n < |a| && y !in s && 0 <= y
    ensures Holes(a, n, s + {y}) == Holes(a, n, s) + if y < n then Gap(a, y) - 1 else 0
  {
    if n > 0 {
      HolesAdd(a, n - 1, s, y);
    }
  }

  lemma {:induction false} HolesMonotone(a: seq<int>, n: nat, s: set<int>, t: set<int>)
    requires n < |a| && StrictlySorted(a) && s <= t
    ensures 0 <= Holes(a, n, s) <= Holes(a, n, t)
  {
    if n > 0 {
      HolesMonotone(a, n - 1, s, t);
    }
  }

  /** Exchange: no set of at most |k| gaps leaves out more than the |k| widest. */
  lemma {:induction false} WidestLeaveOutMost(a: seq<int>, n: nat, b: set<int>, k: set<int>)
    requires n < |a| && StrictlySorted(a)
    requires |b| <= |k|
    requires forall x :: x in b || x in k ==> 0 <= x < n
    requires forall x, y :: x in b && x !in k && y in k ==> Gap(a, x) <= Gap(a, y)
    ensures Holes(a, n, b) <= Holes(a, n, k)
    decreases |b - k|
  {
    var extra, spare := b - k, k - b;
    if extra == {} {
      assert b <= k;
      HolesMonotone(a, n, b, k);
    } else {
      var x := Pick(extra);
      if spare == {} {
        SubsetSize(k + {x}, b);
        assert false;
      }
      var y := Pick(spare);
      var rest := b - {x};
      HolesAdd(a, n, rest, x);
      assert rest + {x} == b;
      HolesAdd(a, n, rest, y);
      assert (rest + {y}) - k == (b - k) - {x};
      WidestLeaveOutMost(a, n, rest + {y}, k);
    }
  }

  lemma {:induction false} Pick<T>(s: set<T>) returns (x: T)
    requires s != {}
    ensures x in s
  {
    x :| x in s;
  }

  lemma {:induction false} SubsetSize<T>(s: set<T>, t: set<T>)
    requires s <= t
    ensures |s| <= |t|
    decreases s
  {
    if s != {} {
      var x :| x in s;
      SubsetSize(s - {x}, t - {x});
    }
  }

  // ------------------------------------------- a lower bound on any choice

  /** The gaps some integer of which q leaves out. */
  ghost function Broken(q: seq<Range>, a: seq<int>, n: nat): (s: set<int>)
    requires n < |a|
    ensures forall i :: i in s <==> 0 <= i < n && Breaks(q, a, i)
  {
    if n == 0 then {}
    else if Breaks(q, a, n - 1) then Broken(q, a, n - 1) + {n - 1}
    else Broken(q, a, n - 1)
  }

  ghost predicate Breaks(q: seq<Range>, a: seq<int>, i: int)
    requires 0 <= i < |a| - 1
  {
    exists x :: a[i] < x < a[i + 1] && x !in Covered(q)
  }

  /** The ranges of q that hold one of a[0..n]. */
  ghost function Used(q: seq<Range>, a: seq<int>, n: nat): set<int>
    requires n < |a|
  {
    set k | 0 <= k < |q| && Holds(q, k, a, n)
  }

  ghost predicate Holds(q: seq<Range>, k: int, a: seq<int>, n: nat)
    requires n < |a|
  {
    exists j :: 0 <= j <= n && InRange(q, k, a[j])
  }

  /** Passing a broken gap brings a range into use that was not used before. */
  lemma {:induction false} UsedGrows(q: seq<Range>, a: seq<int>, n: nat)
    requires n + 1 < |a| && StrictlySorted(a) && Covers(q, a)
    ensures |Used(q, a, n + 1)| >= |Used(q, a, n)| + if Breaks(q, a, n) then 1 else 0
  {
    hide Covers, Breaks, StrictlySorted;
    var u, u' := Used(q, a, n), Used(q, a, n + 1);
    assert u <= u';
    if Breaks(q, a, n) {
      var k := NewlyUsed(q, a, n);
      SubsetSize(u + {k}, u');
    } else {
      SubsetSize(u, u');
    }
  }

  lemma {:induction false} NewlyUsed(q: seq<Range>, a: seq<int>, n: nat) returns (k: int)
    requires n + 1 < |a| && StrictlySorted(a) && Covers(q, a) && Breaks(q, a, n)
    ensures k in Used(q, a, n + 1) && k !in Used(q, a, n)
  {
    hide Covered;
    CoveredIff(q, a[n + 1]);
    k :| InRange(q, k, a[n + 1]);
    var x :| a[n] < x < a[n + 1] && x !in Covered(q);
    CoveredIff(q, x);
    assert !InRange(q, k, x);
  }

  /** Every broken gap needs a range of its own, besides the one holding a[0]. */
  lemma {:induction false} FirstUsed(q: seq<Range>, a: seq<int>)
    requires a != [] && Covers(q, a)
    ensures |Used(q, a, 0)| >= 1
  {
    hide Covered;
    CoveredIff(q, a[0]);
    var k :| InRange(q, k, a[0]);
    assert k in Used(q, a, 0);
  }

  lemma {:induction false} BrokenNeedRanges(q: seq<Range>, a: seq<int>, n: nat)
    requires n < |a| && StrictlySorted(a) && Covers(q, a)
    ensures |Broken(q, a, n)| + 1 <= |Used(q, a, n)|
  {
    hide Covered, Covers, Breaks, StrictlySorted, Used;
    if n == 0 {
      FirstUsed(q, a);
    } else {
      BrokenNeedRanges(q, a, n - 1);
      UsedGrows(q, a, n - 1);
    }
  }

  lemma {:induction false} FewBroken(q: seq<Range>, a: seq<int>)
    requires |a| > 0 && StrictlySorted(a) && Candidate(q, a)
    ensures |Broken(q, a, |a| - 1)| <= MAXNUMRANGE - 1
  {
    BrokenNeedRanges(q, a, |a| - 1);
    SubsetSize(Used(q, a, |a| - 1), Interval(0, |q| - 1));
  }

  /** A covering choice misses only integers in the gaps it breaks. */
  lemma {:induction false} CoverLowerBound(q: seq<Range>, a: seq<int>)
    requires |a| > 0 && StrictlySorted(a) && Covers(q, a)
    ensures |Covered(q)| >= a[|a| - 1] - a[0] + 1 - Holes(a, |a| - 1, Broken(q, a, |a| - 1))
  {
    var n := |a| - 1;
    var span := Interval(a[0], a[n]);
    var holes := HoleSet(a, n, Broken(q, a, n));
    forall x | x in span ensures x in Covered(q) || x in holes {
      if x !in Covered(q) {
        var i := Locate(a, x);
        assert i in Broken(q, a, n);
        HoleSetIff(a, n, Broken(q, a, n), x);
      }
    }
    assert span <= Covered(q) + holes;
    SubsetSize(span, Covered(q) + holes);
    HoleSetSize(a, n, Broken(q, a, n));
  }

  /** A point of the span that is not an element lies strictly inside a gap. */
  lemma {:induction false} Locate(a: seq<int>, x: int) returns (i: int)
    requires |a| > 0 && a[0] <= x <= a[|a| - 1] && x !in a
    ensures 0 <= i < |a| - 1 && a[i] < x < a[i + 1]
  {
    i := 0;
    while a[i + 1] < x
      invariant 0 <= i < |a| - 1 && a[i] < x
      decreases |a| - i
    {
      i := i + 1;
    }
  }

  // ------------------------------------------------- the ranges in between

  /** The gaps not merged away, in order. */
  ghost predicate Cuts(cut: seq<int>, n: int) {
    StrictlySorted(cut) && forall j :: 0 <= j < |cut| ==> 0 <= cut[j] < n
  }

  /** d lists the ranges into which the surviving gaps cut the span of a. */
  ghost predicate Represents(d: seq<Range>, a: seq<int>, cut: seq<int>)
    requires |a| > 0 && Cuts(cut, |a| - 1)
  {
    |d| == |cut| + 1 && d[0].lo == a[0] && d[|cut|].hi == a[|a| - 1]
    && forall j {:trigger cut[j]} :: 0 <= j < |cut| ==> d[j].hi == a[cut[j]] && d[j + 1].lo == a[cut[j] + 1]
  }

  ghost function Elems<T>(s: seq<T>): set<T> {
    set x | x in s
  }

  lemma {:induction false} ElemsSize(cut: seq<int>)
    requires StrictlySorted(cut)
    ensures |Elems(cut)| == |cut|
  {
    if cut != [] {
      var n := |cut| - 1;
      ElemsSize(cut[..n]);
      assert Elems(cut) == Elems(cut[..n]) + {cut[n]};
    }
  }

  lemma {:induction false} Ends(d: seq<Range>, a: seq<int>, cut: seq<int>, k: int)
    requires |a| > 0 && Cuts(cut, |a| - 1) && Represents(d, a, cut) && 0 <= k <= |cut|
    ensures d[k].lo == a[if k == 0 then 0 else cut[k - 1] + 1]
    ensures d[k].hi == a[if k == |cut| then |a| - 1 else cut[k]]
  {
    if k > 0 { assert d[k - 1 + 1].lo == a[cut[k - 1] + 1]; }
  }

  lemma {:induction false} NotInSurvivingGap(d: seq<Range>, a: seq<int>, cut: seq<int>, x: int, k: int, j: int)
    requires |a| > 0 && StrictlySorted(a) && Cuts(cut, |a| - 1) && Represents(d, a, cut)
    requires InRange(d, k, x) && 0 <= j < |cut|
    ensures a[0] <= x <= a[|a| - 1] && !(a[cut[j]] < x < a[cut[j] + 1])
  {
    Ends(d, a, cut, k);
    if j < k {
      assert cut[j] <= cut[k - 1];
    } else {
      assert k == |cut| || cut[k] <= cut[j];
    }
  }

  lemma {:induction false} InSomeRange(d: seq<Range>, a: seq<int>, cut: seq<int>, x: int) returns (k: int)
    requires |a| > 0 && Cuts(cut, |a| - 1) && Represents(d, a, cut)
    requires a[0] <= x <= a[|a| - 1]
    requires forall j :: 0 <= j < |cut| ==> !(a[cut[j]] < x < a[cut[j] + 1])
    ensures InRange(d, k, x)
  {
    k := 0;
    while k < |cut| && a[cut[k]] < x
      invariant 0 <= k <= |cut| && (k > 0 ==> a[cut[k - 1]] < x)
    {
      k := k + 1;
    }
    Ends(d, a, cut, k);
  }

  /** What the ranges cover is the span less the surviving gaps. */
  lemma {:induction false} RepresentedIff(d: seq<Range>, a: seq<int>, cut: seq<int>, x: int)
    requires |a| > 0 && StrictlySorted(a) && Cuts(cut, |a| - 1) && Represents(d, a, cut)
    ensures x in Covered(d) <==> a[0] <= x <= a[|a| - 1] && x !in HoleSet(a, |a| - 1, Elems(cut))
  {
    hide Covered, HoleSet, StrictlySorted, Represents, Cuts;
    CoveredIff(d, x);
    if x in Covered(d) {
      var k :| InRange(d, k, x);
      InSpan(d, a, cut, x, k);
      OutOfHoles(d, a, cut, x, k);
    } else if a[0] <= x <= a[|a| - 1] && x !in HoleSet(a, |a| - 1, Elems(cut)) {
      var k := BetweenHoles(d, a, cut, x);
    }
  }

  lemma {:induction false} InSpan(d: seq<Range>, a: seq<int>, cut: seq<int>, x: int, k: int)
    requires |a| > 0 && StrictlySorted(a) && Cuts(cut, |a| - 1) && Represents(d, a, cut) && InRange(d, k, x)
    ensures a[0] <= x <= a[|a| - 1]
  {
    Ends(d, a, cut, k);
  }

  lemma {:induction false} OutOfHoles(d: seq<Range>, a: seq<int>, cut: seq<int>, x: int, k: int)
    requires |a| > 0 && StrictlySorted(a) && Cuts(cut, |a| - 1) && Represents(d, a, cut) && InRange(d, k, x)
    ensures x !in HoleSet(a, |a| - 1, Elems(cut))
  {
    hide HoleSet, StrictlySorted, Represents, InRange, Cuts;
    HoleSetIff(a, |a| - 1, Elems(cut), x);
    forall i | 0 <= i < |a| - 1 && i in Elems(cut) ensures !(a[i] < x < a[i + 1]) {
      var j :| 0 <= j < |cut| && cut[j] == i;
      NotInSurvivingGap(d, a, cut, x, k, j);
    }
  }

  lemma {:induction false} BetweenHoles(d: seq<Range>, a: seq<int>, cut: seq<int>, x: int) returns (k: int)
    requires |a| > 0 && Cuts(cut, |a| - 1) && Represents(d, a, cut)
    requires a[0] <= x <= a[|a| - 1] && x !in HoleSet(a, |a| - 1, Elems(cut))
    ensures InRange(d, k, x)
  {
    hide HoleSet, Represents, InRange;
    HoleSetIff(a, |a| - 1, Elems(cut), x);
    forall j | 0 <= j < |cut| ensures !(a[cut[j]] < x < a[cut[j] + 1]) {
      assert cut[j] in Elems(cut);
    }
    k := InSomeRange(d, a, cut, x);
  }

  lemma {:induction false} RepresentedSize(d: seq<Range>, a: seq<int>, cut: seq<int>)
    requires |a| > 0 && StrictlySorted(a) && Cuts(cut, |a| - 1) && Represents(d, a, cut)
    ensures |Covered(d)| == a[|a| - 1] - a[0] + 1 - Holes(a, |a| - 1, Elems(cut))
  {
    hide Represents, Cuts, Covered, Holes, HoleSet, Elems;
    var span, holes := Interval(a[0], a[|a| - 1]), HoleSet(a, |a| - 1, Elems(cut));
    HoleSetSize(a, |a| - 1, Elems(cut));
    assert Covered(d) == span - holes by {
      forall x ensures x in Covered(d) <==> x in span && x !in holes {
        RepresentedIff(d, a, cut, x);
      }
    }
    assert span - holes + holes == span;
  }

  lemma {:induction false} NoneBetween(a: seq<int>, h: nat, i: nat)
    requires StrictlySorted(a) && h < |a| - 1 && i < |a|
    ensures !(a[h] < a[i] < a[h + 1])
  {
  }

  lemma {:induction false} RepresentedCovers(d: seq<Range>, a: seq<int>, cut: seq<int>)
    requires |a| > 0 && StrictlySorted(a) && Cuts(cut, |a| - 1) && Represents(d, a, cut)
    ensures Covers(d, a)
  {
    hide Represents, Cuts, Covered, HoleSet;
    forall i | 0 <= i < |a| ensures a[i] in Covered(d) {
      RepresentedIff(d, a, cut, a[i]);
      HoleSetIff(a, |a| - 1, Elems(cut), a[i]);
      forall h | 0 <= h < |a| - 1 ensures !(a[h] < a[i] < a[h + 1]) {
        NoneBetween(a, h, i);
      }
    }
  }

  lemma {:induction false} RepresentedAscending(d: seq<Range>, a: seq<int>, cut: seq<int>)
    requires |a| > 0 && StrictlySorted(a) && Cuts(cut, |a| - 1) && Represents(d, a, cut)
    ensures Ascending(d)
  {
    forall k | 0 <= k < |d| ensures d[k].lo <= d[k].hi {
      Ends(d, a, cut, k);
    }
    forall j, k | 0 <= j < k < |d| ensures d[j].hi < d[k].lo {
      Ends(d, a, cut, j);
      Ends(d, a, cut, k);
      assert cut[j] <= cut[k - 1];
    }
  }

  // ----------------------------------------------------------- optimality

  /** Every merged gap compared, as a C int, no larger than every surviving one. */
  ghost predicate Greedy(a: seq<int>, cut: seq<int>)
    requires |a| > 0 && Cuts(cut, |a| - 1)
  {
    forall m, j :: 0 <= m < |a| - 1 && m !in cut && 0 <= j < |cut| ==> Wrap(Gap(a, m)) <= Wrap(Gap(a, cut[j]))
  }

  lemma {:induction false} GapFits(a: seq<int>, i: int)
    requires StrictlySorted(a) && NoHugeGap(a) && 0 <= i < |a| - 1
    ensures Wrap(Gap(a, i)) == Gap(a, i)
  {
    assert a[i] < a[i + 1];
  }

  lemma {:induction false} GreedyBeats(q: seq<Range>, r: seq<Range>, a: seq<int>, cut: seq<int>)
    requires |a| > 0 && StrictlySorted(a) && Cuts(cut, |a| - 1) && Represents(r, a, cut)
    requires |cut| == MAXNUMRANGE - 1 && Greedy(a, cut) && NoHugeGap(a) && Candidate(q, a)
    ensures |Covered(r)| <= |Covered(q)|
  {
    hide Represents, Covered, Holes, Covers, StrictlySorted;
    var b := Broken(q, a, |a| - 1);
    FewBroken(q, a);
    ElemsSize(cut);
    forall x, y | x in b && x !in Elems(cut) && y in Elems(cut) ensures Gap(a, x) <= Gap(a, y) {
      var j :| 0 <= j < |cut| && cut[j] == y;
      assert Wrap(Gap(a, x)) <= Wrap(Gap(a, cut[j]));
      GapFits(a, x);
      GapFits(a, y);
    }
    WidestLeaveOutMost(a, |a| - 1, b, Elems(cut));
    CoverLowerBound(q, a);
    RepresentedSize(r, a, cut);
  }

  lemma {:induction false} GreedyIsOptimal(r: seq<Range>, a: seq<int>, cut: seq<int>)
    requires |a| > 0 && StrictlySorted(a) && Cuts(cut, |a| - 1) && Represents(r, a, cut)
    requires |cut| == MAXNUMRANGE - 1 && Greedy(a, cut) && NoHugeGap(a)
    ensures Optimal(r, a)
  {
    RepresentedCovers(r, a, cut);
    forall q | Candidate(q, a) ensures |Covered(r)| <= |Covered(q)| {
      GreedyBeats(q, r, a, cut);
    }
  }

  lemma {:induction false} HolesBound(a: seq<int>, n: nat, s: set<int>)
    requires n < |a| && StrictlySorted(a)
    ensures Holes(a, n, s) <= a[n] - a[0] - n
  {
    if n > 0 { HolesBound(a, n - 1, s); }
  }

  lemma {:induction false} OneHugeGap(a: seq<int>, m: nat, g: nat)
    requires StrictlySorted(a) && AllInt32(a) && g < |a| - 1 && m < |a| - 1 && m != g && Gap(a, g) > MAX
    ensures Wrap(Gap(a, g)) < 0 < Wrap(Gap(a, m))
  {
    var lo, hi := if m < g then m else g, if m < g then g else m;
    assert a[0] <= a[lo] < a[lo + 1] <= a[hi] < a[hi + 1] <= a[|a| - 1];
  }

  /** A gap of 2^31 or more wraps to a negative number and is merged first. */
  lemma {:induction false} HugeGapIsMerged(a: seq<int>, cut: seq<int>, g: nat)
    requires StrictlySorted(a) && AllInt32(a) && g < |a| - 1 && Gap(a, g) > MAX
    requires Cuts(cut, |a| - 1) && |cut| < |a| - 1 && Greedy(a, cut)
    ensures g !in cut
  {
    var m := Uncut(cut, |a| - 1);
    if m != g {
      OneHugeGap(a, m, g);
      forall j | 0 <= j < |cut| ensures cut[j] != g {
        assert Wrap(Gap(a, m)) <= Wrap(Gap(a, cut[j]));
      }
    }
  }

  lemma {:induction false} Uncut(cut: seq<int>, n: int) returns (m: int)
    requires Cuts(cut, n) && |cut| < n
    ensures 0 <= m < n && m !in cut
  {
    ElemsSize(cut);
    var all := Interval(0, n - 1);
    if all - Elems(cut) == {} {
      SubsetSize(all, Elems(cut));
      assert false;
    }
    m := Pick(all - Elems(cut));
  }

  /** Cutting only at the huge gap already covers less. */
  lemma {:induction false} CutOnce(a: seq<int>, g: nat)
    requires g < |a| - 1
    ensures Cuts([g], |a| - 1) && Represents([Range(a[0], a[g]), Range(a[g + 1], a[|a| - 1])], a, [g])
  {
  }

  lemma {:induction false} CutAtHugeGap(a: seq<int>, g: nat) returns (q: seq<Range>)
    requires StrictlySorted(a) && g < |a| - 1
    ensures Candidate(q, a) && |Covered(q)| == a[|a| - 1] - a[0] + 2 - Gap(a, g)
  {
    hide Covered, Covers, StrictlySorted, Holes, Represents, Cuts;
    q := [Range(a[0], a[g]), Range(a[g + 1], a[|a| - 1])];
    var cut: seq<int> := [g];
    CutOnce(a, g);
    RepresentedSize(q, a, cut);
    RepresentedCovers(q, a, cut);
    var none: set<int> := {};
    HolesAdd(a, |a| - 1, none, g);
    NoHoles(a, |a| - 1);
    assert Elems(cut) == none + {g};
  }

  lemma {:induction false} NoHoles(a: seq<int>, n: nat)
    requires n < |a|
    ensures Holes(a, n, {}) == 0
  {
    if n > 0 { NoHoles(a, n - 1); }
  }

  lemma {:induction false} HugeGapNotOptimal(r: seq<Range>, a: seq<int>, cut: seq<int>, g: nat)
    requires StrictlySorted(a) && AllInt32(a) && g < |a| - 1 && Gap(a, g) > MAX
    requires Cuts(cut, |a| - 1) && 2 <= |cut| + 1 < |a| - 1 && Greedy(a, cut) && Represents(r, a, cut)
    ensures !Optimal(r, a)
  {
    hide Represents, Covered, Holes, Cuts, Greedy, Covers;
    HugeGapIsMerged(a, cut, g);
    RepresentedSize(r, a, cut);
    HolesAdd(a, |a| - 1, Elems(cut), g);
    HolesBound(a, |a| - 1, Elems(cut) + {g});
    var q := CutAtHugeGap(a, g);
    assert |Covered(q)| < |Covered(r)|;
  }

  // ------------------------------------------------------ g_int_compress

  /** The key array lo0, hi0, lo1, hi1, ... read as a list of ranges. */
  ghost function Ranges(d: seq<int>): (r: seq<Range>)
    ensures |r| == |d| / 2
    ensures forall k :: 0 <= k < |r| ==> r[k] == Range(d[2 * k], d[2 * k + 1])
  {
    seq(|d| / 2, k requires 0 <= k < |d| / 2 => Range(d[2 * k], d[2 * k + 1]))
  }

  ghost predicate Flat(d: seq<int>, a: seq<int>, cut: seq<int>)
    requires |a| > 0 && Cuts(cut, |a| - 1)
  {
    |d| == 2 * |cut| + 2 && d[0] == a[0] && d[|d| - 1] == a[|a| - 1]
    && forall j {:trigger cut[j]} :: 0 <= j < |cut| ==> d[2 * j + 1] == a[cut[j]] && d[2 * j + 2] == a[cut[j] + 1]
  }

  lemma {:induction false} FlatRepresents(d: seq<int>, a: seq<int>, cut: seq<int>)
    requires |a| > 0 && Cuts(cut, |a| - 1) && Flat(d, a, cut)
    ensures Represents(Ranges(d), a, cut)
  {
    var r := Ranges(d);
    forall j | 0 <= j < |cut| ensures r[j].hi == a[cut[j]] && r[j + 1].lo == a[cut[j] + 1] {
      assert d[2 * j + 1] == a[cut[j]];
    }
  }

  /** The 32-bit span holds at most two gaps of 2^31 - 1, so one of any three
      compares below the initial minimum. */
  lemma {:induction false} SomeSmallGap(a: seq<int>, cut: seq<int>)
    requires StrictlySorted(a) && AllInt32(a) && Cuts(cut, |a| - 1) && |cut| >= 3
    ensures exists p :: 0 <= p < 3 && Wrap(Gap(a, cut[p])) < MAX
  {
    assert cut[0] < cut[1] < cut[2];
    assert a[0] <= a[cut[0]] < a[cut[0] + 1] <= a[cut[1]] < a[cut[1] + 1] <= a[cut[2]] < a[cut[2] + 1] <= a[|a| - 1];
    var g0, g1, g2 := Gap(a, cut[0]), Gap(a, cut[1]), Gap(a, cut[2]);
    assert g0 + g1 + g2 < 3 * MAX;
    var p := if g0 < MAX then 0 else if g1 < MAX then 1 else 2;
    assert Wrap(Gap(a, cut[p])) < MAX;
  }

  ghost function Drop<T>(s: seq<T>, p: int): seq<T>
    requires 0 <= p < |s|
  {
    s[..p] + s[p + 1..]
  }

  /** Merging across the smallest gap drops it and keeps the greedy order. */
  lemma {:induction false} MergeSmallest(a: seq<int>, cut: seq<int>, p: int)
    requires |a| > 0 && Cuts(cut, |a| - 1) && Greedy(a, cut) && 0 <= p < |cut|
    requires forall j :: 0 <= j < |cut| ==> Wrap(Gap(a, cut[p])) <= Wrap(Gap(a, cut[j]))
    ensures Cuts(Drop(cut, p), |a| - 1) && Greedy(a, Drop(cut, p))
  {
    hide Wrap, Gap, Drop;
    var rest := Drop(cut, p);
    DropCuts(cut, |a| - 1, p);
    forall m, j | 0 <= m < |a| - 1 && m !in rest && 0 <= j < |rest|
      ensures Wrap(Gap(a, m)) <= Wrap(Gap(a, rest[j])) {
      var i := if j < p then j else j + 1;
      assert m == cut[p] || m !in cut;
      assert Wrap(Gap(a, m)) <= Wrap(Gap(a, cut[i]));
    }
  }

  lemma {:induction false} DropCuts(cut: seq<int>, n: int, p: int)
    requires Cuts(cut, n) && 0 <= p < |cut|
    ensures Cuts(Drop(cut, p), n) && |Drop(cut, p)| == |cut| - 1
    ensures forall j :: 0 <= j < |cut| - 1 ==> Drop(cut, p)[j] == cut[if j < p then j else j + 1]
    ensures forall x :: x in cut ==> x == cut[p] || x in Drop(cut, p)
  {
    var rest := Drop(cut, p);
    forall j | 0 <= j < |cut| && j != p ensures cut[j] in rest {
      assert cut[j] == rest[if j < p then j else j - 1];
    }
  }

  lemma {:induction false} MergeFlat(d: seq<int>, a: seq<int>, cut: seq<int>, p: int)
    requires |a| > 0 && Cuts(cut, |a| - 1) && Flat(d, a, cut) && 0 <= p < |cut|
    requires Cuts(Drop(cut, p), |a| - 1)
    ensures Flat(d[..2 * p + 1] + d[2 * p + 3..], a, Drop(cut, p))
  {
    var d', rest := d[..2 * p + 1] + d[2 * p + 3..], Drop(cut, p);
    forall j | 0 <= j < |rest| ensures d'[2 * j + 1] == a[rest[j]] && d'[2 * j + 2] == a[rest[j] + 1] {
      if j < p {
        assert rest[j] == cut[j];
      } else {
        assert rest[j] == cut[j + 1] && d[2 * (j + 1) + 1] == a[cut[j + 1]];
      }
    }
  }

  /** The doubling loop, from the top down and in place: every element becomes
      a range of its own. */
  method Double(a: seq<int>) returns (dr: array<int>)
    requires |a| > 0
    ensures fresh(dr) && dr.Length == 2 * |a|
    ensures forall k :: 0 <= k < |a| ==> dr[2 * k] == dr[2 * k + 1] == a[k]
  {
    var len := |a|;
    dr := new int[2 * len](k => if 0 <= k < len then a[k] else 0);
    var i := len - 1;
    while i >= 0
      invariant -1 <= i < len
      invariant forall k :: 0 <= k <= i ==> dr[k] == a[k]
      invariant forall k :: i < k < len ==> dr[2 * k] == dr[2 * k + 1] == a[k]
    {
      dr[2 * i + 1] := dr[i];
      dr[2 * i] := dr[2 * i + 1];
      i := i - 1;
    }
  }

  /** One scan for the first smallest gap, compared as 32-bit ints; `stale` is
      the candidate left from the previous round. */
  method SmallestGap(dr: array<int>, len: int, stale: int) returns (cand: int)
    requires 4 <= len <= dr.Length && len % 2 == 0
    requires exists p :: 1 <= p < len / 2 && Wrap(dr[2 * p] - dr[2 * p - 1]) < MAX
    ensures 2 <= cand < len && cand % 2 == 0
    ensures forall p :: 1 <= p < len / 2 ==> Wrap(dr[cand] - dr[cand - 1]) <= Wrap(dr[2 * p] - dr[2 * p - 1])
  {
    var min := MAX;
    cand := stale;
    var i := 2;
    while i < len
      invariant 2 <= i <= len && i % 2 == 0 && min <= MAX
      invariant forall p :: 1 <= p < i / 2 ==> min <= Wrap(dr[2 * p] - dr[2 * p - 1])
      invariant min < MAX ==> 2 <= cand < i && cand % 2 == 0 && min == Wrap(dr[cand] - dr[cand - 1])
      invariant min == MAX ==> cand == stale
    {
      if min > Wrap(dr[i] - dr[i - 1]) {
        min := Wrap(dr[i] - dr[i - 1]);
        cand := i;
      }
      i := i + 2;
    }
  }

  ghost predicate CompressedFrom(r: seq<int>, a: seq<int>, cut: seq<int>)
    requires |a| > 0
  {
    Cuts(cut, |a| - 1) && Flat(r, a, cut) && Greedy(a, cut)
  }

  /** One round: find the smallest gap and close it with a memmove. */
  method MergeOnce(dr: array<int>, len: int, stale: int, ghost a: seq<int>, ghost cut: seq<int>)
    returns (cand: int, ghost rest: seq<int>)
    requires 8 <= len <= dr.Length && len == 2 * |cut| + 2
    requires |a| > 0 && StrictlySorted(a) && AllInt32(a) && CompressedFrom(dr[..len], a, cut)
    modifies dr
    ensures |rest| == |cut| - 1 && CompressedFrom(dr[..len - 2], a, rest)
  {
    hide CompressedFrom, StrictlySorted, AllInt32;
    ghost var d := dr[..len];
    SomeGapIsSmall(d, a, cut);
    cand := SmallestGap(dr, len, stale);
    MergeKeeps(d, a, cut, cand);
    MoveDown(dr, len, cand);
    rest := Drop(cut, cand / 2 - 1);
  }

  /** The `memmove` that takes out one gap. */
  method MoveDown(dr: array<int>, len: int, cand: int)
    requires 1 <= cand < len <= dr.Length
    modifies dr
    ensures dr[..len - 2] == old(dr[..len][..cand - 1]) + old(dr[..len][cand + 1..])
  {
    ghost var d := dr[..len];
    forall k | cand - 1 <= k < len - 2 {
      dr[k] := dr[k + 2];
    }
    assert dr[..len - 2] == d[..cand - 1] + d[cand + 1..];
  }

  method MergeRanges(a: seq<int>) returns (r: seq<int>, ghost cut: seq<int>)
    requires |a| >= 2 * MAXNUMRANGE && StrictlySorted(a) && AllInt32(a)
    ensures |r| == 2 * MAXNUMRANGE && CompressedFrom(r, a, cut)
  {
    hide CompressedFrom, StrictlySorted, AllInt32;
    var dr := Double(a);
    var len := 2 * |a|;
    var cand := 1;
    cut := seq(|a| - 1, k => k);
    InitialCuts(dr[..len], a, cut);
    while len > MAXNUMRANGE * 2
      invariant 2 * MAXNUMRANGE <= len <= dr.Length && len == 2 * |cut| + 2
      invariant CompressedFrom(dr[..len], a, cut)
    {
      cand, cut := MergeOnce(dr, len, cand, a, cut);
      len := len - 2;
    }
    r := dr[..len];
  }

  lemma {:induction false} MergeKeeps(d: seq<int>, a: seq<int>, cut: seq<int>, cand: int)
    requires |a| > 0 && CompressedFrom(d, a, cut) && 2 <= cand < |d| && cand % 2 == 0
    requires forall p :: 1 <= p < |d| / 2 ==> Wrap(d[cand] - d[cand - 1]) <= Wrap(d[2 * p] - d[2 * p - 1])
    ensures cand / 2 <= |cut|
    ensures CompressedFrom(d[..cand - 1] + d[cand + 1..], a, Drop(cut, cand / 2 - 1))
  {
    var p := cand / 2 - 1;
    GapsMatch(d, a, cut, cand);
    MergeSmallest(a, cut, p);
    MergeFlat(d, a, cut, p);
  }

  lemma {:induction false} InitialCuts(d: seq<int>, a: seq<int>, cut: seq<int>)
    requires |a| > 0 && |d| == 2 * |a| && (forall k :: 0 <= k < |a| ==> d[2 * k] == d[2 * k + 1] == a[k])
    requires |cut| == |a| - 1 && forall k :: 0 <= k < |cut| ==> cut[k] == k
    ensures CompressedFrom(d, a, cut)
  {
    forall m | 0 <= m < |a| - 1 ensures m in cut {
      assert cut[m] == m;
    }
    forall j | 0 <= j < |cut| ensures d[2 * j + 1] == a[cut[j]] && d[2 * j + 2] == a[cut[j] + 1] {
      assert d[2 * (j + 1)] == a[j + 1];
    }
    assert d[2 * (|a| - 1) + 1] == a[|a| - 1];
  }

  lemma {:induction false} SomeGapIsSmall(d: seq<int>, a: seq<int>, cut: seq<int>)
    requires |a| > 0 && StrictlySorted(a) && AllInt32(a) && |cut| >= 3 && CompressedFrom(d, a, cut)
    ensures exists p :: 1 <= p < |d| / 2 && Wrap(d[2 * p] - d[2 * p - 1]) < MAX
  {
    hide StrictlySorted, AllInt32, Greedy;
    SomeSmallGap(a, cut);
    var p :| 0 <= p < 3 && Wrap(Gap(a, cut[p])) < MAX;
    var q := p + 1;
    assert d[2 * q] == d[2 * p + 2] && d[2 * q - 1] == d[2 * p + 1];
    assert Wrap(d[2 * q] - d[2 * q - 1]) < MAX;
  }

  lemma {:induction false} GapsMatch(d: seq<int>, a: seq<int>, cut: seq<int>, cand: int)
    requires |a| > 0 && CompressedFrom(d, a, cut) && 2 <= cand < |d| && cand % 2 == 0
    requires forall p :: 1 <= p < |d| / 2 ==> Wrap(d[cand] - d[cand - 1]) <= Wrap(d[2 * p] - d[2 * p - 1])
    ensures forall j :: 0 <= j < |cut| ==> Wrap(Gap(a, cut[cand / 2 - 1])) <= Wrap(Gap(a, cut[j]))
  {
    var c := cand / 2 - 1;
    assert d[2 * c + 2] - d[2 * c + 1] == Gap(a, cut[c]);
    forall j | 0 <= j < |cut| ensures Wrap(Gap(a, cut[c])) <= Wrap(Gap(a, cut[j])) {
      assert d[2 * (j + 1)] - d[2 * (j + 1) - 1] == Gap(a, cut[j]);
    }
  }

  /** r is a with all but 99 gaps closed, none kept that is smaller than one
      closed. */
  ghost predicate Greedily(r: seq<int>, a: seq<int>)
    requires |a| > 0
  {
    exists cut :: |cut| == MAXNUMRANGE - 1 && CompressedFrom(r, a, cut)
  }

  /** r is a compression of a. */
  ghost predicate Compression(r: seq<int>, a: seq<int>)
    requires |a| > 0
  {
    |r| == 2 * MAXNUMRANGE && r[0] == a[0] && r[|r| - 1] == a[|a| - 1]
    && Ascending(Ranges(r)) && Covers(Ranges(r), a) && Greedily(r, a)
  }

  /** Compression of an internal key.  Short keys pass unchanged.  Longer ones are
      first doubled, for which the block can be refused or too short, and then
      become exactly 100 disjoint ascending ranges that keep every element; they
      are the best 100 ranges exactly when no two neighbours are 2^31 or more
      apart. */
  method CompressInternal(a: seq<int>) returns (out: Ending)
    requires StrictlySorted(a) && AllInt32(a)
    ensures |a| < 2 * MAXNUMRANGE ==> out == Key(a)
    ensures |a| >= 2 * MAXNUMRANGE ==> Allotted(2 * |a|, out)
    ensures |a| >= 2 * MAXNUMRANGE && out.Key? ==> Compression(out.elems, a)
    ensures |a| >= 2 * MAXNUMRANGE && out.Key? ==> (Optimal(Ranges(out.elems), a) <==> NoHugeGap(a))
  {
    hide Granted, Sized, Ascending, Covers, Greedily, Optimal, NoHugeGap, Ranges;
    if |a| < 2 * MAXNUMRANGE {
      return Key(a);
    }
    var cells := Allocate(Wrap(2 * |a|), 2 * |a|);
    SizedGranted(2 * |a|);
    if cells.None? {
      return TooBig;
    }
    if cells.value < 2 * |a| {
      return Overrun;
    }
    var r := Compress(a);
    return Key(r);
  }

  method Compress(a: seq<int>) returns (r: seq<int>)
    requires StrictlySorted(a) && AllInt32(a) && |a| >= 2 * MAXNUMRANGE
    ensures Compression(r, a) && (Optimal(Ranges(r), a) <==> NoHugeGap(a))
  {
    ghost var cut;
    r, cut := MergeRanges(a);
    FlatRepresents(r, a, cut);
    RepresentedAscending(Ranges(r), a, cut);
    RepresentedCovers(Ranges(r), a, cut);
    OptimalIff(Ranges(r), a, cut);
  }

  lemma {:induction false} OptimalIff(r: seq<Range>, a: seq<int>, cut: seq<int>)
    requires StrictlySorted(a) && AllInt32(a) && |a| >= 2 * MAXNUMRANGE
    requires Cuts(cut, |a| - 1) && |cut| == MAXNUMRANGE - 1 && Greedy(a, cut) && Represents(r, a, cut)
    ensures Optimal(r, a) <==> NoHugeGap(a)
  {
    hide Cuts, Greedy, Represents, Optimal, StrictlySorted;
    if NoHugeGap(a) {
      GreedyIsOptimal(r, a, cut);
    } else {
      var g :| 0 <= g < |a| - 1 && Gap(a, g) > MAX;
      HugeGapNotOptimal(r, a, cut, g);
    }
  }

  /** The 99 widest gaps, compared as C ints, the first of equal ones closed first. */
  ghost function Widest(a: seq<int>): (cut: seq<int>)
    requires |a| >= 2 * MAXNUMRANGE
    ensures Cuts(cut, |a| - 1) && Greedy(a, cut) && |cut| == MAXNUMRANGE - 1
  {
    AllCuts(a);
    KeepWidest(a, Indices(|a| - 1))
  }

  /** How many integers the compressed key covers: the span less its 99 widest gaps. */
  ghost function StoredSize(a: seq<int>): int
    requires |a| >= 2 * MAXNUMRANGE
  {
    a[|a| - 1] - a[0] + 1 - Holes(a, |a| - 1, Elems(Widest(a)))
  }

  /** That does not depend on how ties between gaps are broken. */
  lemma {:induction false} StoredSizeIs(r: seq<int>, a: seq<int>)
    requires StrictlySorted(a) && AllInt32(a) && |a| >= 2 * MAXNUMRANGE && Greedily(r, a)
    ensures |Covered(Ranges(r))| == StoredSize(a)
  {
    hide Covered, Holes, Greedy, StrictlySorted, Widest, Elems, Flat, Cuts, AllInt32, Ranges, Represents;
    var cut :| |cut| == MAXNUMRANGE - 1 && CompressedFrom(r, a, cut);
    FlatRepresents(r, a, cut);
    RepresentedSize(Ranges(r), a, cut);
    NoWider(a, cut, Widest(a));
    NoWider(a, Widest(a), cut);
  }

  lemma {:induction false} NoWider(a: seq<int>, cut: seq<int>, best: seq<int>)
    requires StrictlySorted(a) && AllInt32(a) && |a| >= 2 * MAXNUMRANGE
    requires Cuts(cut, |a| - 1) && Greedy(a, cut) && Cuts(best, |a| - 1) && Greedy(a, best)
    requires |cut| == |best| == MAXNUMRANGE - 1
    ensures Holes(a, |a| - 1, Elems(cut)) <= Holes(a, |a| - 1, Elems(best))
  {
    hide Holes, AllInt32;
    ElemsSize(cut);
    ElemsSize(best);
    forall x, y | x in Elems(cut) && x !in Elems(best) && y in Elems(best) ensures Gap(a, x) <= Gap(a, y) {
      KeptGap(a, cut, x);
      KeptGap(a, best, y);
      var j :| 0 <= j < |best| && best[j] == y;
      assert Wrap(Gap(a, x)) <= Wrap(Gap(a, best[j]));
    }
    WidestLeaveOutMost(a, |a| - 1, Elems(cut), Elems(best));
  }

  /** A gap that is kept is not huge. */
  lemma {:induction false} KeptGap(a: seq<int>, cut: seq<int>, x: int)
    requires StrictlySorted(a) && AllInt32(a) && |a| >= 2 * MAXNUMRANGE && x in cut
    requires Cuts(cut, |a| - 1) && Greedy(a, cut) && |cut| == MAXNUMRANGE - 1
    ensures 0 <= x < |a| - 1 && Wrap(Gap(a, x)) == Gap(a, x)
  {
    assert a[x] < a[x + 1];
    if Gap(a, x) > MAX {
      HugeGapIsMerged(a, cut, x);
    }
  }

  /** Every key long enough has such a compression. */
  lemma {:induction false} GreedyExists(a: seq<int>) returns (r: seq<int>)
    requires StrictlySorted(a) && AllInt32(a) && |a| >= 2 * MAXNUMRANGE
    ensures Compression(r, a)
  {
    hide Ascending, Covers, Ranges, Greedy, Represents, StrictlySorted;
    var cut := Widest(a);
    r := FlatOf(a, cut);
    FlatRepresents(r, a, cut);
    RepresentedAscending(Ranges(r), a, cut);
    RepresentedCovers(Ranges(r), a, cut);
  }

  ghost function Indices(n: nat): (s: seq<int>)
    ensures |s| == n && forall i :: 0 <= i < n ==> s[i] == i
  {
    if n == 0 then [] else Indices(n - 1) + [n - 1]
  }

  lemma {:induction false} AllCuts(a: seq<int>)
    requires |a| > 0
    ensures Cuts(Indices(|a| - 1), |a| - 1) && Greedy(a, Indices(|a| - 1))
  {
    var s := Indices(|a| - 1);
    forall m | 0 <= m < |a| - 1 ensures m in s {
      assert s[m] == m;
    }
  }

  /** Gaps are closed, smallest first, until 99 are left. */
  ghost function KeepWidest(a: seq<int>, cut: seq<int>): (kept: seq<int>)
    requires |a| > 0 && Cuts(cut, |a| - 1) && Greedy(a, cut) && |cut| >= MAXNUMRANGE - 1
    ensures Cuts(kept, |a| - 1) && Greedy(a, kept) && |kept| == MAXNUMRANGE - 1
    decreases |cut|
  {
    if |cut| == MAXNUMRANGE - 1 then cut
    else
      var p := SmallestCut(a, cut, |cut|);
      MergeSmallest(a, cut, p);
      KeepWidest(a, Drop(cut, p))
  }

  ghost function SmallestCut(a: seq<int>, cut: seq<int>, n: nat): (p: int)
    requires |a| > 0 && Cuts(cut, |a| - 1) && 0 < n <= |cut|
    ensures 0 <= p < n && forall j :: 0 <= j < n ==> Wrap(Gap(a, cut[p])) <= Wrap(Gap(a, cut[j]))
  {
    if n == 1 then 0
    else
      var p := SmallestCut(a, cut, n - 1);
      if Wrap(Gap(a, cut[n - 1])) < Wrap(Gap(a, cut[p])) then n - 1 else p
  }

  ghost function FlatOf(a: seq<int>, cut: seq<int>): (d: seq<int>)
    requires |a| > 0 && Cuts(cut, |a| - 1)
    ensures Flat(d, a, cut)
  {
    var d := seq(2 * |cut| + 2, k requires 0 <= k < 2 * |cut| + 2 =>
      if k == 0 then a[0] else if k == 2 * |cut| + 1 then a[|a| - 1]
      else if k % 2 == 1 then a[cut[k / 2]] else a[cut[k / 2 - 1] + 1]);
    d
  }

  /** 200 elements of which the first stands 3000000002 before the second: the
      code closes that gap, however it breaks ties. */
  lemma {:induction false} HugeGapWitness(r: seq<int>)
    requires Greedily(r, FarFirst())
    ensures StrictlySorted(FarFirst()) && AllInt32(FarFirst()) && !Optimal(Ranges(r), FarFirst())
  {
    hide Optimal, Ranges;
    var a := FarFirst();
    var cut :| |cut| == MAXNUMRANGE - 1 && CompressedFrom(r, a, cut);
    FlatRepresents(r, a, cut);
    assert Gap(a, 0) > MAX;
    OptimalIff(Ranges(r), a, cut);
  }

  ghost function FarFirst(): (a: seq<int>)
    ensures |a| == 200 && a[0] == -2000000000 && forall i :: 0 < i < 200 ==> a[i] == 1000000000 + 2 * i
  {
    seq(200, i => if i == 0 then -2000000000 else 1000000000 + 2 * i)
  }

  // ---------------------------------------------------- g_int_decompress

  lemma {:induction false} CoveredBelow(r: seq<Range>, x: int)
    requires Ascending(r) && x in Covered(r)
    ensures r != [] && x <= r[|r| - 1].hi
  {
    var n := |r| - 1;
    if x in Covered(r[..n]) {
      assert Ascending(r[..n]);
      CoveredBelow(r[..n], x);
    }
  }

  /** Ascending ranges do not overlap, so their sizes add up. */
  lemma {:induction false} CoveredGrows(r: seq<Range>, k: nat)
    requires Ascending(r) && k < |r|
    ensures Covered(r[..k + 1]) == Covered(r[..k]) + Interval(r[k].lo, r[k].hi)
    ensures |Covered(r[..k + 1])| == |Covered(r[..k])| + r[k].hi - r[k].lo + 1
    ensures forall x :: x in Covered(r[..k]) ==> x < r[k].lo
  {
    assert r[..k + 1][..k] == r[..k];
    forall x | x in Covered(r[..k]) ensures x < r[k].lo {
      CoveredBelow(r[..k], x);
    }
    assert Covered(r[..k]) !! Interval(r[k].lo, r[k].hi);
  }

  lemma {:induction false} CoveredPrefix(r: seq<Range>, k: nat)
    requires Ascending(r) && k <= |r|
    ensures |Covered(r[..k])| <= |Covered(r)|
    decreases |r| - k
  {
    if k < |r| {
      CoveredGrows(r, k);
      CoveredPrefix(r, k + 1);
    } else {
      assert r[..k] == r;
    }
  }

  lemma {:induction false} KeyGrows(a: seq<int>, k: nat)
    requires Ascending(Ranges(a)) && k < |a| / 2
    ensures Covered(Ranges(a)[..k + 1]) == Covered(Ranges(a)[..k]) + Interval(a[2 * k], a[2 * k + 1])
    ensures |Covered(Ranges(a)[..k + 1])| == |Covered(Ranges(a)[..k])| + a[2 * k + 1] - a[2 * k] + 1
    ensures |Covered(Ranges(a)[..k + 1])| <= |Covered(Ranges(a))|
    ensures forall x :: x in Covered(Ranges(a)[..k]) ==> x < a[2 * k]
    ensures a[2 * k] <= a[2 * k + 1] && (k > 0 ==> a[2 * k - 1] < a[2 * k])
  {
    hide Covered, Ranges;
    var r := Ranges(a);
    CoveredGrows(r, k);
    CoveredPrefix(r, k + 1);
    if k > 0 { assert r[k - 1].hi == a[2 * (k - 1) + 1]; }
  }

  lemma {:induction false} NothingCovered(r: seq<Range>)
    ensures Covered(r[..0]) == {} && r[..|r|] == r
  {
  }

  /** `internal_size`: the number of integers in the ranges of a key, as an int. */
  method InternalSize(a: seq<int>) returns (size: int)
    requires |a| % 2 == 0 && Ascending(Ranges(a))
    ensures size == Wrap(|Covered(Ranges(a))|)
  {
    hide Ranges, Covered, Ascending, Wrap;
    ghost var k := 0;
    size := 0;
    var i := 0;
    NothingCovered(Ranges(a));
    while i < |a|
      invariant 0 <= i <= |a| && i == 2 * k
      invariant size == Wrap(|Covered(Ranges(a)[..k])|)
    {
      KeyGrows(a, k);
      if i == 0 || a[i] != a[i - 1] {
        WrapSum(|Covered(Ranges(a)[..k])|, a[i + 1] - a[i] + 1);
        size := Wrap(size + (a[i + 1] - a[i] + 1));
      }
      i, k := i + 2, k + 1;
    }
    assert k == |Ranges(a)|;
  }

  /** Where the loop variable of `for (j = lo; j <= hi; j++)` stands after n
      rounds, as a C int. */
  ghost function LoopVar(lo: int, n: nat): int
  {
    if n == 0 then lo else Wrap(LoopVar(lo, n - 1) + 1)
  }

  lemma {:induction false} LoopVarCounts(lo: int, hi: int, n: nat)
    requires IsInt32(lo) && IsInt32(hi) && lo + n <= hi + 1 && hi < MAX
    ensures LoopVar(lo, n) == lo + n
  {
    if n > 0 { LoopVarCounts(lo, hi, n - 1); }
  }

  lemma {:induction false} LoopVarIsInt32(lo: int, n: nat)
    requires IsInt32(lo)
    ensures IsInt32(LoopVar(lo, n))
  {
  }

  /** The loop over a range ever ends exactly when the range stops short of the
      largest 32-bit integer: past that the variable wraps to the smallest. */
  lemma {:induction false} RangeLoopEnds(lo: int, hi: int)
    requires IsInt32(lo) && IsInt32(hi) && lo <= hi
    ensures (exists n: nat :: LoopVar(lo, n) > hi) <==> hi < MAX
  {
    if hi < MAX {
      LoopVarCounts(lo, hi, hi + 1 - lo);
    } else {
      forall n: nat ensures LoopVar(lo, n) <= hi {
        LoopVarIsInt32(lo, n);
      }
    }
  }

  /** What becomes of the ranges d, the last of which ends at last.  A loop that
      does not end fills its block first. */
  ghost predicate ReadsAs(d: seq<Range>, last: int, out: Ending) {
    var n := |Covered(d)|;
    && (out.TooBig? <==> !Granted(n))
    && (out.Overrun? <==> Granted(n) && !Sized(n))
    && (out.Endless? <==> Sized(n) && last == MAX)
    && (out.Key? <==> Sized(n) && last < MAX)
    && (out.Key? ==> StrictlySorted(out.elems) && Elems(out.elems) == Covered(d) && |out.elems| == n)
  }

  /** Decompression of a key: a short key is itself; the ranges of a longer one
      are written out element by element.  The size of the block is an int, so
      that a list 4 GB or more too long is granted a block too short for it. */
  method Decompress(din: seq<int>) returns (out: Ending)
    requires |din| >= 2 * MAXNUMRANGE && |din| % 2 == 0 ==> AllInt32(din) && Ascending(Ranges(din))
    ensures |din| < 2 * MAXNUMRANGE ==> out == Key(din)
    ensures out.ReadsPast? <==> |din| >= 2 * MAXNUMRANGE && |din| % 2 == 1
    ensures |din| >= 2 * MAXNUMRANGE && |din| % 2 == 0 ==> ReadsAs(Ranges(din), din[|din| - 1], out)
  {
    hide Granted, Sized, Covered, Ranges, Ascending, StrictlySorted, Elems;
    if |din| < 2 * MAXNUMRANGE {
      return Key(din);
    }
    if |din| % 2 == 1 {
      return ReadsPast;
    }
    var size := InternalSize(din);
    ghost var n := |Covered(Ranges(din))|;
    var cells := Allocate(size, n);
    SizedGranted(n);
    if cells.None? {
      return TooBig;
    }
    if cells.value < 0 {
      return Overrun;
    }
    out := ExpandRanges(din, cells.value);
    if out.Key? && din[|din| - 1] == MAX {
      return Endless;
    }
  }

  /** The two loops, writing into a block of so many cells. */
  method ExpandRanges(din: seq<int>, cells: nat) returns (out: Ending)
    requires |din| % 2 == 0 && Ascending(Ranges(din)) && cells <= |Covered(Ranges(din))|
    ensures out.Overrun? <==> cells < |Covered(Ranges(din))|
    ensures !out.Overrun? ==> out.Key? && StrictlySorted(out.elems) && |out.elems| == cells
    ensures !out.Overrun? ==> Elems(out.elems) == Covered(Ranges(din))
  {
    hide StrictlySorted, Covered, Ranges, Ascending, Elems, Interval;
    ghost var k := 0;
    var dr := new int[cells];
    var n, i := 0, 0;
    NothingCovered(Ranges(din));
    EmptySorted(dr[..0]);
    while i < |din|
      invariant 0 <= i <= |din| && i == 2 * k
      invariant n == |Covered(Ranges(din)[..k])| && 0 <= n <= dr.Length && (i > 0 ==> n > 0)
      invariant StrictlySorted(dr[..n]) && Elems(dr[..n]) == Covered(Ranges(din)[..k])
    {
      KeyGrows(din, k);
      if n + din[i + 1] - din[i] + 1 > dr.Length {
        return Overrun;
      }
      n := ExpandRange(dr, n, i, din[i], din[i + 1]);
      i, k := i + 2, k + 1;
    }
    assert k == |Ranges(din)|;
    out := Key(dr[..n]);
  }

  // --------------------------------------------------- a block too short

  /** 201 elements at equal distances. */
  ghost function Spaced(): (a: seq<int>)
    ensures |a| == 201 && forall i :: 0 <= i < 201 ==> a[i] == -1063110700 + 10631107 * i
  {
    seq(201, i => -1063110700 + 10631107 * i)
  }

  lemma {:induction false} EqualGaps(a: seq<int>, n: nat, cut: seq<int>, g: int)
    requires n < |a| && Cuts(cut, n) && forall i :: 0 <= i < |a| - 1 ==> Gap(a, i) == g
    ensures Holes(a, n, Elems(cut)) == |cut| * (g - 1)
    decreases |cut|
  {
    if cut == [] {
      NoHoles(a, n);
      assert Elems(cut) == {};
    } else {
      var m := |cut| - 1;
      EqualGaps(a, n, cut[..m], g);
      assert Elems(cut) == Elems(cut[..m]) + {cut[m]};
      HolesAdd(a, n, Elems(cut[..m]), cut[m]);
    }
  }

  /** However ties between the gaps are broken, this key of 201 elements is
      compressed to ranges for which 356 bytes are allocated and 4 GB written. */
  lemma {:induction false} OverrunWitness(r: seq<int>)
    requires Greedily(r, Spaced())
    ensures StrictlySorted(Spaced()) && AllInt32(Spaced())
    ensures var n := |Covered(Ranges(r))|;
      n == 1073741907 && Granted(n) && !Sized(n) && Bytes(Wrap(n)) == 356
  {
    var a := Spaced();
    var cut :| |cut| == MAXNUMRANGE - 1 && CompressedFrom(r, a, cut);
    FlatRepresents(r, a, cut);
    RepresentedSize(Ranges(r), a, cut);
    EqualGaps(a, |a| - 1, cut, 10631107);
  }

  /** One range written out behind the first n elements. */
  method ExpandRange(dr: array<int>, n: int, i: int, lo: int, hi: int) returns (m: int)
    requires 0 <= n && 0 <= i && lo <= hi && n + hi - lo + 1 <= dr.Length && (i > 0 ==> n > 0)
    requires StrictlySorted(dr[..n]) && forall x :: x in Elems(dr[..n]) ==> x < lo
    modifies dr
    ensures m == n + hi - lo + 1
    ensures StrictlySorted(dr[..m]) && Elems(dr[..m]) == Elems(old(dr[..n])) + Interval(lo, hi)
  {
    hide Expanding, StrictlySorted, Elems, Interval;
    ghost var was := dr[..n];
    m := n;
    var j := lo;
    ExpandStart(was, lo);
    while j <= hi
      invariant lo <= j <= hi + 1 && m == n + j - lo
      invariant Expanding(was, dr[..m], lo, j)
    {
      ghost var s := dr[..m];
      ExpandStep(was, s, lo, j);
      if i == 0 || dr[m - 1] != j {
        dr[m] := j;
        m := m + 1;
        assert dr[..m] == s + [j];
      }
      j := j + 1;
    }
    ExpandEnd(was, dr[..m], lo, j);
  }

  ghost predicate Expanding(was: seq<int>, s: seq<int>, lo: int, j: int) {
    StrictlySorted(s) && Elems(s) == Elems(was) + Interval(lo, j - 1) && forall x :: x in Elems(s) ==> x < j
  }

  lemma {:induction false} EmptySorted(s: seq<int>)
    requires s == []
    ensures StrictlySorted(s) && Elems(s) == {}
  {
  }

  lemma {:induction false} ExpandStart(was: seq<int>, lo: int)
    requires StrictlySorted(was) && forall x :: x in Elems(was) ==> x < lo
    ensures Expanding(was, was, lo, lo)
  {
    assert Elems(was) + Interval(lo, lo - 1) == Elems(was);
  }

  lemma {:induction false} ExpandEnd(was: seq<int>, s: seq<int>, lo: int, j: int)
    requires Expanding(was, s, lo, j)
    ensures StrictlySorted(s) && Elems(s) == Elems(was) + Interval(lo, j - 1)
  {
  }

  lemma {:induction false} ExpandStep(was: seq<int>, s: seq<int>, lo: int, j: int)
    requires lo <= j && Expanding(was, s, lo, j)
    ensures s != [] ==> s[|s| - 1] < j
    ensures Expanding(was, s + [j], lo, j + 1)
  {
    AppendLarger(s, j);
    if s != [] { assert s[|s| - 1] in Elems(s); }
  }

  lemma {:induction false} AppendLarger(s: seq<int>, j: int)
    requires StrictlySorted(s) && forall x :: x in Elems(s) ==> x < j
    ensures StrictlySorted(s + [j]) && Elems(s + [j]) == Elems(s) + {j}
  {
    forall i | 0 <= i < |s| ensures s[i] < j {
      assert s[i] in Elems(s);
    }
  }
}
